/**
 * The error type of error.go: a status code, the place it came from, the HTTP status text of
 * the code as its title, and a list of messages of which only the first is the error's text.
 */
module Errors {

  /**
   * `Error`. `Source` is an `interface{}` in Go; `NewError` only ever stores a string in it,
   * so it is a string here.
   */
  datatype Error = Error(code: int, source: string, title: string, messages: seq<string>)

  /** `(*Error).Error`: the first message, or "" when there is none (a nil list included). */
  function ErrorString(e: Error): (errStr: string)
    ensures |e.messages| != 0 ==> errStr == e.messages[0]
    ensures |e.messages| == 0 ==> errStr == ""
  {
    if |e.messages| != 0 then e.messages[0] else ""
  }

  /**
   * `NewError(code, source, message...)`: every argument is stored unchanged and the title is
   * `http.StatusText(code)`, given here as the function `statusText`.
   */
  function NewError(code: int, source: string, messages: seq<string>, statusText: int -> string): (err: Error)
    ensures err.code == code && err.source == source && err.messages == messages
    ensures err.title == statusText(code)
  {
    Error(code, source, statusText(code), messages)
  }

  /** The text of a new error is its first message; the messages after it never show. */
  lemma NewErrorText(code: int, source: string, first: string, rest: seq<string>, statusText: int -> string)
    ensures ErrorString(NewError(code, source, [first] + rest, statusText)) == first
  {
  }

  /** A new error made without messages has the empty string as its text. */
  lemma NewErrorWithoutMessages(code: int, source: string, statusText: int -> string)
    ensures ErrorString(NewError(code, source, [], statusText)) == ""
  {
  }

  /**
   * The text depends on the first message alone: errors that agree on it read the same,
   * whatever their codes, sources, titles and later messages.
   */
  lemma TextIsFirstMessage(e1: Error, e2: Error)
    requires |e1.messages| != 0 && |e2.messages| != 0
    ensures ErrorString(e1) == ErrorString(e2) <==> e1.messages[0] == e2.messages[0]
  {
  }

  /** The title is a function of the code alone: the source and messages do not affect it. */
  lemma TitleOfCode(code: int, s1: string, m1: seq<string>, s2: string, m2: seq<string>, statusText: int -> string)
    ensures NewError(code, s1, m1, statusText).title == NewError(code, s2, m2, statusText).title
  {
  }
}
