# gofiber-helpers, modelled in Dafny

This project models the core of `gofiber-helpers`, a set of Go helpers for the Fiber web framework:

- **data.go**: the file-name helper; the date decoder `DateStrTotime`, which reads ISO, day-month-year and packed dates in the Common or the Buddhist Era; its encoder `TimeToDGADate`; and the Thai citizen-ID check `ValidCID`.
- **utils.go**: `RemoveIndex`, `chopPath` and `ExtractAuthString`.
- **context.go**: the request accessors. These are the trimmed form and path values, the integer accessors and their `Default` variants, the boolean, base64 and array accessors, and `BasicAuth`.
- **smtp.go**: the MIME message `Mail.Builder` writes.
- **error.go**: the `Error` type with its `Error()` text and `NewError`.

Modules `GoText`, `GoStrconv`, `GoBase64` and `GoTime` model the parts of Go's standard library that the core relies on. They cover `strings`, `strconv`, `encoding/base64` (the alphabets of section 4 and section 5 of RFC 4648, with Go's padded decoder) and the proleptic Gregorian calendar. `Fiber` holds the framework's error value.

Modelling choices:

- **Strings.** A Go string is a sequence of Unicode code points, assumed to be valid UTF-8. Byte lengths and byte indexing go through `GoText.Utf8Encode`.
- **Outside inputs as parameters.** Several inputs come from outside the helpers and are taken as parameters:
  - the current year, as `currentYear`;
  - the padding character of `%04s`, as `Fill`;
  - `http.StatusText`, as `statusText`;
  - `url.PathUnescape`, as the `pathUnescape` field of `Context.Ctx`;
  - the `BasicAuth` and `BearerToken` scheme constants, as `basicScheme` and `bearerScheme`.
- **Imperative code.** Code that works step by step keeps its form:
  - `ValidCID` is a method with its loop;
  - `RemoveIndex` shifts an array in place;
  - `Builder` appends to a `Smtp.Buffer` object;
  - the base64 encoder fills an array.
- **Panics.** Where `ExtractAuthString` panics, the model returns an explicit `Panicked` outcome. The inputs on which `RemoveIndex` and `chopPath` panic are excluded by their preconditions instead; "## Left out" names them.

## Model

| member | source | states |
|---|---|---|
| Data.Base | data.go:17 | `path.Split`'s file part is a suffix of the path and holds no '/'; it is the whole path when there is no '/', and otherwise starts right after a '/' (so after the last one) |
| Data.Ext | data.go:18 | `path.Ext` is empty, or a suffix of the path that starts with '.' and holds no '/' |
| Data.ExtAtEnd | data.go:18-19 | in an element without '/', the extension's last occurrence is at the very end, and it starts at the final '.' (empty when there is no '.') |
| Data.FileNameWithoutExtension | data.go:16-23 | the result is a prefix of the path's last element and holds no '/' |
| Data.FileNameParts | data.go:16-23 | result followed by the extension gives back the last path element; the cut is at its final '.'; an element without '.' comes back whole; the result holds no '/' |
| Data.FileNameOf | data.go:16-23 | for a path whose last element holds its last '.' at `dot`, the result is the part of that element before the '.' |
| Data.FileNameOfBare | data.go:16-23 | for a path whose last element holds no '.', the result is that whole element |
| Data.FileNameExampleExt | data_test.go:22-25 | "/dir0/dir1/test.ext" gives "test" |
| Data.FileNameExampleBare | data_test.go:27-30 | "/dir0/dir1/test" gives "test" |
| Data.Normalise | data.go:31-38 | the input trimmed by `TrimSpace`, then with every '/' replaced by '-': no '/' is left, and neither end is white space |
| Data.NormalisePadded | data.go:31-38 | white space around a date is dropped: `pre + t + post`, with white space `pre` and `post` and a trimmed `t`, normalises as `t` does, to `t` with '/' replaced |
| Data.IsoOf | data.go:63 | `%04s-%02s-%02s` of fields no wider than 4, 2 and 2: ten characters with '-' at positions 4 and 7, each field right-aligned in its slot after fill characters |
| Data.ZeroToOne | data.go:57-62 | "00" becomes "01"; every other field is kept; the result is never "00" |
| Data.FromBuddhistEra | data.go:64-69 | a year above `currentYear + 272` moves back 543 years and any other date is kept; the result is a real date whose month and day are unchanged, except that Feb 29 can become Mar 1 |
| Data.Resolve | data.go:63-69 | under either era rule: a result exists exactly when the date is real in the year that rule checks; it keeps month and day (Feb 29 → Mar 1 only when validating before the shift); its year is shifted exactly above the threshold |
| Data.Attempt | data.go:63-69 | one layout parse plus the era shift: every date it yields is a real calendar date |
| Data.AttemptDigits | data.go:63-69 | full-width digit fields are read as their values and resolved under the era rule |
| Data.Hyphenated | data.go:47-63 | the hyphenated reading, year first or year last: every date it yields is a real calendar date |
| Data.Packed | data.go:74-104 | the packed reading, YYYYMMDD and then DDMMYYYY: every date it yields is a real calendar date |
| Data.ParseDate | data.go:25-109 | every success is a real calendar date; every failure is the field-count error or the length error; the field-count error comes exactly when the normalised input contains '-' and does not split into three fields |
| Data.DateStrTotime | data.go:25-109 | the code as written: every date it yields is real, and every failure is the field-count or the length error |
| Data.DateStrTotimeCorrected | data.go:25-109 | with the era shift before the calendar check: the same guarantees |
| Data.YmdInput | data.go:41-63 | four, two and two digits joined by '-' or '/' are read year-month-day, with "00" read as "01", and end in the date or the length error |
| Data.DmyInput | data.go:47-55 | two, two and four digits are read day-month-year, with the same coercion |
| Data.PackedInput | data.go:74-107 | eight digits: YYYYMMDD with the coercion when that resolves, else DDMMYYYY without it, else the length error |
| Data.ParseHyphenated | data.go:41-72 | a hyphenated input of three fields that is not eight bytes long has only the hyphenated reading |
| Data.ParsePacked | data.go:74-106 | an eight-byte input without '-' has only the packed reading |
| Data.ParseNeitherShape | data.go:107 | an input without '-' that is not eight bytes long gets the length error |
| Data.NormaliseThree | data.go:31-42 | three digit fields joined by '-' or '/' come out of normalisation joined by '-' and split back into the three fields |
| Data.IsoRoundTrip | data.go:63 | a date in years 0..9999 at or below the threshold comes back unchanged from its own "2006-01-02" rendering, under either rule |
| Data.ExampleIso | data_test.go:41-47 | "1990-12-09" gives 1990-12-09 |
| Data.ExampleBuddhistIso | data_test.go:49-54 | "2533-12-09" gives 1990-12-09 |
| Data.ExampleDmy | data_test.go:56-61 | "09-12-1990" gives 1990-12-09 |
| Data.ExampleBuddhistDmy | data_test.go:63-68 | "09-12-2533" gives 1990-12-09 |
| Data.ExampleSlashes | data.go:38 | "09/12/2533" gives 1990-12-09, as "09-12-2533" does |
| Data.ExamplePacked | data_test.go:70-75 | "19901209" gives 1990-12-09 |
| Data.ExamplePackedBuddhist | data_test.go:77-82 | "25331209" gives 1990-12-09 |
| Data.ExamplePackedDmy | data_test.go:84-89 | "09121990" gives 1990-12-09, read as DDMMYYYY |
| Data.ExamplePackedBuddhistDmy | data_test.go:91-96 | "09122533" gives 1990-12-09 |
| Data.ExampleTwoFields | data_test.go:98-103 | "12-1990" is the field-count error |
| Data.ExampleYearOnly | data_test.go:105-110 | "1990" is the length error |
| Data.ExampleZeroDay | data_test.go:112-118 | "00-12-1990" gives 1990-12-01 |
| Data.ExampleZeroMonth | data_test.go:120-126 | "09-00-1990" gives 1990-01-09 |
| Data.ExamplePackedZeroDay | data_test.go:128-134 | "25331200" gives 1990-12-01 |
| Data.ExamplePackedZeroMonthDay | data_test.go:136-142 | "25330000" gives 1990-01-01 |
| Data.ExampleLeapDay | data.go:63-69 | as written "2563-02-29" is the length error; with the shift first it is 2020-02-29 |
| Data.TimeToDGADate | data.go:111-114 | `%04d%02d%02d` of the Buddhist year, month and day: at least eight characters, and exactly eight digits when the fields fit their widths |
| Data.DgaDigits | data.go:111-114 | for Buddhist years 0..9999 the DGA form is eight digits that read back as the Buddhist year, the month and the day |
| Data.DgaPacked | data.go:111-114 | the DGA form read as YYYYMMDD is the Buddhist-Era date, and its DDMMYYYY month is the Buddhist year modulo 100 |
| Data.DgaRoundTrip | data.go:74-92 | for a Buddhist year above the threshold, `DateStrTotime` of the DGA form gives back every date except Feb 29 |
| Data.DgaLeapDayLost | data.go:86-104 | as written, Feb 29 never survives the DGA round trip |
| Data.LeapDayPacked | data.go:74-107 | eight digits holding Feb 29 of a leap year's Buddhist year are never read back as that day |
| Data.LeapYearShifted | data.go:66-67 | 543 years after a leap year is never a leap year |
| Data.DgaRoundTripCorrected | data.go:74-92 | with the shift first, every date with a four-digit Buddhist year above the threshold survives the round trip |
| Data.DigitOfIsAtoi | data.go:120 | the digit value used is exactly `strconv.Atoi(string(b))` with its error dropped: the digit, or 0 for any other byte |
| Data.SameDigit | data.go:126 | comparing `strconv.Itoa(d)` with the 13th byte as a one-rune string is comparing that byte with the digit d |
| Data.CheckDigit | data.go:119-124 | `(11 - sum mod 11) mod 10` of the weighted sum is a digit, 0..9 |
| Data.CidAccepted | data.go:117-130 | an accepted ID is 13 bytes long and ends in an ASCII digit |
| Data.ValidCID | data.go:116-135 | the result is true exactly when there is no error, exactly when the ID is 13 bytes whose last is the check digit of the first twelve; each rejection carries its error message |
| Data.ThirdDigitIgnored | data.go:119-124 | the third digit carries weight 11, so two IDs that differ only there are accepted or rejected together |
| Data.CompletedAccepted | data.go:119-130 | a digit completes twelve ASCII characters to an accepted ID exactly when it is their check digit |
| Data.OneCheckDigit | data.go:119-130 | exactly one of the ten digits completes twelve ASCII characters to an accepted ID |
| Data.WeightedSumPrefix | data.go:119-122 | the sum reads only the twelve leading bytes |
| Data.CidExample | data_test.go:168-182 | "1111111111119" is accepted and "1111111111110" is not |
| Utils.Without | utils.go:138 | removing one element: one shorter, the elements before and after in order, the same multiset less the removed element |
| Utils.RemoveIndex | utils.go:136-139 | the result is the slice without `index`, held in the array's first `len-1` slots; the last slot keeps its old value |
| Utils.ChopPath | utils.go:67-74 | the result is a suffix that holds no separator; it is the whole input exactly when the separator does not occur; for a one-character separator that occurs, input = prefix + separator + result (a longer separator is cut one character past its start, so "a::b" chopped at "::" gives ":b") |
| Utils.ChopPathSlash | utils.go:67-74 | the text after the last '/' of `dir/name` is `name` |
| Utils.BasicPieces | utils.go:189-194 | decoded credentials without ':' panic; otherwise username and password are the first two ':'-free pieces, and the password stops at a second ':' |
| Utils.ExtractAuthString | utils.go:176-204 | two fields or the format error; a panic exactly for a basic header whose payload is not base64 or holds no ':'; otherwise a basic header gives the text before the first ':' as username and the text up to the next ':' (or the end) as password; bearer gives its token; any other scheme gives the type error |
| Utils.ExtractAuthStringCorrected | utils.go:183-194 | never panics: wherever the code as written panics it rejects with a 401 error, and elsewhere it agrees with the code as written |
| Utils.HeaderFields | utils.go:177 | a scheme and a payload without spaces, joined by one space, split back into the two |
| Utils.ExtractBasic | utils.go:183-194 | a header built from a basic scheme and standard base64 of "user:passwd" yields that user and password |
| Utils.ExtractBearer | utils.go:195-199 | a bearer header yields its token |
| Utils.ExtractWithoutColon | utils.go:189-193 | basic credentials without ':' panic as written and are the format error in the corrected version |
| Context.Lookup | context.go:22-23 | a missing form field, parameter or header reads as "" |
| Context.FormValueTrim | context.go:21-24 | the field as `TrimSpace` trims it: no white space at either end, and a missing field is "" |
| Context.ParamTrim | context.go:161-168 | an unescaped parameter is trimmed; when unescaping fails, the raw parameter is returned untrimmed |
| Context.IntOf | context.go:73-79 | "" is 0 with the 404 error; otherwise the value succeeds exactly when it is a well-formed integer inside 64 bits, and yields that integer; otherwise the error is strconv's for this text and function |
| Context.IntOrDefault | context.go:84-90 | the denoted integer when the value reads, else `def` |
| Context.FormValueInt | context.go:70-79 | as `IntOf` on the trimmed field, with `Atoi` errors |
| Context.FormValueIntDefault | context.go:81-90 | the field's integer when it reads, else `def` |
| Context.FormValueInt64 | context.go:92-101 | as `IntOf` on the trimmed field, with `ParseInt` errors |
| Context.FormValueInt64Default | context.go:103-112 | the field's integer when it reads, else `def` |
| Context.ParamInt | context.go:211-220 | as `IntOf` on the trimmed parameter |
| Context.ParamIntDefault | context.go:222-231 | the parameter's integer when it reads, else `def` |
| Context.ParamInt64 | context.go:233-242 | as `IntOf` on the trimmed parameter, with `ParseInt` errors |
| Context.ParamInt64Default | context.go:244-253 | the parameter's integer when it reads, else `def` |
| Context.FormValueIntRoundTrip | context.go:73-112 | a field holding `strconv.Itoa(n)` for a 64-bit n reads back as n through all four form accessors |
| Context.FormValueIntPadded | context.go:73-112 | white space around such an integer is trimmed first, so " 12 " reads as 12 through all four form accessors |
| Context.FormValueIntMissing | context.go:73-112 | a missing field is 0 with the 404 error, and the `Default` variants give `def` |
| Context.FormValueIntLetters | context.go:78-89 | "abc" is Atoi's syntax error with value 0, and the `Default` variant gives `def` |
| Context.BoolOf | context.go:140-144 | true exactly for the spellings `strconv.ParseBool` reads as true; parse errors read as false |
| Context.FormValueBool | context.go:136-145 | true exactly when the trimmed field is a true spelling |
| Context.ParamBool | context.go:277-286 | true exactly when the trimmed parameter is a true spelling |
| Context.FormValueBoolRoundTrip | context.go:139-145 | a field holding `strconv.FormatBool(b)` reads back as b |
| Context.FormValueBase64 | context.go:56-68 | URL-safe decoding when it succeeds, else standard decoding when it succeeds, else the field's own bytes |
| Context.ParamBase64 | context.go:200-209 | URL-safe decoding when it succeeds, else the trimmed parameter's own bytes |
| Context.FormValueBase64RoundTrip | context.go:59-68 | a field holding base64 of some bytes, in either alphabet, yields those bytes |
| Context.ParamBase64RoundTrip | context.go:203-209 | a parameter unescaping to URL-safe base64 of some bytes yields those bytes |
| Context.Separator | context.go:155-157 | the first separator given, else "," |
| Context.FormValueArray | context.go:147-159 | empty exactly when the trimmed field is empty; otherwise the pieces joined by the separator give back the field, no piece holds the separator, and each cut falls at the first occurrence of the separator, which fixes the pieces even for a separator that overlaps itself (one character each for "") |
| Context.FormValueArrayRoundTrip | context.go:150-159 | pieces free of ',' joined by ',' are read back as those pieces |
| Context.BasicAuth | context.go:288-321 | nil exactly when the header is "basic" (any case), one space, and standard base64 of user ':' passwd with no other ':'; every error is a 401: not two fields is the authorization-format error, another scheme is the basic-format error, bad base64 is the decoder's message, decoded bytes that do not split into two pieces on ':' are the basic-format error, and two pieces other than user and passwd are "invalid user/passwd" |
| Context.CredentialsMatch | context.go:310-316 | the decoded bytes split into exactly user and passwd exactly when they are those bytes around one ':' and neither holds ':' |
| Context.BasicAuthAccepts | context.go:288-317 | the header a client builds from the right user and password is accepted |
| Smtp.Buffer.constructor | smtp.go:27 | a new buffer is empty |
| Smtp.Buffer.WriteString | smtp.go:30-67 | appends the string's UTF-8 bytes and nothing else |
| Smtp.Buffer.Write | smtp.go:62 | appends the bytes |
| Smtp.WriteHeaders | smtp.go:29-44 | appends From, To, Subject, Cc and Bcc when non-empty, and the Content-Type line, in that order |
| Smtp.WriteLines | smtp.go:30-58 | appends the lines in order |
| Smtp.WriteTextPart | smtp.go:46-50 | appends the text part: delimiter, its two headers and the message bytes |
| Smtp.WriteAttachment | smtp.go:52-63 | appends the attachment part when there is an attachment, and nothing otherwise |
| Smtp.WriteAttachmentPart | smtp.go:53-62 | appends the part's headers and the standard base64 of the attachment, encoded in place into a buffer of `EncodedLen` bytes |
| Smtp.WriteClosing | smtp.go:64-67 | appends the close delimiter |
| Smtp.Builder | smtp.go:26-70 | the body is the header lines, the text part, the attachment part and the close delimiter, in that order |
| Smtp.OpensWithHeaders | smtp.go:30-32 | the message starts with the From, To and Subject lines |
| Smtp.EndsWithClosing | smtp.go:64-67 | the message ends with "\r\n--zercle-mail-boundary--" |
| Smtp.CopyLines | smtp.go:34-40 | a Cc line is present exactly when there are Cc addresses, and likewise for Bcc |
| Smtp.HeaderLineEnds | smtp.go:30-44 | every header line ends in CRLF except the Content-Type line, which ends in a bare LF |
| Smtp.AttachmentRecoverable | smtp.go:53-64 | the `EncodedLen` bytes before the close delimiter decode, as standard base64, to the attachment |
| Smtp.MessageRecoverable | smtp.go:50-64 | without an attachment, the message bytes sit right before the close delimiter |
| Smtp.WrittenAppend | smtp.go:30-67 | writing two runs of lines writes their concatenation |
| Errors.ErrorString | error.go:13-18 | the first message, or "" when there is none |
| Errors.NewError | error.go:20-27 | code, source and messages are stored unchanged, and the title is the status text of the code |
| Errors.NewErrorText | error.go:13-27 | a new error's text is its first message |
| Errors.NewErrorWithoutMessages | error.go:13-27 | a new error made without messages has "" as its text |
| Errors.TextIsFirstMessage | error.go:13-18 | two errors read the same exactly when their first messages agree |
| Errors.TitleOfCode | error.go:24 | the title depends on the code alone |
| GoText.TrimSpace | context.go:23 | the result is a slice of the input with only white space before and after it, and neither of its ends is white space |
| GoText.TrimSpaceStrips | context.go:23 | for white space `pre` and `post` around a string `t` with no white space at its ends, the result is exactly `t` |
| GoText.TrimLeftBlank | context.go:23 | leading white space is dropped whatever follows it |
| GoText.TrimRightBlank | context.go:23 | trailing white space is dropped whatever precedes it |
| GoText.ToLower | utils.go:182 | same length, each code point lower-cased as `ToLowerRune` does |
| GoText.SplitThenJoin | context.go:158 | joining `strings.Split`'s pieces with the separator gives back the string |
| GoText.SplitLeftmost | context.go:158 | every piece of `strings.Split` but the last, followed by the separator, first holds the separator at its end: each cut is at the leftmost occurrence |
| GoText.SplitOverlapExample | context.go:158 | "a,,,b" split on ",," gives "a" and ",b" |
| GoText.JoinThenSplit | context.go:158 | pieces free of a one-character separator, joined by it, split back into themselves |
| GoText.JoinExplode | context.go:158 | splitting on "" cuts the string into its characters, which join back into it |
| GoText.ReplaceAll | data.go:38 | same length; every `from` becomes `to`, every other character is kept |
| GoText.Utf8Concat | smtp.go:30-67 | the UTF-8 bytes of a concatenation are the concatenation of the bytes |
| GoText.FormatIntWidth | data.go:112 | `%0wd` is never narrower than w |
| GoText.FormatIntFixed | data.go:112 | `%0wd` of a number below 10^w is w digits that denote the number |
| GoText.LastIndex | utils.go:69 | the found index is an occurrence and none follows it |
| GoStrconv.ParseIntMeaning | context.go:78 | `ParseInt` succeeds exactly on well-formed integers inside 64 bits, with their value; out-of-range values and syntax errors are reported as such |
| GoStrconv.ParseItoa | context.go:78 | `ParseInt` of `Itoa(n)` is n for every 64-bit n |
| GoStrconv.ParseBoolSpellings | context.go:140 | `FormatBool`, upper-case and digit spellings read back as their truth value |
| GoStrconv.ParseBoolRejects | context.go:140 | every word outside the twelve spellings is a syntax error read as false, and only those |
| GoBase64.EncodeInto | smtp.go:60-61 | the destination's first `EncodedLen` bytes become the encoding, and the rest is unchanged |
| GoBase64.RoundTrip | smtp.go:61 | decoding an encoding gives back the bytes |
| GoBase64.StringRoundTrip | context.go:61-65 | the same for strings |
| GoBase64.StdReadAsUrl | context.go:61-65 | a standard encoding that the URL-safe decoder accepts decodes to the same bytes |
| GoBase64.Decode | context.go:303 | a successful decode saw only symbols of the alphabet, padding and line breaks |
| GoTime.ParseIso | data.go:63 | the layout "2006-01-02" accepts exactly the well-formed fields that make a real date, with years 0..9999 |
| GoTime.ParseIsoString | data.go:63 | every such date reads back from its rendering |
| GoTime.AddYears | data.go:67 | `AddDate(-543, 0, 0)`: the year moves, the date stays real, and only Feb 29 moves to Mar 1 |

## Left out

- `DateStrTotime`'s `time.LoadLocation("Asia/Bangkok")` and its 500 error are left out. Time zones are not modelled, and a date is a calendar date without a clock.
- `time.Now()` is the parameter `currentYear`.
- Data.ParseDate: the `!result.IsZero()` guard is not modelled. The layout is parsed in a location east of UTC, so the zero instant is never produced.
- The error `err.Error()` that lines 71 and 105 build is always replaced on line 107, so only the final error is modelled.
- Data.IsoOf: `fmt`'s `%04s` pads with '0' in some Go releases and with spaces in others, so the choice is the parameter `Fill`. Every lemma about full-width fields holds for both.
- `ENVJSONArray` and `ENVJSONObj` read the environment and parse JSON, which is outside the model.
- `GetStackTrace` and `WhereAmI` depend on the Go runtime. Only their string helper `chopPath` is modelled.
- The bcrypt, random-string, hashing, UUID and snowflake helpers of utils.go are left out. They are cryptography, randomness and process state.
- `Mail.Send` opens a network connection and is left out. `Builder` is modelled.
- The date, time and float accessors of context.go (lines 26-54, 114-134 and 170-198) are left out. Floating-point parsing and the time layouts are not modelled.
- `url.PathUnescape` is an uninterpreted function inside `Context.Ctx`.
- The framework's `FormValue`, `Params` and `Get` are maps. Header names are matched exactly, not case-insensitively.
- Utils.RemoveIndex: the model shows how the array's contents move. It does not model that Go's result shares the argument's backing array, nor slice capacity.
- Errors.NewError: `Source` is an `interface{}` in Go. `NewError` only stores strings there, so it is a string.
- Errors.ErrorString: calling `Error()` on a nil `*Error` would panic. That case is not modelled.
- Utils.RemoveIndex: an index outside `0 <= index < len(s)` makes Go panic on `s[index+1:]` (or `s[:index]`); the precondition excludes those indices, so the panic is not modelled.
- Utils.ChopPath: an empty `pathChar` makes `strings.LastIndex` return `len(original)` and `original[i+1:]` panic; the precondition `|pathChar| > 0` excludes it, so the panic is not modelled.
- Utils.ChopPath: the cut after the last occurrence is one character past its start, where Go's `original[i+1:]` is one byte past it. The two differ only for a separator that starts with a non-ASCII character; the helper's one caller passes ".".
- GoText.ToLower: only the code points whose lower case is ASCII are lowered; every other code point is kept. This is exact wherever the result is compared with an ASCII scheme name, which is how the helpers use it.
- Context.FormValueInt: `int` is taken to be 64 bits wide, as on the platforms Fiber targets.
- The values of the `BasicAuth` and `BearerToken` constants are not part of this model. model.go does not define them, so they are the parameters `basicScheme` and `bearerScheme`.
- Strings are assumed to be valid UTF-8. `string(bytes)` of arbitrary bytes is kept as bytes (username, password, base64 results).
- Fiber's `Ctx` plumbing is left out: the response, locals and routing.
- oauth_resp.go and model.go only declare data types and are not part of this model.
- The concrete DGA example of data_test.go:153-157 is covered by Data.DgaDigits in general, not as a literal lemma.

## Findings

| source | as written | input that shows it | evidently intended | confidence | as-written member | corrected member |
|---|---|---|---|---|---|---|
| data.go:63-69, 85-91, 97-103 | the date is checked against the calendar of the Buddhist year as written, then moved back 543 years | "2563-02-29", or the DGA form of any Feb 29, such as "25630229" for 2020-02-29: year 2563 has no Feb 29, so it is rejected | shift the era first and check the date in the Gregorian year, so that 2020-02-29 is read | not executed | Data.ExampleLeapDay, Data.DgaLeapDayLost | Data.DateStrTotimeCorrected, Data.DgaRoundTripCorrected |
| utils.go:184-193 | a payload that is not base64 calls `Error()` on the nil `err`; decoded credentials without ':' index `basicSlice[1]` out of range | the basic scheme's name followed by " !!!!", or by " dXNlcg==" (base64 of "user"): both panic | return a 401 error in both cases | not executed | Utils.ExtractAuthString, Utils.ExtractWithoutColon | Utils.ExtractAuthStringCorrected |
