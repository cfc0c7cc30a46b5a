/**
 * `Mail.Builder` of smtp.go: the bytes of a multipart message, written piece by piece into a
 * `bytes.Buffer`. The layout loosely follows section 5.1.1 of RFC 2046 with the fixed boundary
 * "zercle-mail-boundary"; the text part is declared quoted-printable but written verbatim, and
 * the attachment is written in standard base64 without line breaks.
 */
module Smtp {
  import opened Wrappers
  import opened GoText
  import GoBase64

  /** `Mail`. Host, port, user and password are read only by `Send`. */
  datatype Mail = Mail(
    host: string, port: int, user: string, password: string,
    from: string, to: seq<string>, cc: seq<string>, bcc: seq<string>,
    subject: string, msg: seq<byte>, attachmentName: string, attachment: seq<byte>)

  const Boundary := "zercle-mail-boundary"

  /** `bytes.Buffer`: the bytes written so far. */
  class Buffer {
    var data: seq<byte>

    constructor()
      ensures data == []
    {
      data := [];
    }

    /** `WriteString`: appends the bytes of a string. */
    method WriteString(s: string)
      modifies this
      ensures data == old(data) + Utf8Encode(s)
    {
      data := data + Utf8Encode(s);
    }

    /** `Write`: appends bytes. */
    method Write(b: seq<byte>)
      modifies this
      ensures data == old(data) + b
    {
      data := data + b;
    }
  }

  // ---------------------------------------------------------------------------------------
  // The message layout

  function FromLine(m: Mail): string {
    "From: " + m.from + "\r\n"
  }

  function ToLine(m: Mail): string {
    "To: " + Join(m.to, ";") + "\r\n"
  }

  function SubjectLine(m: Mail): string {
    "Subject: " + m.subject + "\r\n"
  }

  function CcLine(m: Mail): string {
    "Cc: " + Join(m.cc, ";") + "\r\n"
  }

  function BccLine(m: Mail): string {
    "Bcc: " + Join(m.bcc, ";") + "\r\n"
  }

  /** The Content-Type header, which ends in a bare line feed. */
  const ContentTypeLine := "Content-Type: multipart/alternative; boundary=" + Boundary + "\n"

  /** The header lines in the order they are written; Cc and Bcc only when they have addresses. */
  function HeaderLines(m: Mail): seq<string> {
    [FromLine(m), ToLine(m), SubjectLine(m)]
    + (if |m.cc| != 0 then [CcLine(m)] else [])
    + (if |m.bcc| != 0 then [BccLine(m)] else [])
    + [ContentTypeLine]
  }

  /** The delimiter that opens a body part. */
  const PartOpening := "\r\n--" + Boundary + "\r\n"

  /** The headers of the text part. */
  const TextLines := [PartOpening, "Content-Type: text/plain; charset=\"UTF-8\"\r\n",
                      "Content-Transfer-Encoding: quoted-printable\r\n"]

  /** The headers of the attachment part; the name is inserted as it stands. */
  function AttachmentLines(m: Mail): seq<string> {
    [PartOpening, "Content-Type: text/plain; charset=\"UTF-8\"\r\n",
     "Content-Transfer-Encoding: base64\r\n",
     "Content-Disposition: attachment; filename=" + m.attachmentName + "\r\n",
     "Content-ID: <" + m.attachmentName + ">\r\n\r\n"]
  }

  /** The bytes of strings written one after another. */
  function Written(lines: seq<string>): seq<byte> {
    if lines == [] then [] else Written(lines[..|lines| - 1]) + Utf8Encode(lines[|lines| - 1])
  }

  /** The close delimiter, written in two pieces. */
  function Closing(): seq<byte> {
    Utf8Encode("\r\n--" + Boundary) + Utf8Encode("--")
  }

  /** The attachment part: its headers and the standard base64 of the attachment, or nothing. */
  function AttachmentPart(m: Mail): seq<byte> {
    if |m.attachment| != 0 then Written(AttachmentLines(m)) + GoBase64.Encode(GoBase64.Std, m.attachment)
    else []
  }

  /** The text part: its headers, then a blank line and the message bytes verbatim. */
  function TextPart(m: Mail): seq<byte> {
    Written(TextLines) + (Utf8Encode("\r\n") + m.msg)
  }

  /** The whole message `Builder` returns. */
  function Message(m: Mail): seq<byte> {
    Written(HeaderLines(m)) + TextPart(m) + AttachmentPart(m) + Closing()
  }

  /** Writing one more string extends the bytes written so far. */
  lemma WrittenSnoc(lines: seq<string>, s: string)
    ensures Written(lines + [s]) == Written(lines) + Utf8Encode(s)
  {
    InitOfSnoc(lines, s);
  }

  // ---------------------------------------------------------------------------------------
  // Builder

  /** Writes the header lines in order, including Cc and Bcc only when they have addresses. */
  method WriteHeaders(m: Mail, buf: Buffer)
    modifies buf
    ensures buf.data == old(buf.data) + Written(HeaderLines(m))
  {
    ghost var start, lines: seq<string> := buf.data, [];
    AppendNothing(start, Written(lines));
    WriteLine(buf, start, lines, FromLine(m));
    lines := lines + [FromLine(m)];
    WriteLine(buf, start, lines, ToLine(m));
    lines := lines + [ToLine(m)];
    WriteLine(buf, start, lines, SubjectLine(m));
    lines := lines + [SubjectLine(m)];
    if |m.cc| != 0 {
      WriteLine(buf, start, lines, CcLine(m));
    } else {
      AppendNothing(lines, []);
    }
    lines := lines + (if |m.cc| != 0 then [CcLine(m)] else []);
    if |m.bcc| != 0 {
      WriteLine(buf, start, lines, BccLine(m));
    } else {
      AppendNothing(lines, []);
    }
    lines := lines + (if |m.bcc| != 0 then [BccLine(m)] else []);
    WriteLine(buf, start, lines, ContentTypeLine);
    lines := lines + [ContentTypeLine];
    InOrder(lines, FromLine(m), ToLine(m), SubjectLine(m),
      if |m.cc| != 0 then [CcLine(m)] else [], if |m.bcc| != 0 then [BccLine(m)] else [], ContentTypeLine);
  }

  /** The list that `WriteHeaders` builds up one line at a time. */
  lemma InOrder<T>(lines: seq<T>, f: T, t: T, s: T, cc: seq<T>, bcc: seq<T>, ct: T)
    requires lines == [] + [f] + [t] + [s] + cc + bcc + [ct]
    ensures lines == [f, t, s] + cc + bcc + [ct]
  {
    assert [] + [f] + [t] + [s] == [f, t, s];
  }

  /** `WriteString` of one more line, after the lines `lines` were written from `start`. */
  method WriteLine(buf: Buffer, ghost start: seq<byte>, ghost lines: seq<string>, s: string)
    requires buf.data == start + Written(lines)
    modifies buf
    ensures buf.data == start + Written(lines + [s])
  {
    buf.WriteString(s);
    WrittenSnoc(lines, s);
  }

  /** Writes strings one after another. */
  method WriteLines(buf: Buffer, lines: seq<string>)
    modifies buf
    ensures buf.data == old(buf.data) + Written(lines)
  {
    var i := 0;
    while i < |lines|
      invariant 0 <= i <= |lines|
      invariant buf.data == old(buf.data) + Written(lines[..i])
    {
      buf.WriteString(lines[i]);
      WrittenSnoc(lines[..i], lines[i]);
      TakeOneMore(lines, i);
      i := i + 1;
    }
    TakeAll(lines);
  }

  /** The bytes of a list of strings written after another list. */
  lemma {:induction false} WrittenAppend(a: seq<string>, b: seq<string>)
    ensures Written(a + b) == Written(a) + Written(b)
    decreases |b|
  {
    if b == [] {
      AppendNothing(a, b);
    } else {
      var ab, b', x := a + b, b[..|b| - 1], b[|b| - 1];
      WrittenAppend(a, b');
      InitOfSnoc(a + b', x);
      assert ab == (a + b') + [x];
      Regroup(Written(a), Written(b'), Utf8Encode(x));
    }
  }

  lemma Regroup<T>(p: seq<T>, q: seq<T>, r: seq<T>)
    ensures (p + q) + r == p + (q + r)
  {
  }

  /**
   * `Mail.Builder`: the header lines, the text part with the message bytes verbatim, the
   * attachment part when there is an attachment (encoded into a buffer of exactly
   * `EncodedLen` bytes), and the close delimiter. `m` is a value and is not changed.
   */
  method Builder(m: Mail) returns (body: seq<byte>)
    ensures body == Message(m)
  {
    var buf := new Buffer();
    WriteHeaders(m, buf);
    ghost var headers := buf.data;
    WriteTextPart(m, buf);
    ghost var text := buf.data;
    WriteAttachment(m, buf);
    ghost var parts := buf.data;
    WriteClosing(buf);
    body := buf.data;
    Stacked(body, parts, text, headers, Written(HeaderLines(m)), TextPart(m), AttachmentPart(m), Closing());
  }

  /** Four pieces appended one after another to an empty buffer, through its successive contents. */
  lemma Stacked<T>(body: seq<T>, parts: seq<T>, text: seq<T>, headers: seq<T>, h: seq<T>, t: seq<T>, a: seq<T>, c: seq<T>)
    requires headers == [] + h && text == headers + t && parts == text + a && body == parts + c
    ensures body == h + t + a + c
  {
    assert [] + h == h;
  }

  // Facts about sequences of any element type, stated once so that proofs about lists of lines
  // never compare the lines themselves.

  lemma AppendNothing<T>(s: seq<T>, e: seq<T>)
    requires e == []
    ensures s == s + e
  {
  }

  lemma InitOfSnoc<T>(s: seq<T>, x: T)
    ensures (s + [x])[..|s|] == s && (s + [x])[|s|] == x
  {
  }

  lemma TakeOneMore<T>(s: seq<T>, i: nat)
    requires i < |s|
    ensures s[..i + 1] == s[..i] + [s[i]]
  {
  }

  lemma TakeAll<T>(s: seq<T>)
    ensures s[..|s|] == s
  {
  }

  /** The text part: the part opening and headers, then the message bytes after a blank line. */
  method WriteTextPart(m: Mail, buf: Buffer)
    modifies buf
    ensures buf.data == old(buf.data) + TextPart(m)
  {
    WriteLines(buf, TextLines);
    buf.Write(Utf8Encode("\r\n") + m.msg);
    Regroup(old(buf.data), Written(TextLines), Utf8Encode("\r\n") + m.msg);
  }

  /** The close delimiter, written as the delimiter line and then "--". */
  method WriteClosing(buf: Buffer)
    modifies buf
    ensures buf.data == old(buf.data) + Closing()
  {
    buf.WriteString("\r\n--" + Boundary);
    buf.WriteString("--");
    Regroup(old(buf.data), Utf8Encode("\r\n--" + Boundary), Utf8Encode("--"));
  }

  /** The attachment part, written only when there is an attachment. */
  method WriteAttachment(m: Mail, buf: Buffer)
    modifies buf
    ensures buf.data == old(buf.data) + AttachmentPart(m)
  {
    if |m.attachment| != 0 {
      WriteAttachmentPart(m, buf);
    } else {
      AppendNothing(buf.data, AttachmentPart(m));
    }
  }

  /** The attachment part: its header lines, then the standard base64 encoded into a fresh buffer. */
  method WriteAttachmentPart(m: Mail, buf: Buffer)
    requires |m.attachment| != 0
    modifies buf
    ensures buf.data == old(buf.data) + AttachmentPart(m)
  {
    WriteLines(buf, AttachmentLines(m));
    var attachmentByte := new byte[GoBase64.EncodedLen(|m.attachment|)];
    GoBase64.EncodeInto(GoBase64.Std, attachmentByte, m.attachment);
    assert attachmentByte[..] == attachmentByte[..GoBase64.EncodedLen(|m.attachment|)];
    buf.Write(attachmentByte[..]);
  }

  // ---------------------------------------------------------------------------------------
  // Properties of the layout

  /** The message opens with the From, To and Subject lines, in that order. */
  lemma OpensWithHeaders(m: Mail)
    ensures var p := Written([FromLine(m), ToLine(m), SubjectLine(m)]); |p| <= |Message(m)| && Message(m)[..|p|] == p
  {
    var first, rest := [FromLine(m), ToLine(m), SubjectLine(m)], HeaderLines(m)[3..];
    assert HeaderLines(m) == first + rest;
    WrittenAppend(first, rest);
    LeadingPart(Message(m), Written(first), Written(rest), TextPart(m), AttachmentPart(m), Closing());
  }

  /** The first of several concatenated pieces is a prefix of the whole. */
  lemma LeadingPart<T>(s: seq<T>, f: seq<T>, a: seq<T>, b: seq<T>, c: seq<T>, d: seq<T>)
    requires s == (f + a) + b + c + d
    ensures |f| <= |s| && s[..|f|] == f
  {
    assert forall k :: 0 <= k < |f| ==> s[k] == f[k];
  }

  /** The message always ends with the close delimiter "\r\n--zercle-mail-boundary--". */
  lemma EndsWithClosing(m: Mail)
    ensures |Closing()| <= |Message(m)|
    ensures Message(m)[|Message(m)| - |Closing()|..] == Utf8Encode("\r\n--zercle-mail-boundary--")
  {
    Utf8Concat("\r\n--" + Boundary, "--");
    assert ("\r\n--" + Boundary) + "--" == "\r\n--zercle-mail-boundary--";
  }

  /** A Cc line is written exactly when there are Cc addresses, and likewise for Bcc. */
  lemma CopyLines(m: Mail)
    ensures CcLine(m) in HeaderLines(m) <==> |m.cc| != 0
    ensures BccLine(m) in HeaderLines(m) <==> |m.bcc| != 0
  {
    var cc, bcc := CcLine(m), BccLine(m);
    assert cc[0] == 'C' && cc[1] == 'c';
    assert bcc[0] == 'B';
    assert FromLine(m)[0] == 'F' && ToLine(m)[0] == 'T' && SubjectLine(m)[0] == 'S';
    assert cc[|cc| - 2] == bcc[|bcc| - 2] == '\r';
    assert ContentTypeLine[|ContentTypeLine| - 2] != '\r';
  }

  /**
   * Every header line ends in "\r\n" except the last, the Content-Type line, which ends in a
   * line feed without a carriage return.
   */
  lemma HeaderLineEnds(m: Mail)
    ensures forall k :: 0 <= k < |HeaderLines(m)| - 1 ==>
              var l := HeaderLines(m)[k]; |l| >= 2 && l[|l| - 2..] == "\r\n"
    ensures var l := HeaderLines(m)[|HeaderLines(m)| - 1];
            l == ContentTypeLine && l[|l| - 1] == '\n' && l[|l| - 2] != '\r'
  {
  }

  /**
   * The attachment can be read back: the standard base64 just before the close delimiter
   * decodes to it. Without an attachment the message bytes come right before the delimiter.
   */
  lemma AttachmentRecoverable(m: Mail)
    requires |m.attachment| != 0
    ensures var n, e := |Message(m)| - |Closing()|, GoBase64.EncodedLen(|m.attachment|);
            e <= n && GoBase64.Decode(GoBase64.Std, Message(m)[n - e..n]) == Ok(m.attachment)
  {
    var enc := GoBase64.Encode(GoBase64.Std, m.attachment);
    var h, t, l, c := Written(HeaderLines(m)), TextPart(m), Written(AttachmentLines(m)), Closing();
    Regroup(h + t, l, enc);
    EncodingBeforeLast(Message(m), h + t + l, m.attachment, c);
  }

  /** Standard base64 of `data` placed just before `c` decodes back to `data`. */
  lemma EncodingBeforeLast(s: seq<byte>, pre: seq<byte>, data: seq<byte>, c: seq<byte>)
    requires s == pre + GoBase64.Encode(GoBase64.Std, data) + c
    ensures var n, e := |s| - |c|, GoBase64.EncodedLen(|data|);
            e <= n && GoBase64.Decode(GoBase64.Std, s[n - e..n]) == Ok(data)
  {
    var enc := GoBase64.Encode(GoBase64.Std, data);
    assert s[|s| - |c| - |enc|..|s| - |c|] == enc;
    GoBase64.RoundTrip(GoBase64.Std, data);
  }

  /** Without an attachment the message bytes come right before the close delimiter. */
  lemma MessageRecoverable(m: Mail)
    requires |m.attachment| == 0
    ensures var n := |Message(m)| - |Closing()|;
            |m.msg| <= n && Message(m)[n - |m.msg|..n] == m.msg
  {
    MessageLast(Message(m), Written(HeaderLines(m)), Written(TextLines), Utf8Encode("\r\n"), m.msg, AttachmentPart(m), Closing());
  }

  /** With nothing attached, the message bytes `b` sit right before the close delimiter `c`. */
  lemma MessageLast<T>(s: seq<T>, h: seq<T>, t: seq<T>, u: seq<T>, b: seq<T>, a: seq<T>, c: seq<T>)
    requires a == [] && s == h + (t + (u + b)) + a + c
    ensures |b| + |c| <= |s| && s[|s| - |c| - |b|..|s| - |c|] == b
  {
    assert forall k :: 0 <= k < |b| ==> s[|s| - |c| - |b| + k] == b[k];
  }
}
