/**
 * The Go string and byte-slice primitives the helpers are built from: `strings.TrimSpace`,
 * `strings.ReplaceAll`, `strings.Index`/`LastIndex`, `strings.Split`/`bytes.Split`,
 * `strings.Join`, `strings.ToLower`, the UTF-8 encoding behind `[]byte(s)`, and the decimal
 * rendering and reading of integers that `fmt` and `strconv` perform.
 *
 * A Go string is taken as a sequence of Unicode code points (a valid UTF-8 string); where Go
 * looks at the bytes of a string, the model looks at `Utf8Encode(s)`.
 */
module GoText {

  /** One byte of a Go `[]byte`. */
  newtype byte = b: int | 0 <= b < 256

  // ---------------------------------------------------------------------------------------
  // White space and trimming

  /** `unicode.IsSpace`: the code points with the Unicode White_Space property. */
  predicate IsSpace(c: char) {
    || c == '\t' || c == '\n' || c == '\U{000B}' || c == '\U{000C}' || c == '\r' || c == ' '
    || c == '\U{0085}' || c == '\U{00A0}' || c == '\U{1680}'
    || ('\U{2000}' <= c <= '\U{200A}')
    || c == '\U{2028}' || c == '\U{2029}' || c == '\U{202F}' || c == '\U{205F}' || c == '\U{3000}'
  }

  /** `strings.TrimLeftFunc(s, unicode.IsSpace)`: the suffix left after dropping leading white space. */
  function TrimLeftSpace(s: string): (r: string)
    ensures |r| <= |s| && r == s[|s| - |r|..]
    ensures forall k :: 0 <= k < |s| - |r| ==> IsSpace(s[k])
    ensures r == [] || !IsSpace(r[0])
  {
    if s != [] && IsSpace(s[0]) then TrimLeftSpace(s[1..]) else s
  }

  /** `strings.TrimRightFunc(s, unicode.IsSpace)`: the prefix left after dropping trailing white space. */
  function TrimRightSpace(s: string): (r: string)
    ensures |r| <= |s| && r == s[..|r|]
    ensures forall k :: |r| <= k < |s| ==> IsSpace(s[k])
    ensures r == [] || !IsSpace(r[|r| - 1])
  {
    if s != [] && IsSpace(s[|s| - 1]) then TrimRightSpace(s[..|s| - 1]) else s
  }

  /** Every character of `s` is white space. */
  predicate Blank(s: string) {
    forall k :: 0 <= k < |s| ==> IsSpace(s[k])
  }

  /**
   * `strings.TrimSpace`: a slice of the input with only white space before and after it, and
   * neither end of which is white space.
   */
  function TrimSpace(s: string): (r: string)
    ensures |r| <= |s|
    ensures exists i, j :: 0 <= i <= j <= |s| && r == s[i..j] && Blank(s[..i]) && Blank(s[j..])
    ensures r == [] || (!IsSpace(r[0]) && !IsSpace(r[|r| - 1]))
  {
    var left := TrimLeftSpace(s);
    var r := TrimRightSpace(left);
    BlankAround(s, |s| - |left|, left, r);
    r
  }

  /**
   * A slice `left` of `s` after white space, cut down to a prefix `r` followed by white space,
   * is the slice of `s` between two blank runs.
   */
  lemma BlankAround(s: string, i: int, left: string, r: string)
    requires 0 <= i <= |s| && left == s[i..] && |r| <= |left| && r == left[..|r|]
    requires forall k :: 0 <= k < i ==> IsSpace(s[k])
    requires forall k :: |r| <= k < |left| ==> IsSpace(left[k])
    ensures i + |r| <= |s| && r == s[i..i + |r|] && Blank(s[..i]) && Blank(s[i + |r|..])
  {
    var head, tail := s[..i], s[i + |r|..];
    forall k | 0 <= k < |head|
      ensures IsSpace(head[k])
    {
      assert head[k] == s[k];
    }
    forall k | 0 <= k < |tail|
      ensures IsSpace(tail[k])
    {
      assert tail[k] == left[|r| + k];
    }
  }

  /** White space around a string that neither starts nor ends with white space is all TrimSpace removes. */
  lemma TrimSpaceStrips(pre: string, t: string, post: string)
    requires Blank(pre) && Blank(post)
    requires t == [] || (!IsSpace(t[0]) && !IsSpace(t[|t| - 1]))
    ensures TrimSpace(pre + t + post) == t
  {
    assert pre + t + post == pre + (t + post);
    TrimLeftBlank(pre, t + post);
    if t == [] {
      assert t + post == post && post + [] == post;
      TrimLeftBlank(post, []);
    } else {
      TrimRightBlank(t, post);
    }
  }

  /** Leading white space is dropped whatever follows it. */
  lemma {:induction false} TrimLeftBlank(pre: string, u: string)
    requires Blank(pre)
    ensures TrimLeftSpace(pre + u) == TrimLeftSpace(u)
    decreases |pre|
  {
    if pre != [] {
      assert (pre + u)[0] == pre[0];
      assert (pre + u)[1..] == pre[1..] + u;
      TrimLeftBlank(pre[1..], u);
    } else {
      assert pre + u == u;
    }
  }

  /** Trailing white space is dropped whatever precedes it. */
  lemma {:induction false} TrimRightBlank(u: string, post: string)
    requires Blank(post)
    ensures TrimRightSpace(u + post) == TrimRightSpace(u)
    decreases |post|
  {
    if post != [] {
      var n := |post| - 1;
      assert (u + post)[|u + post| - 1] == post[n];
      assert (u + post)[..|u + post| - 1] == u + post[..n];
      TrimRightBlank(u, post[..n]);
    } else {
      assert u + post == u;
    }
  }

  /** A string that neither starts nor ends with white space is left as it is by TrimSpace. */
  lemma TrimSpaceKeeps(s: string)
    requires s == [] || (!IsSpace(s[0]) && !IsSpace(s[|s| - 1]))
    ensures TrimSpace(s) == s
  {
  }

  // ---------------------------------------------------------------------------------------
  // Replacing, searching, splitting and joining

  /** `strings.ReplaceAll(s, from, to)` for a one-character `from` and a one-character `to`. */
  function ReplaceAll(s: string, from: char, to: char): (r: string)
    ensures |r| == |s|
    ensures forall k :: 0 <= k < |s| ==> r[k] == (if s[k] == from then to else s[k])
  {
    if s == [] then [] else [if s[0] == from then to else s[0]] + ReplaceAll(s[1..], from, to)
  }

  /** Replacing characters works piece by piece. */
  lemma {:induction false} ReplaceAppend(a: string, b: string, from: char, to: char)
    ensures ReplaceAll(a + b, from, to) == ReplaceAll(a, from, to) + ReplaceAll(b, from, to)
    decreases |a|
  {
    if a == [] {
      assert a + b == b;
    } else {
      assert (a + b)[1..] == a[1..] + b;
      ReplaceAppend(a[1..], b, from, to);
    }
  }

  /** A string without `from` is left as it is. */
  lemma ReplaceAbsent(s: string, from: char, to: char)
    requires from !in s
    ensures ReplaceAll(s, from, to) == s
  {
    var r := ReplaceAll(s, from, to);
    assert forall k :: 0 <= k < |s| ==> r[k] == s[k];
  }

  /** `sep` occurs in `s` at position `i`. */
  predicate OccursAt<T(==)>(s: seq<T>, sep: seq<T>, i: int) {
    0 <= i && i + |sep| <= |s| && s[i..i + |sep|] == sep
  }

  /** `strings.Index` / `bytes.Index`: the first position at which `sep` occurs, or -1. */
  function Index<T(==)>(s: seq<T>, sep: seq<T>): (r: int)
    ensures r == -1 || OccursAt(s, sep, r)
    ensures forall k :: 0 <= k && (r == -1 || k < r) ==> !OccursAt(s, sep, k)
  {
    IndexFrom(s, sep, 0)
  }

  function IndexFrom<T(==)>(s: seq<T>, sep: seq<T>, i: nat): (r: int)
    ensures r == -1 || (i <= r && OccursAt(s, sep, r))
    ensures forall k :: i <= k && (r == -1 || k < r) ==> !OccursAt(s, sep, k)
    decreases |s| - i
  {
    if i + |sep| > |s| then -1
    else if OccursAt(s, sep, i) then i
    else IndexFrom(s, sep, i + 1)
  }

  /** `strings.LastIndex`: the last position at which `sep` occurs (|s| for an empty `sep`), or -1. */
  function LastIndex<T(==)>(s: seq<T>, sep: seq<T>): (r: int)
    ensures r == -1 || OccursAt(s, sep, r)
    ensures forall k :: r < k ==> !OccursAt(s, sep, k)
  {
    LastIndexUpTo(s, sep, |s| - |sep|)
  }

  function LastIndexUpTo<T(==)>(s: seq<T>, sep: seq<T>, i: int): (r: int)
    requires i <= |s| - |sep|
    ensures r == -1 || (r <= i && OccursAt(s, sep, r))
    ensures forall k :: r < k <= i ==> !OccursAt(s, sep, k)
    decreases i + 1
  {
    if i < 0 then -1
    else if OccursAt(s, sep, i) then i
    else LastIndexUpTo(s, sep, i - 1)
  }

  /** A prefix that ends before the first occurrence of `sep` holds no occurrence of it. */
  lemma NoOccurrenceBefore<T>(s: seq<T>, sep: seq<T>, i: int)
    requires |sep| > 0 && 0 <= i <= |s|
    requires forall k :: 0 <= k < i ==> !OccursAt(s, sep, k)
    ensures Index(s[..i], sep) == -1
  {
    forall k | 0 <= k && k + |sep| <= i
      ensures !OccursAt(s[..i], sep, k)
    {
      assert s[..i][k..k + |sep|] == s[k..k + |sep|];
      assert !OccursAt(s, sep, k);
    }
  }

  /**
   * `strings.Split` / `bytes.Split` with a non-empty separator: the pieces between successive
   * occurrences of `sep`; no piece contains `sep`.
   */
  function Split<T(==)>(s: seq<T>, sep: seq<T>): (r: seq<seq<T>>)
    requires |sep| > 0
    ensures |r| >= 1
    ensures forall k :: 0 <= k < |r| ==> Index(r[k], sep) == -1
    decreases |s|
  {
    var i := Index(s, sep);
    if i == -1 then [s]
    else
      NoOccurrenceBefore(s, sep, i);
      [s[..i]] + Split(s[i + |sep|..], sep)
  }

  /** `strings.Split(s, "")`: one piece per code point. */
  function Explode(s: string): (r: seq<string>)
    ensures |r| == |s|
    ensures forall k :: 0 <= k < |s| ==> r[k] == [s[k]]
  {
    seq(|s|, k requires 0 <= k < |s| => [s[k]])
  }

  /** `strings.Join`: the parts with `sep` between consecutive ones. */
  function Join<T>(parts: seq<seq<T>>, sep: seq<T>): seq<T> {
    if |parts| == 0 then []
    else if |parts| == 1 then parts[0]
    else parts[0] + sep + Join(parts[1..], sep)
  }

  /** Joining the single characters of a string with no separator gives back the string. */
  lemma {:induction false} JoinExplode(s: string)
    ensures Join(Explode(s), "") == s
    decreases |s|
  {
    if |s| > 1 {
      JoinExplode(s[1..]);
      assert Explode(s)[1..] == Explode(s[1..]);
      assert s == [s[0]] + s[1..];
    }
  }

  /** Joining the pieces of a split with the same separator gives back the original. */
  lemma {:induction false} SplitThenJoin<T>(s: seq<T>, sep: seq<T>)
    requires |sep| > 0
    ensures Join(Split(s, sep), sep) == s
    decreases |s|
  {
    var i := Index(s, sep);
    if i != -1 {
      var rest := s[i + |sep|..];
      SplitThenJoin(rest, sep);
      assert Split(s, sep) == [s[..i]] + Split(rest, sep);
      assert s == s[..i] + s[i..i + |sep|] + rest;
    }
  }

  /** The first occurrence of `sep` in `s` is also the first one in the prefix that ends with it. */
  lemma FirstInPrefix<T>(s: seq<T>, sep: seq<T>)
    requires |sep| > 0 && Index(s, sep) != -1
    ensures var i := Index(s, sep); Index(s[..i] + sep, sep) == i
  {
    var i := Index(s, sep);
    var t := s[..i + |sep|];
    assert s[..i] + sep == t;
    assert t[i..i + |sep|] == s[i..i + |sep|];
    forall k | 0 <= k < i
      ensures !OccursAt(t, sep, k)
    {
      assert !OccursAt(s, sep, k);
      if k + |sep| <= |t| {
        assert t[k..k + |sep|] == s[k..k + |sep|];
      }
    }
    assert OccursAt(t, sep, i);
  }

  /**
   * Every cut of `Split` falls at the first occurrence of `sep`: each piece but the last,
   * followed by `sep`, holds `sep` nowhere before that trailing copy. With `SplitThenJoin`
   * this fixes the pieces even for a separator that overlaps itself (",," in "a,,,b").
   */
  lemma {:induction false} SplitLeftmost<T>(s: seq<T>, sep: seq<T>)
    requires |sep| > 0
    ensures var r := Split(s, sep);
            forall k :: 0 <= k < |r| - 1 ==> Index(r[k] + sep, sep) == |r[k]|
    decreases |s|
  {
    var i := Index(s, sep);
    if i != -1 {
      var rest := s[i + |sep|..];
      SplitLeftmost(rest, sep);
      FirstInPrefix(s, sep);
      var r := Split(s, sep);
      assert r == [s[..i]] + Split(rest, sep);
      forall k | 0 <= k < |r| - 1
        ensures Index(r[k] + sep, sep) == |r[k]|
      {
        if k > 0 {
          assert r[k] == Split(rest, sep)[k - 1];
        }
      }
    }
  }

  /** A separator that overlaps itself: "a,,,b" split on ",," is "a" and ",b", as in Go. */
  lemma SplitOverlapExample()
    ensures Split("a,,,b", ",,") == ["a", ",b"]
  {
    var s, sep := "a,,,b", ",,";
    assert s[0..2][0] == 'a' != sep[0];
    assert s[1..3] == sep;
    assert Index(s, sep) == 1;
    assert s[3..] == ",b";
    assert ",b"[0..2][1] == 'b' != sep[1];
    assert Index(",b", sep) == -1;
    assert Split(s, sep) == [s[..1]] + Split(",b", sep);
    assert s[..1] == "a";
  }

  /** The single separator character placed after a part free of it is found right after that part. */
  lemma IndexAfterPart<T>(a: seq<T>, c: T, b: seq<T>)
    requires c !in a
    ensures Index(a + [c] + b, [c]) == |a|
  {
    var s := a + [c] + b;
    assert s[|a|..|a| + 1] == [c];
    assert OccursAt(s, [c], |a|);
    forall k | 0 <= k < |a|
      ensures !OccursAt(s, [c], k)
    {
      assert s[k..k + 1] == [a[k]];
    }
  }

  /** Splitting a join on a one-element separator that no part contains gives back the parts. */
  lemma {:induction false} JoinThenSplit<T>(parts: seq<seq<T>>, c: T)
    requires |parts| >= 1
    requires forall k :: 0 <= k < |parts| ==> c !in parts[k]
    ensures Split(Join(parts, [c]), [c]) == parts
    decreases |parts|
  {
    if |parts| == 1 {
      Absent(parts[0], c);
    } else {
      var tail := Join(parts[1..], [c]);
      assert Join(parts, [c]) == parts[0] + [c] + tail;
      IndexAfterPart(parts[0], c, tail);
      assert (parts[0] + [c] + tail)[..|parts[0]|] == parts[0];
      assert (parts[0] + [c] + tail)[|parts[0]| + 1..] == tail;
      JoinThenSplit(parts[1..], c);
      assert parts == [parts[0]] + parts[1..];
    }
  }

  /** A one-element separator that `Index` does not find does not occur at all. */
  lemma NotFound<T>(s: seq<T>, c: T)
    requires Index(s, [c]) == -1
    ensures c !in s
  {
    forall j | 0 <= j < |s|
      ensures s[j] != c
    {
      assert s[j..j + 1] == [s[j]];
      assert !OccursAt(s, [c], j);
    }
  }

  /** A one-element separator that does not occur is not found by `Index`. */
  lemma Absent<T>(s: seq<T>, c: T)
    requires c !in s
    ensures Index(s, [c]) == -1
  {
    forall k | 0 <= k && k + 1 <= |s|
      ensures !OccursAt(s, [c], k)
    {
      assert s[k..k + 1] == [s[k]];
    }
  }

  /** Two parts free of the separator character are exactly what splitting their join gives. */
  lemma SplitPair<T>(a: seq<T>, c: T, b: seq<T>)
    requires c !in a && c !in b
    ensures Split(a + [c] + b, [c]) == [a, b]
  {
    assert [a, b][1..] == [b];
    assert Join([a, b], [c]) == a + [c] + b;
    JoinThenSplit([a, b], c);
  }

  /**
   * When a split on one character has at least two pieces, the input is the first piece, the
   * separator, the second piece and then either nothing or the separator again.
   */
  lemma SplitFirstTwo<T>(s: seq<T>, c: T)
    requires |Split(s, [c])| >= 2
    ensures var p := Split(s, [c]);
      var n := |p[0]| + 1 + |p[1]|;
      c !in p[0] && c !in p[1] && n <= |s| &&
      s[..n] == p[0] + [c] + p[1] && (n == |s| || s[n] == c)
  {
    var p := Split(s, [c]);
    NotFound(p[0], c);
    NotFound(p[1], c);
    SplitThenJoin(s, [c]);
    var n := |p[0]| + 1 + |p[1]|;
    assert Join(p, [c]) == p[0] + [c] + Join(p[1..], [c]);
    if |p| == 2 {
      assert Join(p[1..], [c]) == p[1];
      assert s == p[0] + [c] + p[1];
    } else {
      assert p[1..][1..] == p[2..];
      assert Join(p[1..], [c]) == p[1] + [c] + Join(p[2..], [c]);
      assert s == (p[0] + [c] + p[1]) + ([c] + Join(p[2..], [c]));
    }
  }

  /** A split on one character into exactly two pieces puts the separator back between them. */
  lemma SplitTwo<T>(s: seq<T>, c: T)
    requires |Split(s, [c])| == 2
    ensures var p := Split(s, [c]); c !in p[0] && c !in p[1] && s == p[0] + [c] + p[1]
  {
    var p := Split(s, [c]);
    NotFound(p[0], c);
    NotFound(p[1], c);
    SplitThenJoin(s, [c]);
    assert p[1..] == [p[1]];
  }

  // ---------------------------------------------------------------------------------------
  // Case mapping

  /**
   * `unicode.ToLower` on the code points whose lower case is ASCII: 'A'..'Z', U+0130 (capital I
   * with dot above, lower-cased by Go to 'i') and U+212A (Kelvin sign, lower-cased to 'k').
   * Every other code point is left as it is.
   */
  function ToLowerRune(c: char): char {
    if 'A' <= c <= 'Z' then (c as int + 32) as char
    else if c == '\U{0130}' then 'i'
    else if c == '\U{212A}' then 'k'
    else c
  }

  /**
   * `strings.ToLower` as far as the helpers need it: each code point goes through `ToLowerRune`,
   * so only the code points whose lower case is ASCII are lowered. The result agrees with Go's
   * wherever it is compared with an ASCII word such as a scheme name.
   */
  function ToLower(s: string): (r: string)
    ensures |r| == |s|
    ensures forall k :: 0 <= k < |s| ==> r[k] == ToLowerRune(s[k])
  {
    if s == [] then [] else [ToLowerRune(s[0])] + ToLower(s[1..])
  }

  // ---------------------------------------------------------------------------------------
  // UTF-8: the bytes of a Go string

  /** The UTF-8 encoding of one code point; only an ASCII code point yields a byte below 128. */
  function EncodeRune(c: char): (r: seq<byte>)
    ensures 1 <= |r| <= 4
    ensures c as int < 128 <==> |r| == 1
    ensures c as int < 128 ==> r[0] as int == c as int
    ensures c as int >= 128 ==> forall k :: 0 <= k < |r| ==> r[k] >= 128
  {
    var n := c as int;
    if n < 0x80 then [n as byte]
    else if n < 0x800 then [(0xC0 + n / 64) as byte, (0x80 + n % 64) as byte]
    else if n < 0x10000 then
      [(0xE0 + n / 4096) as byte, (0x80 + n / 64 % 64) as byte, (0x80 + n % 64) as byte]
    else
      [(0xF0 + n / 262144) as byte, (0x80 + n / 4096 % 64) as byte,
       (0x80 + n / 64 % 64) as byte, (0x80 + n % 64) as byte]
  }

  /** `[]byte(s)`: the UTF-8 encoding of a string. */
  function Utf8Encode(s: string): (r: seq<byte>)
    ensures |r| >= |s|
  {
    if s == [] then [] else EncodeRune(s[0]) + Utf8Encode(s[1..])
  }

  /** Encoding distributes over concatenation. */
  lemma {:induction false} Utf8Concat(a: string, b: string)
    ensures Utf8Encode(a + b) == Utf8Encode(a) + Utf8Encode(b)
    decreases |a|
  {
    if a != [] {
      assert (a + b)[0] == a[0];
      assert (a + b)[1..] == a[1..] + b;
      Utf8Concat(a[1..], b);
      calc {
        Utf8Encode(a + b);
        EncodeRune(a[0]) + Utf8Encode(a[1..] + b);
        EncodeRune(a[0]) + (Utf8Encode(a[1..]) + Utf8Encode(b));
        (EncodeRune(a[0]) + Utf8Encode(a[1..])) + Utf8Encode(b);
      }
    } else {
      assert a + b == b;
    }
  }

  /** An ASCII string encodes to its own code points, one byte each. */
  lemma {:induction false} Utf8Ascii(s: string)
    requires forall k :: 0 <= k < |s| ==> s[k] as int < 128
    ensures |Utf8Encode(s)| == |s|
    ensures forall k :: 0 <= k < |s| ==> Utf8Encode(s)[k] as int == s[k] as int
    decreases |s|
  {
    if s != [] {
      Utf8Ascii(s[1..]);
    }
  }

  /** An ASCII byte occurs in the encoding of `s` exactly when its character occurs in `s`. */
  lemma {:induction false} Utf8AsciiByte(s: string, c: char)
    requires c as int < 128
    ensures (c as int as byte) in Utf8Encode(s) <==> c in s
    decreases |s|
  {
    if s != [] {
      Utf8AsciiByte(s[1..], c);
      var e := EncodeRune(s[0]);
      assert Utf8Encode(s) == e + Utf8Encode(s[1..]);
      assert (c as int as byte) in e <==> c == s[0];
      assert c in s <==> c == s[0] || c in s[1..];
    }
  }

  // ---------------------------------------------------------------------------------------
  // Decimal digits

  predicate IsDigit(c: char) {
    '0' <= c <= '9'
  }

  predicate AllDigits(s: string) {
    forall k :: 0 <= k < |s| ==> IsDigit(s[k])
  }

  function DigitChar(d: int): (c: char)
    requires 0 <= d < 10
    ensures IsDigit(c)
  {
    (48 + d) as char
  }

  function DigitValue(c: char): (d: int)
    requires IsDigit(c)
    ensures 0 <= d < 10 && DigitChar(d) == c
  {
    c as int - 48
  }

  function Pow10(n: nat): (p: nat)
    ensures p >= 1
  {
    if n == 0 then 1 else 10 * Pow10(n - 1)
  }

  /** The number a string of decimal digits denotes, most significant digit first. */
  function ValueOf(s: string): (n: nat)
    requires AllDigits(s)
    ensures n < Pow10(|s|)
  {
    if s == [] then 0 else ValueOf(s[..|s| - 1]) * 10 + DigitValue(s[|s| - 1])
  }

  /** Reading a concatenation of digit strings. */
  lemma {:induction false} ValueOfConcat(a: string, b: string)
    requires AllDigits(a) && AllDigits(b)
    ensures AllDigits(a + b)
    ensures ValueOf(a + b) == ValueOf(a) * Pow10(|b|) + ValueOf(b)
    decreases |b|
  {
    assert AllDigits(a + b) by {
      forall k | 0 <= k < |a + b| ensures IsDigit((a + b)[k]) {
        if k < |a| { assert (a + b)[k] == a[k]; } else { assert (a + b)[k] == b[k - |a|]; }
      }
    }
    if b == [] {
      assert a + b == a;
    } else {
      var ab := a + b;
      var b' := b[..|b| - 1];
      var last := DigitValue(b[|b| - 1]);
      assert ab[..|ab| - 1] == a + b';
      assert ab[|ab| - 1] == b[|b| - 1];
      ValueOfConcat(a, b');
      var x, y, p := ValueOf(a), ValueOf(b'), Pow10(|b'|);
      assert ValueOf(ab) == ValueOf(a + b') * 10 + last;
      assert ValueOf(a + b') == x * p + y;
      assert ValueOf(b) == y * 10 + last;
      assert Pow10(|b|) == 10 * p;
      ScaleByTen(x, p);
    }
  }

  lemma ScaleByTen(x: int, p: int)
    ensures x * (10 * p) == (x * p) * 10
  {
  }

  /** The shortest decimal rendering of a natural number (`strconv.Itoa` on non-negative values). */
  function Decimal(n: nat): (r: string)
    ensures |r| >= 1 && AllDigits(r)
    ensures ValueOf(r) == n
  {
    if n < 10 then [DigitChar(n)]
    else
      var r := Decimal(n / 10) + [DigitChar(n % 10)];
      assert r[..|r| - 1] == Decimal(n / 10);
      r
  }

  /** A number below 10^w needs at most w digits. */
  lemma {:induction false} DecimalFits(n: nat, w: nat)
    requires w >= 1 && n < Pow10(w)
    ensures |Decimal(n)| <= w
    decreases n
  {
    if n >= 10 {
      DecimalFits(n / 10, w - 1);
    }
  }

  /** `s` left-padded with `fill` to at least `w` elements, as `fmt` pads a field to its width. */
  function PadLeft<T>(s: seq<T>, w: nat, fill: T): (r: seq<T>)
    ensures |r| == if |s| >= w then |s| else w
    ensures r[|r| - |s|..] == s
    ensures forall k :: 0 <= k < |r| - |s| ==> r[k] == fill
  {
    if |s| >= w then s else seq(w - |s|, _ => fill) + s
  }

  /** `fmt.Sprintf("%0<w>d", n)`: the sign, then the digits zero-padded so that the whole is at least w wide. */
  function FormatInt(n: int, w: nat): string {
    if n < 0 then "-" + PadLeft(Decimal(-n), if w > 0 then w - 1 else 0, '0')
    else PadLeft(Decimal(n), w, '0')
  }

  /** `strconv.Itoa`. */
  function Itoa(n: int): string {
    FormatInt(n, 0)
  }

  /** `Itoa` writes no padding: a '-' for a negative number, then the magnitude's digits. */
  lemma ItoaDigits(n: int)
    ensures Itoa(n) == if n < 0 then "-" + Decimal(-n) else Decimal(n)
  {
    var d := Decimal(if n < 0 then -n else n);
    assert PadLeft(d, 0, '0') == d;
  }

  /** Zeros in front do not change the number a digit string denotes. */
  lemma {:induction false} LeadingZeros(z: string, s: string)
    requires forall k :: 0 <= k < |z| ==> z[k] == '0'
    requires AllDigits(s)
    ensures AllDigits(z + s) && ValueOf(z + s) == ValueOf(s)
    decreases |z|
  {
    ValueOfConcat(z, s);
    if z != [] {
      LeadingZeros(z[..|z| - 1], []);
      assert z[..|z| - 1] + [] == z[..|z| - 1];
    }
  }

  /** `%0<w>d` is never narrower than `w`. */
  lemma FormatIntWidth(n: int, w: nat)
    ensures |FormatInt(n, w)| >= w
  {
    if n < 0 {
      var p := PadLeft(Decimal(-n), if w > 0 then w - 1 else 0, '0');
      assert FormatInt(n, w) == "-" + p;
    } else {
      assert FormatInt(n, w) == PadLeft(Decimal(n), w, '0');
    }
  }

  /** A number below 10^w is rendered by `%0<w>d` as exactly w digits that read back as the number. */
  lemma FormatIntFixed(n: nat, w: nat)
    requires w >= 1 && n < Pow10(w)
    ensures |FormatInt(n, w)| == w && AllDigits(FormatInt(n, w))
    ensures ValueOf(FormatInt(n, w)) == n
  {
    DecimalFits(n, w);
    var d := Decimal(n);
    assert FormatInt(n, w) == PadLeft(d, w, '0');
    PaddedDigits(d, w);
  }

  /** Digits padded on the left with '0' to width w are w digits with the same value. */
  lemma PaddedDigits(d: string, w: nat)
    requires |d| <= w && AllDigits(d)
    ensures var r := PadLeft(d, w, '0'); |r| == w && AllDigits(r) && ValueOf(r) == ValueOf(d)
  {
    var r := PadLeft(d, w, '0');
    var z := r[..|r| - |d|];
    assert r == z + d;
    LeadingZeros(z, d);
  }
}
