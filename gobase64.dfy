/**
 * Go's `encoding/base64` for the two padded encodings the helpers use: `StdEncoding`
 * (section 4 of RFC 4648) and `URLEncoding` (section 5 of RFC 4648). The decoder follows the
 * library's quantum-by-quantum reading: line breaks are skipped anywhere, padding may close only
 * the last quantum, and any other byte is reported at its offset as a `CorruptInputError`.
 * Trailing bits are not checked (the encodings are not in strict mode).
 */
module GoBase64 {
  import opened Wrappers
  import opened GoText

  /** The standard alphabet ('+', '/') or the URL- and filename-safe one ('-', '_'). */
  datatype Alphabet = Std | Url

  /** A six-bit value, the payload of one base64 symbol. */
  type Sextet = v: int | 0 <= v < 64

  /** '=' */
  const Pad: byte := 61

  /** The symbol for a six-bit value. */
  function Symbol(a: Alphabet, v: Sextet): byte {
    if v < 26 then (65 + v) as byte
    else if v < 52 then (97 + v - 26) as byte
    else if v < 62 then (48 + v - 52) as byte
    else if v == 62 then (if a == Std then 43 else 45) as byte
    else (if a == Std then 47 else 95) as byte
  }

  /** The decoding map: the value of a symbol of the alphabet, or None for any other byte. */
  function SymbolValue(a: Alphabet, b: byte): (r: Option<Sextet>)
    ensures r.Some? ==> Symbol(a, r.value) == b
    ensures r.None? ==> forall v: Sextet :: Symbol(a, v) != b
  {
    if 65 <= b <= 90 then Some(b as int - 65)
    else if 97 <= b <= 122 then Some(b as int - 97 + 26)
    else if 48 <= b <= 57 then Some(b as int - 48 + 52)
    else if b == (if a == Std then 43 else 45) then Some(62)
    else if b == (if a == Std then 47 else 95) then Some(63)
    else None
  }

  /** Every value's symbol decodes back to the value; no symbol is the padding byte. */
  lemma SymbolRoundTrip(a: Alphabet, v: Sextet)
    ensures SymbolValue(a, Symbol(a, v)) == Some(v)
    ensures Symbol(a, v) != Pad
  {
  }

  // ---------------------------------------------------------------------------------------
  // Encoding

  /** `Encoding.EncodedLen` of a padded encoding. */
  function EncodedLen(n: nat): nat {
    (n + 2) / 3 * 4
  }

  /** The four symbols for one group of three bytes (the bytes read as a 24-bit big-endian value). */
  function EncodeGroup(a: Alphabet, b0: byte, b1: byte, b2: byte): seq<byte> {
    [Symbol(a, b0 as int / 4),
     Symbol(a, (b0 as int % 4) * 16 + b1 as int / 16),
     Symbol(a, (b1 as int % 16) * 4 + b2 as int / 64),
     Symbol(a, b2 as int % 64)]
  }

  /**
   * `Encoding.EncodeToString`: groups of three bytes become four symbols; a last group of one
   * or two bytes becomes two or three symbols and is padded with '=' to four.
   */
  function Encode(a: Alphabet, src: seq<byte>): (r: seq<byte>)
    ensures |r| == EncodedLen(|src|)
  {
    if |src| >= 3 then EncodeGroup(a, src[0], src[1], src[2]) + Encode(a, src[3..])
    else if |src| == 2 then
      [Symbol(a, src[0] as int / 4), Symbol(a, (src[0] as int % 4) * 16 + src[1] as int / 16),
       Symbol(a, (src[1] as int % 16) * 4), Pad]
    else if |src| == 1 then
      [Symbol(a, src[0] as int / 4), Symbol(a, (src[0] as int % 4) * 16), Pad, Pad]
    else []
  }

  /** Encoding a whole number of groups and then the rest is encoding the concatenation. */
  lemma {:induction false} EncodeAppend(a: Alphabet, p: seq<byte>, q: seq<byte>)
    requires |p| % 3 == 0
    ensures Encode(a, p + q) == Encode(a, p) + Encode(a, q)
    decreases |p|
  {
    if p == [] {
      assert p + q == q;
    } else {
      var pq := p + q;
      assert pq[0] == p[0] && pq[1] == p[1] && pq[2] == p[2];
      assert pq[3..] == p[3..] + q;
      EncodeAppend(a, p[3..], q);
    }
  }

  /** The encoding from symbol 4k on is the encoding of the input from byte 3k on. */
  lemma {:induction false} EncodeSuffix(a: Alphabet, src: seq<byte>, k: nat)
    requires 3 * k <= |src|
    ensures 4 * k <= |Encode(a, src)|
    ensures Encode(a, src)[4 * k..] == Encode(a, src[3 * k..])
    decreases k
  {
    if k > 0 {
      EncodeSuffix(a, src[3..], k - 1);
      assert src[3..][3 * (k - 1)..] == src[3 * k..];
    }
  }

  /** One more group: the encoding of the first `si + 3` bytes extends that of the first `si`. */
  lemma EncodeStep(a: Alphabet, src: seq<byte>, si: nat)
    requires si + 3 <= |src| && si % 3 == 0
    ensures Encode(a, src[..si + 3]) == Encode(a, src[..si]) + EncodeGroup(a, src[si], src[si + 1], src[si + 2])
  {
    EncodeAppend(a, src[..si], src[si..si + 3]);
    assert src[..si + 3] == src[..si] + src[si..si + 3];
  }

  /**
   * The first `g` whole groups of an `n`-byte input take `4 * g` symbols of its encoding; when
   * fewer than three bytes remain after them, at most one more quantum follows.
   */
  lemma GroupsFit(n: nat, g: nat)
    requires 3 * g <= n
    ensures (3 * g) % 3 == 0 && 4 * g <= EncodedLen(n)
    ensures n < 3 * g + 3 ==> EncodedLen(n) == if n == 3 * g then 4 * g else 4 * g + 4
  {
  }

  /** Writes four symbols at `di` and nothing else. */
  method PutQuantum(dst: array<byte>, di: nat, q: seq<byte>)
    requires di + 4 <= dst.Length && |q| == 4
    modifies dst
    ensures dst[..di + 4] == old(dst[..di]) + q
    ensures dst[di + 4..] == old(dst[di + 4..])
  {
    dst[di], dst[di + 1], dst[di + 2], dst[di + 3] := q[0], q[1], q[2], q[3];
  }

  /**
   * `Encoding.Encode(dst, src)`: fills the first `EncodedLen(len(src))` bytes of `dst`, group by
   * group, and leaves the rest of `dst` alone.
   */
  method EncodeInto(a: Alphabet, dst: array<byte>, src: seq<byte>)
    requires dst.Length >= EncodedLen(|src|)
    modifies dst
    ensures dst[..EncodedLen(|src|)] == Encode(a, src)
    ensures dst[EncodedLen(|src|)..] == old(dst[EncodedLen(|src|)..])
  {
    ghost var len := EncodedLen(|src|);
    ghost var rest := dst[len..];
    var di, si := 0, 0;
    ghost var g := 0;
    while si + 3 <= |src|
      invariant si == 3 * g && di == 4 * g && si <= |src|
      invariant dst[..di] == Encode(a, src[..si])
      invariant dst[len..] == rest
    {
      GroupsFit(|src|, g);
      GroupsFit(|src|, g + 1);
      EncodeGroupAt(a, dst, src, si, di, len, rest);
      si, di, g := si + 3, di + 4, g + 1;
    }
    GroupsFit(|src|, g);
    EncodeTail(a, dst, src, si, di, len, rest);
  }

  /** One pass of the loop: the group at `si` becomes the quantum at `di`. */
  method EncodeGroupAt(a: Alphabet, dst: array<byte>, src: seq<byte>, si: nat, di: nat,
                       ghost len: nat, ghost rest: seq<byte>)
    requires si + 3 <= |src| && si % 3 == 0 && di + 4 <= len <= dst.Length
    requires dst[..di] == Encode(a, src[..si]) && dst[len..] == rest
    modifies dst
    ensures dst[..di + 4] == Encode(a, src[..si + 3]) && dst[len..] == rest
  {
    EncodeStep(a, src, si);
    PutQuantum(dst, di, EncodeGroup(a, src[si], src[si + 1], src[si + 2]));
    assert dst[len..] == dst[di + 4..][len - (di + 4)..];
  }

  /** After the whole groups: the one to three bytes left, if any, become the last quantum. */
  method EncodeTail(a: Alphabet, dst: array<byte>, src: seq<byte>, si: nat, di: nat,
                    ghost len: nat, ghost rest: seq<byte>)
    requires si <= |src| < si + 3 && si % 3 == 0 && len <= dst.Length
    requires len == if si == |src| then di else di + 4
    requires dst[..di] == Encode(a, src[..si]) && dst[len..] == rest
    modifies dst
    ensures dst[..len] == Encode(a, src) && dst[len..] == rest
  {
    EncodeAppend(a, src[..si], src[si..]);
    assert src == src[..si] + src[si..];
    if si < |src| {
      PutQuantum(dst, di, Encode(a, src[si..]));
    }
  }

  /** Every byte of an encoding, padding included, is printable ASCII from '+' to 'z'. */
  lemma {:induction false} EncodePrintable(a: Alphabet, src: seq<byte>)
    ensures forall k :: 0 <= k < |Encode(a, src)| ==> 43 <= Encode(a, src)[k] <= 122
    decreases |src|
  {
    forall v: Sextet ensures 43 <= Symbol(a, v) <= 122 {
    }
    if |src| >= 3 {
      EncodePrintable(a, src[3..]);
      var g := EncodeGroup(a, src[0], src[1], src[2]);
      assert Encode(a, src) == g + Encode(a, src[3..]);
    }
  }

  /** `Encoding.EncodeToString`: the encoding as a Go string, one ASCII character per byte. */
  function EncodeToString(a: Alphabet, src: seq<byte>): (r: string)
    ensures |r| == EncodedLen(|src|)
    ensures forall k :: 0 <= k < |r| ==> r[k] as int == Encode(a, src)[k] as int
    ensures ' ' !in r
  {
    var e := Encode(a, src);
    EncodePrintable(a, src);
    seq(|e|, k requires 0 <= k < |e| => e[k] as int as char)
  }

  /** The bytes of the encoded string are the encoding itself. */
  lemma EncodeToStringBytes(a: Alphabet, src: seq<byte>)
    ensures Utf8Encode(EncodeToString(a, src)) == Encode(a, src)
  {
    var r := EncodeToString(a, src);
    EncodePrintable(a, src);
    Utf8Ascii(r);
  }

  // ---------------------------------------------------------------------------------------
  // Decoding

  predicate IsLineBreak(b: byte) {
    b == 10 || b == 13
  }

  /** A byte that a successful decoding may contain: a symbol, the padding, or a line break. */
  predicate Allowed(a: Alphabet, b: byte) {
    SymbolValue(a, b).Some? || b == Pad || IsLineBreak(b)
  }

  /** The first position at or after `i` that is not a line break. */
  function SkipLineBreaks(src: seq<byte>, i: nat): (k: nat)
    requires i <= |src|
    ensures i <= k <= |src| && (k == |src| || !IsLineBreak(src[k]))
    ensures forall j :: i <= j < k ==> IsLineBreak(src[j])
    decreases |src| - i
  {
    if i < |src| && IsLineBreak(src[i]) then SkipLineBreaks(src, i + 1) else i
  }

  /** How the reading of one quantum (up to four symbols) ends. */
  datatype Quantum =
    | Exhausted                             // nothing but line breaks was left
    | Full(next: nat, vals: seq<Sextet>)    // four symbols read; decoding goes on at `next`
    | Final(vals: seq<Sextet>)              // two or three symbols closed by padding at the end
    | Corrupt(offset: nat)                  // `CorruptInputError(offset)`

  /** After the padding of the last quantum only line breaks may follow. */
  function Closing(a: Alphabet, src: seq<byte>, i: nat, vals: seq<Sextet>): (q: Quantum)
    requires i <= |src| && 2 <= |vals| <= 3
    ensures q.Final? ==> q.vals == vals && forall k :: i <= k < |src| ==> Allowed(a, src[k])
    ensures q.Corrupt? || q.Final?
  {
    var m := SkipLineBreaks(src, i);
    if m < |src| then Corrupt(m) else Final(vals)
  }

  /**
   * Go's `decodeQuantum` from position `si`, with the symbols of the current quantum read so
   * far in `vals`.
   */
  function ReadQuantum(a: Alphabet, src: seq<byte>, si: nat, vals: seq<Sextet>): (q: Quantum)
    requires si <= |src| && |vals| < 4 && |vals| <= si
    ensures q.Full? ==> si < q.next <= |src| && |q.vals| == 4
    ensures q.Full? ==> forall k :: si <= k < q.next ==> Allowed(a, src[k])
    ensures q.Final? ==> 2 <= |q.vals| <= 3
    ensures q.Final? || q.Exhausted? ==> forall k :: si <= k < |src| ==> Allowed(a, src[k])
    decreases |src| - si
  {
    var j := |vals|;
    if si == |src| then
      if j == 0 then Exhausted else Corrupt(si - j)
    else
      var c := src[si];
      match SymbolValue(a, c)
      case Some(v) =>
        if j == 3 then Full(si + 1, vals + [v]) else ReadQuantum(a, src, si + 1, vals + [v])
      case None =>
        if IsLineBreak(c) then ReadQuantum(a, src, si + 1, vals)
        else if c != Pad || j < 2 then Corrupt(si)
        else if j == 2 then
          var k := SkipLineBreaks(src, si + 1);
          if k == |src| then Corrupt(|src|)
          else if src[k] != Pad then Corrupt(k - 1)
          else Closing(a, src, k + 1, vals)
        else Closing(a, src, si + 1, vals)
  }

  /** The bytes of a quantum of two, three or four symbols: one, two or three bytes. */
  function QuantumBytes(vals: seq<Sextet>): (r: seq<byte>)
    requires 2 <= |vals| <= 4
    ensures |r| == |vals| - 1
  {
    var s0: int, s1: int := vals[0], vals[1];
    var s2: int := if |vals| > 2 then vals[2] else 0;
    var s3: int := if |vals| > 3 then vals[3] else 0;
    var b0 := (s0 * 4 + s1 / 16) as byte;
    var b1 := ((s1 % 16) * 16 + s2 / 4) as byte;
    var b2 := ((s2 % 4) * 64 + s3) as byte;
    [b0, b1, b2][..|vals| - 1]
  }

  /** Go's `Encoding.Decode` loop from position `si`: quantum after quantum until the input ends. */
  function DecodeFrom(a: Alphabet, src: seq<byte>, si: nat): (r: Result<seq<byte>, nat>)
    requires si <= |src|
    ensures r.Ok? ==> forall k :: si <= k < |src| ==> Allowed(a, src[k])
    decreases |src| - si
  {
    if si == |src| then Ok([])
    else
      match ReadQuantum(a, src, si, [])
      case Exhausted => Ok([])
      case Corrupt(o) => Err(o)
      case Final(vals) => Ok(QuantumBytes(vals))
      case Full(next, vals) =>
        match DecodeFrom(a, src, next)
        case Ok(rest) => Ok(QuantumBytes(vals) + rest)
        case Err(o) => Err(o)
  }

  /**
   * `Encoding.DecodeString`: the decoded bytes, or the offset of the `CorruptInputError`.
   * A successful decoding never contains a byte other than symbols, '=' and line breaks.
   */
  function Decode(a: Alphabet, src: seq<byte>): (r: Result<seq<byte>, nat>)
    ensures r.Ok? ==> forall k :: 0 <= k < |src| ==> Allowed(a, src[k])
  {
    DecodeFrom(a, src, 0)
  }

  /** `Encoding.DecodeString`: the bytes of a Go string decoded. */
  function DecodeString(a: Alphabet, s: string): (r: Result<seq<byte>, nat>)
    ensures r.Ok? ==> forall k :: 0 <= k < |Utf8Encode(s)| ==> Allowed(a, Utf8Encode(s)[k])
  {
    Decode(a, Utf8Encode(s))
  }

  /** `CorruptInputError.Error()`. */
  function CorruptInputMessage(offset: nat): string {
    "illegal base64 data at input byte " + Itoa(offset)
  }

  // ---------------------------------------------------------------------------------------
  // Decoding what was encoded

  /** A full group survives the trip through its four symbols. */
  lemma GroupBytes(b0: byte, b1: byte, b2: byte)
    ensures QuantumBytes([b0 as int / 4, (b0 as int % 4) * 16 + b1 as int / 16,
                          (b1 as int % 16) * 4 + b2 as int / 64, b2 as int % 64]) == [b0, b1, b2]
  {
  }

  /** Two trailing bytes survive the trip through their three symbols. */
  lemma PairBytes(b0: byte, b1: byte)
    ensures QuantumBytes([b0 as int / 4, (b0 as int % 4) * 16 + b1 as int / 16,
                          (b1 as int % 16) * 4]) == [b0, b1]
  {
  }

  /** One trailing byte survives the trip through its two symbols. */
  lemma SingleByte(b0: byte)
    ensures QuantumBytes([b0 as int / 4, (b0 as int % 4) * 16]) == [b0]
  {
  }

  /** Four symbols in a row are read as one full quantum. */
  lemma ReadFourSymbols(a: Alphabet, src: seq<byte>, si: nat, v0: Sextet, v1: Sextet, v2: Sextet, v3: Sextet)
    requires si + 4 <= |src|
    requires src[si..si + 4] == [Symbol(a, v0), Symbol(a, v1), Symbol(a, v2), Symbol(a, v3)]
    ensures ReadQuantum(a, src, si, []) == Full(si + 4, [v0, v1, v2, v3])
  {
    var q := src[si..si + 4];
    assert q[0] == src[si] && q[1] == src[si + 1] && q[2] == src[si + 2] && q[3] == src[si + 3];
    assert src[si] == Symbol(a, v0) && src[si + 1] == Symbol(a, v1);
    assert src[si + 2] == Symbol(a, v2) && src[si + 3] == Symbol(a, v3);
    SymbolRoundTrip(a, v0);
    SymbolRoundTrip(a, v1);
    SymbolRoundTrip(a, v2);
    SymbolRoundTrip(a, v3);
    assert [] + [v0] == [v0] && [v0] + [v1] == [v0, v1] && [v0, v1] + [v2] == [v0, v1, v2];
    assert [v0, v1, v2] + [v3] == [v0, v1, v2, v3];
    assert ReadQuantum(a, src, si + 3, [v0, v1, v2]) == Full(si + 4, [v0, v1, v2, v3]);
    assert ReadQuantum(a, src, si + 2, [v0, v1]) == Full(si + 4, [v0, v1, v2, v3]);
    assert ReadQuantum(a, src, si + 1, [v0]) == Full(si + 4, [v0, v1, v2, v3]);
  }

  /** Three symbols and one '=' at the very end are read as the final quantum. */
  lemma ReadThreeSymbols(a: Alphabet, src: seq<byte>, si: nat, v0: Sextet, v1: Sextet, v2: Sextet)
    requires si + 4 == |src|
    requires src[si..] == [Symbol(a, v0), Symbol(a, v1), Symbol(a, v2), Pad]
    ensures ReadQuantum(a, src, si, []) == Final([v0, v1, v2])
  {
    assert src[si] == Symbol(a, v0) && src[si + 1] == Symbol(a, v1);
    assert src[si + 2] == Symbol(a, v2) && src[si + 3] == Pad;
    SymbolRoundTrip(a, v0);
    SymbolRoundTrip(a, v1);
    SymbolRoundTrip(a, v2);
    assert [] + [v0] == [v0] && [v0] + [v1] == [v0, v1] && [v0, v1] + [v2] == [v0, v1, v2];
    assert ReadQuantum(a, src, si + 3, [v0, v1, v2]) == Final([v0, v1, v2]);
    assert ReadQuantum(a, src, si + 2, [v0, v1]) == Final([v0, v1, v2]);
    assert ReadQuantum(a, src, si + 1, [v0]) == Final([v0, v1, v2]);
  }

  /** Two symbols and "==" at the very end are read as the final quantum. */
  lemma ReadTwoSymbols(a: Alphabet, src: seq<byte>, si: nat, v0: Sextet, v1: Sextet)
    requires si + 4 == |src|
    requires src[si..] == [Symbol(a, v0), Symbol(a, v1), Pad, Pad]
    ensures ReadQuantum(a, src, si, []) == Final([v0, v1])
  {
    assert src[si] == Symbol(a, v0) && src[si + 1] == Symbol(a, v1);
    assert src[si + 2] == Pad && src[si + 3] == Pad;
    SymbolRoundTrip(a, v0);
    SymbolRoundTrip(a, v1);
    assert SkipLineBreaks(src, si + 3) == si + 3;
    assert [] + [v0] == [v0] && [v0] + [v1] == [v0, v1];
    assert ReadQuantum(a, src, si + 2, [v0, v1]) == Final([v0, v1]);
    assert ReadQuantum(a, src, si + 1, [v0]) == Final([v0, v1]);
  }

  /** Decoding the encoding from quantum k on gives back the input from group k on. */
  lemma {:induction false} DecodeEncodedFrom(a: Alphabet, data: seq<byte>, k: nat)
    requires 3 * k <= |data|
    ensures 4 * k <= |Encode(a, data)|
    ensures DecodeFrom(a, Encode(a, data), 4 * k) == Ok(data[3 * k..])
    decreases |data| - 3 * k
  {
    var src := Encode(a, data);
    var rest := data[3 * k..];
    var si := 4 * k;
    EncodeSuffix(a, data, k);
    assert src[si..] == Encode(a, rest);
    if |rest| == 0 {
      assert |src| == si;
    } else if |rest| >= 3 {
      DecodeFullGroup(a, data, k);
    } else if |rest| == 2 {
      var b0, b1 := rest[0], rest[1];
      ReadThreeSymbols(a, src, si, b0 as int / 4, (b0 as int % 4) * 16 + b1 as int / 16,
                       (b1 as int % 16) * 4);
      PairBytes(b0, b1);
      assert rest == [b0, b1];
    } else {
      var b0 := rest[0];
      ReadTwoSymbols(a, src, si, b0 as int / 4, (b0 as int % 4) * 16);
      SingleByte(b0);
      assert rest == [b0];
    }
  }

  /** The inductive step of `DecodeEncodedFrom`: a full group followed by the rest. */
  lemma {:induction false} DecodeFullGroup(a: Alphabet, data: seq<byte>, k: nat)
    requires 3 * k + 3 <= |data|
    ensures 4 * k <= |Encode(a, data)|
    ensures DecodeFrom(a, Encode(a, data), 4 * k) == Ok(data[3 * k..])
    decreases |data| - 3 * k, 0
  {
    var src := Encode(a, data);
    var rest := data[3 * k..];
    var si := 4 * k;
    var q := ReadQuantum(a, src, si, []);
    ReadGroupQuantum(a, data, k);
    DecodeEncodedFrom(a, data, k + 1);
    assert data[3 * (k + 1)..] == rest[3..];
    assert DecodeFrom(a, src, si) == Ok(QuantumBytes(q.vals) + rest[3..]);
    assert data[3 * k..3 * k + 3] == rest[..3];
    assert rest == rest[..3] + rest[3..];
  }

  /** The quantum at symbol 4k of an encoding is read whole and gives back group k of the input. */
  lemma ReadGroupQuantum(a: Alphabet, data: seq<byte>, k: nat)
    requires 3 * k + 3 <= |data|
    ensures 4 * k + 4 <= |Encode(a, data)|
    ensures var q := ReadQuantum(a, Encode(a, data), 4 * k, []);
      q.Full? && q.next == 4 * k + 4 && |q.vals| == 4 && QuantumBytes(q.vals) == data[3 * k..3 * k + 3]
  {
    var src := Encode(a, data);
    var rest := data[3 * k..];
    var si := 4 * k;
    EncodeSuffix(a, data, k);
    var b0, b1, b2 := rest[0], rest[1], rest[2];
    assert src[si..] == EncodeGroup(a, b0, b1, b2) + Encode(a, rest[3..]);
    assert src[si..si + 4] == EncodeGroup(a, b0, b1, b2);
    var vals: seq<Sextet> := [b0 as int / 4, (b0 as int % 4) * 16 + b1 as int / 16,
                              (b1 as int % 16) * 4 + b2 as int / 64, b2 as int % 64];
    ReadFourSymbols(a, src, si, vals[0], vals[1], vals[2], vals[3]);
    assert [vals[0], vals[1], vals[2], vals[3]] == vals;
    GroupBytes(b0, b1, b2);
    assert data[3 * k..3 * k + 3] == [b0, b1, b2];
  }

  /** Decoding with an alphabet what was encoded with the same alphabet gives back the bytes. */
  lemma RoundTrip(a: Alphabet, data: seq<byte>)
    ensures Decode(a, Encode(a, data)) == Ok(data)
  {
    DecodeEncodedFrom(a, data, 0);
  }

  /** The two encodings differ only where the standard one writes '+' or '/'. */
  lemma {:induction false} AlphabetsAgree(data: seq<byte>)
    ensures forall k :: 0 <= k < |Encode(Std, data)| && Encode(Std, data)[k] != 43 && Encode(Std, data)[k] != 47 ==>
              Encode(Std, data)[k] == Encode(Url, data)[k]
    decreases |data|
  {
    forall v: Sextet | Symbol(Std, v) != 43 && Symbol(Std, v) != 47
      ensures Symbol(Std, v) == Symbol(Url, v)
    {
    }
    if |data| >= 3 {
      AlphabetsAgree(data[3..]);
      assert Encode(Std, data) == EncodeGroup(Std, data[0], data[1], data[2]) + Encode(Std, data[3..]);
      assert Encode(Url, data) == EncodeGroup(Url, data[0], data[1], data[2]) + Encode(Url, data[3..]);
    }
  }

  /**
   * A standard encoding that the URL-safe decoder accepts holds neither '+' nor '/', so it is
   * also the URL-safe encoding of the same bytes and decodes to them.
   */
  lemma StdReadAsUrl(data: seq<byte>)
    requires DecodeString(Url, EncodeToString(Std, data)).Ok?
    ensures DecodeString(Url, EncodeToString(Std, data)) == Ok(data)
  {
    EncodeToStringBytes(Std, data);
    AlphabetsAgree(data);
    var e := Encode(Std, data);
    assert forall k :: 0 <= k < |e| ==> Allowed(Url, e[k]);
    assert forall k :: 0 <= k < |e| ==> e[k] != 43 && e[k] != 47;
    assert e == Encode(Url, data);
    RoundTrip(Url, data);
  }

  /** The same trip through Go strings: `DecodeString(EncodeToString(data))` is `data`. */
  lemma StringRoundTrip(a: Alphabet, data: seq<byte>)
    ensures DecodeString(a, EncodeToString(a, data)) == Ok(data)
  {
    EncodeToStringBytes(a, data);
    RoundTrip(a, data);
  }
}
