/**
 * The parts of Go's `strconv` the helpers call: `Atoi`, `ParseInt(s, 10, 64)` and `ParseBool`.
 * Integers are 64-bit here (Go's `int` on a 64-bit platform), so `Atoi` and `ParseInt` parse
 * alike and differ only in the function name their errors carry.
 */
module GoStrconv {
  import opened Wrappers
  import opened GoText

  const MaxUint64: int := 0xffff_ffff_ffff_ffff
  const MaxInt64: int := 0x7fff_ffff_ffff_ffff
  const MinInt64: int := -0x8000_0000_0000_0000

  /** `ParseUint`'s early overflow bound for base 10: `maxUint64/10 + 1`. */
  const Cutoff: int := MaxUint64 / 10 + 1

  /** `strconv.ErrSyntax` and `strconv.ErrRange`. */
  datatype NumErrorKind = ErrSyntax | ErrRange

  /** `*strconv.NumError`: the function that failed, its input and the reason. */
  datatype NumError = NumError(func: string, num: string, kind: NumErrorKind)

  /** Go's pair of a value and an error: the value is meaningful also alongside some errors. */
  datatype Parsed<T> = Parsed(value: T, err: Option<NumError>)

  // ---------------------------------------------------------------------------------------
  // Unsigned scanning

  /** How `ParseUint` ends: a value, `ErrSyntax` or `ErrRange`. */
  datatype UintScan = Value(n: nat) | Syntax | Range

  /**
   * The digit loop of `ParseUint(s, 10, 64)` from position `i`, with `n` accumulated so far.
   * A non-digit stops it with a syntax error; leaving 64 bits stops it with a range error, even
   * when a non-digit follows later.
   */
  function ScanUint(s: string, i: nat, n: nat): (r: UintScan)
    requires i <= |s|
    ensures r.Value? ==> r.n <= MaxUint64 || (i == |s| && r.n == n)
    decreases |s| - i
  {
    if i == |s| then Value(n)
    else if !IsDigit(s[i]) then Syntax
    else if n >= Cutoff then Range
    else
      var n1 := n * 10 + DigitValue(s[i]);
      if n1 > MaxUint64 then Range else ScanUint(s, i + 1, n1)
  }

  /** `ParseUint(s, 10, 64)`: the empty string is a syntax error. */
  function ParseUint(s: string): (r: UintScan)
    ensures r.Value? ==> r.n <= MaxUint64
  {
    if s == [] then Syntax else ScanUint(s, 0, 0)
  }

  /** The end of the run of digits that starts at `i`. */
  function DigitRun(s: string, i: nat): (j: nat)
    requires i <= |s|
    ensures i <= j <= |s| && (j == |s| || !IsDigit(s[j]))
    ensures forall k :: i <= k < j ==> IsDigit(s[k])
    decreases |s| - i
  {
    if i < |s| && IsDigit(s[i]) then DigitRun(s, i + 1) else i
  }

  /**
   * What `ParseUint` means, stated without its loop: with `p` the leading run of digits, a range
   * error when `p` alone is too large, else a syntax error when anything follows `p`, else the
   * value of the digits.
   */
  ghost function UintMeaning(s: string): UintScan {
    var j := DigitRun(s, 0);
    assert AllDigits(s[..j]);
    if ValueOf(s[..j]) > MaxUint64 then Range
    else if j < |s| then Syntax
    else assert s[..j] == s; Value(ValueOf(s))
  }

  /** Appending digits never makes a number smaller. */
  lemma {:induction false} PrefixValueGrows(s: string, a: nat, b: nat)
    requires a <= b <= |s| && AllDigits(s[..b])
    ensures AllDigits(s[..a]) && ValueOf(s[..a]) <= ValueOf(s[..b])
    decreases b - a
  {
    assert AllDigits(s[..a]) by {
      forall k | 0 <= k < a ensures IsDigit(s[..a][k]) {
        assert s[..a][k] == s[..b][k];
      }
    }
    if a < b {
      PrefixValueGrows(s, a, b - 1);
      assert s[..b][..b - 1] == s[..b - 1];
    }
  }

  /** The loop computes `UintMeaning`: from any point of the digit run reached without overflow. */
  lemma {:induction false} ScanMeaning(s: string, i: nat)
    requires i <= DigitRun(s, 0)
    requires AllDigits(s[..i]) && ValueOf(s[..i]) <= MaxUint64
    ensures ScanUint(s, i, ValueOf(s[..i])) == UintMeaning(s)
    decreases |s| - i
  {
    var j := DigitRun(s, 0);
    assert AllDigits(s[..j]);
    var n := ValueOf(s[..i]);
    if i == |s| {
      assert s[..i] == s;
    } else if !IsDigit(s[i]) {
      assert j == i;
    } else {
      var t := s[..i + 1];
      assert t[..i] == s[..i] && t[i] == s[i];
      assert AllDigits(t);
      assert ValueOf(t) == n * 10 + DigitValue(s[i]);
      PrefixValueGrows(s, i + 1, j);
      if n >= Cutoff {
        assert ValueOf(t) > MaxUint64;
      } else if ValueOf(t) <= MaxUint64 {
        ScanMeaning(s, i + 1);
      }
    }
  }

  /** `ParseUint` on a non-empty string is `UintMeaning`. */
  lemma ParseUintMeaning(s: string)
    requires s != []
    ensures ParseUint(s) == UintMeaning(s)
  {
    assert s[..0] == [];
    ScanMeaning(s, 0);
  }

  // ---------------------------------------------------------------------------------------
  // Signed integers

  /** The input without its optional leading sign. */
  function Unsigned(s: string): (u: string)
    ensures |u| <= |s| && u == s[|s| - |u|..]
  {
    if |s| > 0 && (s[0] == '+' || s[0] == '-') then s[1..] else s
  }

  predicate Negative(s: string) {
    |s| > 0 && s[0] == '-'
  }

  /** An optional sign followed by at least one decimal digit and nothing else. */
  predicate WellFormed(s: string) {
    |Unsigned(s)| > 0 && AllDigits(Unsigned(s))
  }

  /** The integer a well-formed string denotes, however large. */
  ghost function Denoted(s: string): int
    requires WellFormed(s)
  {
    if Negative(s) then -(ValueOf(Unsigned(s)) as int) else ValueOf(Unsigned(s))
  }

  /**
   * `ParseInt(s, 10, 64)` with the function name `fn` for its errors. A syntax error yields 0; an
   * out-of-range value yields the nearest 64-bit bound with a range error.
   */
  function ParseInt(fn: string, s: string): (r: Parsed<int>)
    ensures r.err.Some? ==> r.err.value.func == fn && r.err.value.num == s
    ensures MinInt64 <= r.value <= MaxInt64
  {
    if s == [] then Parsed(0, Some(NumError(fn, s, ErrSyntax)))
    else
      var neg := Negative(s);
      match ParseUint(Unsigned(s))
      case Syntax => Parsed(0, Some(NumError(fn, s, ErrSyntax)))
      case Range => Parsed(if neg then MinInt64 else MaxInt64, Some(NumError(fn, s, ErrRange)))
      case Value(u) =>
        if !neg && u > MaxInt64 then Parsed(MaxInt64, Some(NumError(fn, s, ErrRange)))
        else if neg && u > -MinInt64 then Parsed(MinInt64, Some(NumError(fn, s, ErrRange)))
        else Parsed(if neg then -(u as int) else u, None)
  }

  /** `strconv.Atoi` (64-bit `int`). */
  function Atoi(s: string): Parsed<int> {
    ParseInt("Atoi", s)
  }

  /**
   * `ParseInt` succeeds exactly on the well-formed strings whose value fits in 64 bits, and then
   * returns that value; a well-formed string out of range is clamped with a range error; a syntax
   * error comes only from a string that is not well-formed, and yields 0.
   */
  lemma ParseIntMeaning(fn: string, s: string)
    ensures ParseInt(fn, s).err.None? <==> WellFormed(s) && MinInt64 <= Denoted(s) <= MaxInt64
    ensures ParseInt(fn, s).err.None? ==> ParseInt(fn, s).value == Denoted(s)
    ensures WellFormed(s) && Denoted(s) > MaxInt64 ==>
              ParseInt(fn, s) == Parsed(MaxInt64, Some(NumError(fn, s, ErrRange)))
    ensures WellFormed(s) && Denoted(s) < MinInt64 ==>
              ParseInt(fn, s) == Parsed(MinInt64, Some(NumError(fn, s, ErrRange)))
    ensures ParseInt(fn, s).err.Some? && ParseInt(fn, s).err.value.kind == ErrSyntax ==>
              !WellFormed(s) && ParseInt(fn, s).value == 0
  {
    var b := Unsigned(s);
    if s != [] && b != [] {
      ParseUintMeaning(b);
      var j := DigitRun(b, 0);
      if AllDigits(b) {
        assert j == |b|;
        assert b[..j] == b;
      }
    }
  }

  /** A well-formed string in the 64-bit range parses to the integer it denotes, with no error. */
  lemma ParseIntInRange(fn: string, s: string)
    requires WellFormed(s) && MinInt64 <= Denoted(s) <= MaxInt64
    ensures ParseInt(fn, s) == Parsed(Denoted(s), None)
  {
    ParseIntMeaning(fn, s);
  }

  /** `Itoa` writes a '-' exactly for negative numbers, followed by the magnitude's digits. */
  lemma ItoaShape(n: int)
    ensures Negative(Itoa(n)) <==> n < 0
    ensures Unsigned(Itoa(n)) == Decimal(if n < 0 then -n else n)
  {
    ItoaDigits(n);
    if n < 0 {
      SignedDigits(Decimal(-n));
    } else {
      BareDigits(Decimal(n));
    }
  }

  /** A '-' in front of digits: negative, and the digits are what follows the sign. */
  lemma SignedDigits(d: string)
    requires |d| >= 1 && AllDigits(d)
    ensures Negative("-" + d) && Unsigned("-" + d) == d
  {
    assert ("-" + d)[1..] == d;
  }

  /** Digits without a sign: not negative, and nothing is taken off. */
  lemma BareDigits(d: string)
    requires |d| >= 1 && AllDigits(d)
    ensures !Negative(d) && Unsigned(d) == d
  {
    assert IsDigit(d[0]);
  }

  /** Rendering a 64-bit integer with `Itoa` and parsing it back gives the integer. */
  lemma ParseItoa(fn: string, n: int)
    requires MinInt64 <= n <= MaxInt64
    ensures ParseInt(fn, Itoa(n)) == Parsed(n, None)
  {
    var s := Itoa(n);
    ItoaShape(n);
    assert WellFormed(s) && Denoted(s) == n;
    ParseIntMeaning(fn, s);
    var r := ParseInt(fn, s);
    assert r.err.None? && r.value == n;
  }

  // ---------------------------------------------------------------------------------------
  // Booleans

  /**
   * `strconv.ParseBool`: "1", "t", "T", "TRUE", "true", "True" are true; "0", "f", "F", "FALSE",
   * "false", "False" are false; anything else is a syntax error with the value false.
   */
  function ParseBool(s: string): (r: Parsed<bool>)
    ensures r.err.Some? ==> !r.value && r.err.value == NumError("ParseBool", s, ErrSyntax)
  {
    if s in {"1", "t", "T", "TRUE", "true", "True"} then Parsed(true, None)
    else if s in {"0", "f", "F", "FALSE", "false", "False"} then Parsed(false, None)
    else Parsed(false, Some(NumError("ParseBool", s, ErrSyntax)))
  }

  /** `strconv.FormatBool`. */
  function FormatBool(b: bool): string {
    if b then "true" else "false"
  }

  /** Every word other than the twelve spellings is a syntax error, read as false. */
  lemma ParseBoolRejects(s: string)
    ensures ParseBool(s).err.Some? <==>
              s !in {"1", "t", "T", "TRUE", "true", "True", "0", "f", "F", "FALSE", "false", "False"}
    ensures ParseBool(s).err.Some? ==> !ParseBool(s).value
  {
  }

  /** Each spelling that `ParseBool` accepts is read as the same truth value in all its cases. */
  lemma ParseBoolSpellings(b: bool)
    ensures ParseBool(FormatBool(b)) == Parsed(b, None)
    ensures ParseBool(if b then "TRUE" else "FALSE") == Parsed(b, None)
    ensures ParseBool(if b then "1" else "0") == Parsed(b, None)
    ensures ParseBool("yes").err.Some? && ParseBool("").err.Some?
  {
  }
}
