/**
 * data.go: the file-name helper, the Buddhist-Era date encoder and decoder, and the Thai
 * citizen-ID check digit.
 */
module Data {
  import opened Wrappers
  import opened GoText
  import opened GoTime
  import GoStrconv
  import Fiber

  // ---------------------------------------------------------------------------------------
  // FileNameWithoutExtension

  /** The last occurrence of a character is followed by no other occurrence of it. */
  lemma NothingAfterLast(s: string, c: char)
    ensures var i := LastIndex(s, [c]); -1 <= i < |s| && c !in s[i + 1..]
    ensures c in s <==> LastIndex(s, [c]) != -1
    ensures LastIndex(s, [c]) != -1 ==> s[LastIndex(s, [c])] == c
  {
    var i := LastIndex(s, [c]);
    forall j | i + 1 <= j < |s|
      ensures s[j] != c
    {
      if s[j] == c {
        assert s[j..j + 1] == [c];
        assert OccursAt(s, [c], j);
      }
    }
    if i != -1 {
      assert s[i..i + 1] == [c];
      assert s[i] == c;
    }
  }

  /**
   * `path.Split(p)`'s file part: what follows the last '/', so the whole of `p` when it has
   * no '/', and otherwise the suffix that starts right after a '/'.
   */
  function Base(p: string): (r: string)
    ensures |r| <= |p| && '/' !in r && r == p[|p| - |r|..]
    ensures '/' !in p ==> r == p
    ensures '/' in p ==> |r| < |p| && p[|p| - |r| - 1] == '/'
  {
    NothingAfterLast(p, '/');
    p[LastIndex(p, "/") + 1..]
  }

  /** `path.Ext`: the suffix from the final '.' of the last element, or "" when it has none. */
  function Ext(p: string): (r: string)
    ensures r == [] || (|r| <= |p| && r[0] == '.' && '/' !in r && r == p[|p| - |r|..])
  {
    var k := LastIndex(p, ".");
    NothingAfterLast(p, '.');
    if k == -1 || '/' in p[k..] then [] else assert p[k..k + 1] == "."; p[k..]
  }

  /**
   * `FileNameWithoutExtension`: the last element of the path with its extension cut off, so a
   * prefix of that element, free of '/'. `FileNameParts` places the cut at the final '.'.
   */
  function FileNameWithoutExtension(fileName: string): (r: string)
    ensures |r| <= |Base(fileName)| && r == Base(fileName)[..|r|]
    ensures '/' !in r
  {
    var file := Base(fileName);
    var pos := LastIndex(file, Ext(file));
    if pos != -1 then file[..pos] else file
  }

  /**
   * The result and the extension make up the last element again; the cut is at the final '.',
   * and an element without '.' comes back whole.
   */
  lemma FileNameParts(fileName: string)
    ensures FileNameWithoutExtension(fileName) + Ext(Base(fileName)) == Base(fileName)
    ensures '.' in Base(fileName) ==>
              (0 <= LastIndex(Base(fileName), ".") &&
               FileNameWithoutExtension(fileName) == Base(fileName)[..LastIndex(Base(fileName), ".")])
    ensures '.' !in Base(fileName) ==> FileNameWithoutExtension(fileName) == Base(fileName)
    ensures '/' !in FileNameWithoutExtension(fileName)
  {
    var file := Base(fileName);
    ExtAtEnd(file);
    var pos := |file| - |Ext(file)|;
    assert file == file[..pos] + Ext(file);
  }

  /** The extension of an element free of '/' is found at its end, and starts at its final '.'. */
  lemma ExtAtEnd(file: string)
    requires '/' !in file
    ensures LastIndex(file, Ext(file)) == |file| - |Ext(file)|
    ensures '.' in file ==> 0 <= LastIndex(file, ".") && Ext(file) == file[LastIndex(file, ".")..]
    ensures '.' !in file ==> Ext(file) == []
  {
    var ext := Ext(file);
    NothingAfterLast(file, '.');
    assert OccursAt(file, ext, |file| - |ext|);
  }

  /** A character that occurs once more at `i` and never after is found there by `LastIndex`. */
  lemma LastIndexAt(s: string, c: char, i: nat)
    requires i < |s| && s[i] == c && c !in s[i + 1..]
    ensures LastIndex(s, [c]) == i
  {
    assert s[i..i + 1] == [c];
    assert OccursAt(s, [c], i);
    forall k | i < k
      ensures !OccursAt(s, [c], k)
    {
      if k < |s| {
        assert s[k] == s[i + 1..][k - i - 1];
        assert s[k..k + 1] == [s[k]];
      }
    }
  }

  /** The file name of a path whose last element is `name`, which holds a single '.' at `dot`. */
  lemma FileNameOf(p: string, slash: nat, dot: nat)
    requires slash < |p| && p[slash] == '/' && '/' !in p[slash + 1..]
    requires slash + 1 + dot < |p| && p[slash + 1 + dot] == '.' && '.' !in p[slash + 2 + dot..]
    ensures FileNameWithoutExtension(p) == p[slash + 1..slash + 1 + dot]
  {
    LastIndexAt(p, '/', slash);
    var file := p[slash + 1..];
    assert Base(p) == file;
    assert file[dot + 1..] == p[slash + 2 + dot..];
    LastIndexAt(file, '.', dot);
    FileNameParts(p);
  }

  /** The file name of a path whose last element, after the '/' at `slash`, holds no '.'. */
  lemma FileNameOfBare(p: string, slash: nat)
    requires slash < |p| && p[slash] == '/' && '/' !in p[slash + 1..] && '.' !in p[slash + 1..]
    ensures FileNameWithoutExtension(p) == p[slash + 1..]
  {
    LastIndexAt(p, '/', slash);
    assert Base(p) == p[slash + 1..];
    FileNameParts(p);
  }

  /** The first path of the repository's test: the extension is cut off. */
  lemma FileNameExampleExt(p: string)
    requires p == "/dir0/dir1/test.ext"
    ensures FileNameWithoutExtension(p) == "test"
  {
    assert p[10] == '/' && p[11..] == "test.ext";
    assert p[15] == '.' && p[16..] == "ext";
    assert p[11..15] == p[11..][..4];
    assert "test.ext"[..4] == "test";
    FileNameOf(p, 10, 4);
  }

  /** The second path of the repository's test: an element without '.' comes back whole. */
  lemma FileNameExampleBare(p: string)
    requires p == "/dir0/dir1/test"
    ensures FileNameWithoutExtension(p) == "test"
  {
    assert p[10] == '/' && p[11..] == "test";
    FileNameOfBare(p, 10);
  }

  // ---------------------------------------------------------------------------------------
  // DateStrTotime

  /**
   * The character `%04s` and `%02s` pad a short string field with. Go releases differ here: older
   * ones honour the '0' flag for strings, newer ones ignore it and pad with spaces. Full-width
   * fields are never padded, so both agree on them.
   */
  datatype Fill = ZeroFill | SpaceFill

  function FillChar(fill: Fill): char {
    if fill == ZeroFill then '0' else ' '
  }

  /**
   * Where the Buddhist-Era shift happens relative to the calendar check. Lines 63-68 check the
   * date in the year as written and shift afterwards (`ValidateThenShift`); checking the date in
   * the shifted year (`ShiftThenValidate`) is the corrected reading listed under Findings.
   */
  datatype EraRule = ValidateThenShift | ShiftThenValidate

  /** Line 44: the error for a hyphenated date that is not made of three fields. */
  const FieldCountError := Fiber.Error(Fiber.StatusBadRequest, "dateStr with /,- must in ISO date format")

  /** Line 107: the error every other failure ends with. */
  const LengthError := Fiber.Error(Fiber.StatusBadRequest, "dateStr must be 8,10 chars")

  /**
   * Lines 31 and 38: surrounding white space removed (`TrimSpace` keeps the slice of the input
   * that has only white space around it), then every '/' turned into '-'.
   */
  function Normalise(dateStr: string): (s: string)
    ensures s == ReplaceAll(TrimSpace(dateStr), '/', '-')
    ensures s == [] || (!IsSpace(s[0]) && !IsSpace(s[|s| - 1]))
    ensures '/' !in s
  {
    ReplaceAll(TrimSpace(dateStr), '/', '-')
  }

  /** Lines 57-62: a month or day of "00" is read as "01". */
  function ZeroToOne(s: string): (r: string)
    ensures s != "00" ==> r == s
    ensures r != "00"
  {
    if s == "00" then "01" else s
  }

  /**
   * `fmt.Sprintf("%04s-%02s-%02s", y, m, d)`: fields no wider than 4, 2 and 2 sit right-aligned
   * in a ten-character "yyyy-mm-dd" frame, padded on the left with the fill character.
   */
  function IsoOf(y: string, m: string, d: string, fill: Fill): (r: string)
    ensures |y| <= 4 && |m| <= 2 && |d| <= 2 ==>
              var c := FillChar(fill);
              |r| == 10 && r[4] == '-' && r[7] == '-' &&
              r[..4] == Run(c, 4 - |y|) + y &&
              r[5..7] == Run(c, 2 - |m|) + m &&
              r[8..] == Run(c, 2 - |d|) + d
  {
    var c := FillChar(fill);
    var r := PadLeft(y, 4, c) + "-" + PadLeft(m, 2, c) + "-" + PadLeft(d, 2, c);
    if |y| <= 4 && |m| <= 2 && |d| <= 2 then
      PadShape(y, 4, c);
      PadShape(m, 2, c);
      PadShape(d, 2, c);
      IsoFrame(PadLeft(y, 4, c), PadLeft(m, 2, c), PadLeft(d, 2, c));
      r
    else
      r
  }

  /** `n` copies of `c`. */
  function Run(c: char, n: nat): (r: string)
    ensures |r| == n && forall k :: 0 <= k < n ==> r[k] == c
  {
    seq(n, _ => c)
  }

  /** A field no wider than `w`, padded to `w`: the fill characters, then the field. */
  lemma PadShape(s: string, w: nat, c: char)
    requires |s| <= w
    ensures PadLeft(s, w, c) == Run(c, w - |s|) + s
  {
    if |s| == w {
      assert Run(c, 0) + s == s;
    }
  }

  /** Four, two and two characters joined by '-' sit at positions 0-3, 5-6 and 8-9. */
  lemma IsoFrame(a: string, b: string, e: string)
    requires |a| == 4 && |b| == 2 && |e| == 2
    ensures var r := a + "-" + b + "-" + e;
            |r| == 10 && r[4] == '-' && r[7] == '-' && r[..4] == a && r[5..7] == b && r[8..] == e
  {
  }

  /**
   * Lines 66-68: a valid date whose year lies above `currentYear + 272` is taken as Buddhist Era
   * and moved back 543 years with `AddDate`; any other date is kept.
   */
  function FromBuddhistEra(t: Date, currentYear: int): (r: Date)
    requires Valid(t)
    ensures Valid(r)
    ensures r.year == if t.year > currentYear + 272 then t.year - 543 else t.year
    ensures t.year <= currentYear + 272 ==> r == t
    ensures (r.month == t.month && r.day == t.day) || (t.month == 2 && t.day == 29 && r.month == 3 && r.day == 1)
  {
    if t.year > currentYear + 272 then AddYears(t, -543) else t
  }

  /**
   * What becomes of the fields `t` read from the layout: under `ValidateThenShift` the date must
   * exist in the year as written and is then shifted; under `ShiftThenValidate` the year is
   * shifted first and the date must exist in the Gregorian year it stands for.
   */
  function Resolve(t: Date, currentYear: int, rule: EraRule): (r: Option<Date>)
    ensures r.Some? ==> Valid(r.value)
    ensures r.Some? ==> (r.value.month == t.month && r.value.day == t.day) ||
                        (rule == ValidateThenShift && t.month == 2 && t.day == 29 && r.value.month == 3 && r.value.day == 1)
    ensures r.Some? <==> Valid(if rule == ValidateThenShift || t.year <= currentYear + 272 then t
                               else Date(t.year - 543, t.month, t.day))
    ensures r.Some? ==> r.value.year == if t.year > currentYear + 272 then t.year - 543 else t.year
  {
    match rule
    case ValidateThenShift =>
      if Valid(t) then Some(FromBuddhistEra(t, currentYear)) else None
    case ShiftThenValidate =>
      var ce := if t.year > currentYear + 272 then Date(t.year - 543, t.month, t.day) else t;
      if Valid(ce) then Some(ce) else None
  }

  /** One call of `time.ParseInLocation("2006-01-02", ...)` on the padded fields, with the era shift. */
  function Attempt(y: string, m: string, d: string, fill: Fill, currentYear: int, rule: EraRule): (r: Option<Date>)
    ensures r.Some? ==> Valid(r.value)
  {
    match IsoFields(IsoOf(y, m, d, fill))
    case None => None
    case Some(t) => Resolve(t, currentYear, rule)
  }

  /**
   * Lines 47-63: a first field of four bytes is the year (year-month-day); otherwise the third
   * field is (day-month-year). Month and day get the "00" coercion in both orders.
   */
  function Hyphenated(fields: seq<string>, fill: Fill, currentYear: int, rule: EraRule): (r: Option<Date>)
    requires |fields| == 3
    ensures r.Some? ==> Valid(r.value)
  {
    if |Utf8Encode(fields[0])| == 4 then
      Attempt(fields[0], ZeroToOne(fields[1]), ZeroToOne(fields[2]), fill, currentYear, rule)
    else
      Attempt(fields[2], ZeroToOne(fields[1]), ZeroToOne(fields[0]), fill, currentYear, rule)
  }

  /** A string's bytes, one character per byte: Go slices the packed form by bytes. */
  function ByteString(s: string): (r: string)
    ensures |r| == |Utf8Encode(s)|
  {
    var b := Utf8Encode(s);
    seq(|b|, k requires 0 <= k < |b| => b[k] as int as char)
  }

  /**
   * Lines 74-104 on the eight bytes: YYYYMMDD with the "00" coercion first, and only when that
   * fails DDMMYYYY, without the coercion.
   */
  function Packed(b: string, fill: Fill, currentYear: int, rule: EraRule): (r: Option<Date>)
    requires |b| == 8
    ensures r.Some? ==> Valid(r.value)
  {
    var first := Attempt(b[..4], ZeroToOne(b[4..6]), ZeroToOne(b[6..]), fill, currentYear, rule);
    if first.Some? then first else Attempt(b[4..], b[2..4], b[..2], fill, currentYear, rule)
  }

  /**
   * `DateStrTotime` with the current year, the padding character and the era rule as parameters;
   * `Err` stands for the zero time with the error. A hyphenated input whose fields do not parse
   * goes on to the packed branch when it is eight bytes long, as lines 71 and 74 let it.
   */
  function ParseDate(dateStr: string, currentYear: int, fill: Fill, rule: EraRule): (r: Result<Date, Fiber.Error>)
    ensures r.Ok? ==> Valid(r.value)
    ensures r.Err? ==> r.error == FieldCountError || r.error == LengthError
    ensures r == Err(FieldCountError) <==>
              '-' in Normalise(dateStr) && |Split(Normalise(dateStr), "-")| != 3
  {
    var s := Normalise(dateStr);
    var fields := Split(s, "-");
    if '-' in s && |fields| != 3 then Err(FieldCountError)
    else
      var hyphenated := if '-' in s then Hyphenated(fields, fill, currentYear, rule) else None;
      if hyphenated.Some? then Ok(hyphenated.value)
      else if |Utf8Encode(s)| != 8 then Err(LengthError)
      else
        match Packed(ByteString(s), fill, currentYear, rule)
        case Some(t) => Ok(t)
        case None => Err(LengthError)
  }

  /**
   * `DateStrTotime` as written: the date is checked in the year as written, then shifted. Every
   * date it yields is a real one, and every failure is one of the two errors.
   */
  function DateStrTotime(dateStr: string, currentYear: int, fill: Fill): (r: Result<Date, Fiber.Error>)
    ensures r.Ok? ==> Valid(r.value)
    ensures r.Err? ==> r.error == FieldCountError || r.error == LengthError
  {
    ParseDate(dateStr, currentYear, fill, ValidateThenShift)
  }

  /** `DateStrTotime` with the era shift applied before the calendar check; the same guarantees. */
  function DateStrTotimeCorrected(dateStr: string, currentYear: int, fill: Fill): (r: Result<Date, Fiber.Error>)
    ensures r.Ok? ==> Valid(r.value)
    ensures r.Err? ==> r.error == FieldCountError || r.error == LengthError
  {
    ParseDate(dateStr, currentYear, fill, ShiftThenValidate)
  }

  /** Fields of full width are not padded, so the layout reads their digits as they stand. */
  lemma AttemptDigits(ys: string, ms: string, ds: string, fill: Fill, currentYear: int, rule: EraRule)
    requires |ys| == 4 && |ms| == 2 && |ds| == 2
    requires AllDigits(ys) && AllDigits(ms) && AllDigits(ds)
    ensures Attempt(ys, ms, ds, fill, currentYear, rule)
            == Resolve(Date(ValueOf(ys), ValueOf(ms), ValueOf(ds)), currentYear, rule)
  {
    assert IsoOf(ys, ms, ds, fill) == ys + "-" + ms + "-" + ds;
    IsoFieldsOf(ys, ms, ds);
  }

  /** A digit string holds neither separator, and the "00" coercion keeps it a digit string. */
  lemma DigitsAreFields(s: string)
    requires AllDigits(s)
    ensures '-' !in s && '/' !in s
    ensures AllDigits(ZeroToOne(s)) && |ZeroToOne(s)| == |s|
  {
  }

  /** Trimming leaves a string alone when it starts and ends with a digit. */
  lemma TrimDigitEnds(s: string)
    requires s != [] && IsDigit(s[0]) && IsDigit(s[|s| - 1])
    ensures TrimSpace(s) == s
  {
    TrimSpaceKeeps(s);
  }

  /** Replacing '/' by '-' in fields free of '/' joined by '-' or '/' joins them by '-'. */
  lemma ReplaceThree(f0: string, f1: string, f2: string, sep: char)
    requires sep == '-' || sep == '/'
    requires '/' !in f0 && '/' !in f1 && '/' !in f2
    ensures ReplaceAll(f0 + [sep] + f1 + [sep] + f2, '/', '-') == f0 + "-" + f1 + "-" + f2
  {
    ReplaceAppend(f0 + [sep] + f1 + [sep], f2, '/', '-');
    ReplaceAppend(f0 + [sep] + f1, [sep], '/', '-');
    ReplaceAppend(f0 + [sep], f1, '/', '-');
    ReplaceAppend(f0, [sep], '/', '-');
    ReplaceAbsent(f0, '/', '-');
    ReplaceAbsent(f1, '/', '-');
    ReplaceAbsent(f2, '/', '-');
    assert ReplaceAll([sep], '/', '-') == "-";
  }

  /** Three fields free of '-' joined by '-' split back into the three. */
  lemma SplitThree(f0: string, f1: string, f2: string)
    requires '-' !in f0 && '-' !in f1 && '-' !in f2
    ensures Split(f0 + "-" + f1 + "-" + f2, "-") == [f0, f1, f2]
  {
    var parts := [f0, f1, f2];
    assert parts[1..] == [f1, f2] && [f1, f2][1..] == [f2];
    assert Join([f1, f2], ['-']) == f1 + ['-'] + f2;
    assert Join(parts, ['-']) == f0 + ['-'] + (f1 + ['-'] + f2);
    assert f0 + ['-'] + (f1 + ['-'] + f2) == f0 + "-" + f1 + "-" + f2;
    JoinThenSplit(parts, '-');
  }

  /**
   * Three digit fields joined by '-' or '/' come out of normalisation joined by '-', and split
   * back into the three fields.
   */
  lemma NormaliseThree(f0: string, f1: string, f2: string, sep: char)
    requires sep == '-' || sep == '/'
    requires AllDigits(f0) && AllDigits(f1) && AllDigits(f2) && f0 != [] && f2 != []
    ensures Normalise(f0 + [sep] + f1 + [sep] + f2) == f0 + "-" + f1 + "-" + f2
    ensures Split(f0 + "-" + f1 + "-" + f2, "-") == [f0, f1, f2]
  {
    DigitsAreFields(f0);
    DigitsAreFields(f1);
    DigitsAreFields(f2);
    var raw := f0 + [sep] + f1 + [sep] + f2;
    assert raw[0] == f0[0] && raw[|raw| - 1] == f2[|f2| - 1];
    TrimDigitEnds(raw);
    ReplaceThree(f0, f1, f2, sep);
    SplitThree(f0, f1, f2);
  }

  /**
   * White space around a date is dropped before anything else: " 1990-12-09 " normalises to
   * "1990-12-09", and `ParseDate` reads only the normalised form.
   */
  lemma NormalisePadded(pre: string, t: string, post: string)
    requires Blank(pre) && Blank(post)
    requires t == [] || (!IsSpace(t[0]) && !IsSpace(t[|t| - 1]))
    ensures Normalise(pre + t + post) == Normalise(t) == ReplaceAll(t, '/', '-')
  {
    TrimSpaceStrips(pre, t, post);
    TrimSpaceKeeps(t);
  }

  /** Three digit fields joined by '-' take one byte per character. */
  lemma JoinedBytes(f0: string, f1: string, f2: string)
    requires AllDigits(f0) && AllDigits(f1) && AllDigits(f2)
    ensures |Utf8Encode(f0)| == |f0|
    ensures |Utf8Encode(f0 + "-" + f1 + "-" + f2)| == |f0| + |f1| + |f2| + 2
  {
    var s := f0 + "-" + f1 + "-" + f2;
    forall k | 0 <= k < |s|
      ensures s[k] as int < 128
    {
      if k < |f0| {
        assert s[k] == f0[k];
      } else if k == |f0| {
        assert s[k] == '-';
      } else if k < |f0| + 1 + |f1| {
        assert s[k] == f1[k - |f0| - 1];
      } else if k == |f0| + 1 + |f1| {
        assert s[k] == '-';
      } else {
        assert s[k] == f2[k - |f0| - |f1| - 2];
      }
    }
    Utf8Ascii(s);
    Utf8Ascii(f0);
  }

  /** A hyphenated input of three fields that is not eight bytes long is read by `Hyphenated` alone. */
  lemma ParseHyphenated(dateStr: string, currentYear: int, fill: Fill, rule: EraRule)
    requires '-' in Normalise(dateStr) && |Split(Normalise(dateStr), "-")| == 3
    requires |Utf8Encode(Normalise(dateStr))| != 8
    ensures ParseDate(dateStr, currentYear, fill, rule)
            == Outcome(Hyphenated(Split(Normalise(dateStr), "-"), fill, currentYear, rule))
  {
  }

  /** An input without '-' that is eight bytes long is read by `Packed` alone. */
  lemma ParsePacked(dateStr: string, currentYear: int, fill: Fill, rule: EraRule)
    requires '-' !in Normalise(dateStr) && |Utf8Encode(Normalise(dateStr))| == 8
    ensures ParseDate(dateStr, currentYear, fill, rule)
            == Outcome(Packed(ByteString(Normalise(dateStr)), fill, currentYear, rule))
  {
  }

  /** The outcome `ParseDate` reports for what a single parse attempt produced. */
  function Outcome(t: Option<Date>): Result<Date, Fiber.Error> {
    match t
    case Some(d) => Ok(d)
    case None => Err(LengthError)
  }

  /** The year-month-day order of three digit fields of widths 4, 2 and 2. */
  lemma YmdFields(ys: string, ms: string, ds: string, currentYear: int, fill: Fill, rule: EraRule)
    requires |ys| == 4 && |ms| == 2 && |ds| == 2
    requires AllDigits(ys) && AllDigits(ms) && AllDigits(ds)
    ensures Hyphenated([ys, ms, ds], fill, currentYear, rule)
            == Resolve(Date(ValueOf(ys), ValueOf(ZeroToOne(ms)), ValueOf(ZeroToOne(ds))), currentYear, rule)
  {
    JoinedBytes(ys, ms, ds);
    DigitsAreFields(ms);
    DigitsAreFields(ds);
    AttemptDigits(ys, ZeroToOne(ms), ZeroToOne(ds), fill, currentYear, rule);
  }

  /** The day-month-year order of three digit fields of widths 2, 2 and 4. */
  lemma DmyFields(ds: string, ms: string, ys: string, currentYear: int, fill: Fill, rule: EraRule)
    requires |ys| == 4 && |ms| == 2 && |ds| == 2
    requires AllDigits(ys) && AllDigits(ms) && AllDigits(ds)
    ensures Hyphenated([ds, ms, ys], fill, currentYear, rule)
            == Resolve(Date(ValueOf(ys), ValueOf(ZeroToOne(ms)), ValueOf(ZeroToOne(ds))), currentYear, rule)
  {
    JoinedBytes(ds, ms, ys);
    DigitsAreFields(ms);
    DigitsAreFields(ds);
    AttemptDigits(ys, ZeroToOne(ms), ZeroToOne(ds), fill, currentYear, rule);
  }

  /** Three digit fields joined by '-' or '/' reach `Hyphenated` and, at ten bytes, nothing else. */
  lemma ThreeFieldInput(f0: string, f1: string, f2: string, sep: char, currentYear: int, fill: Fill, rule: EraRule)
    requires sep == '-' || sep == '/'
    requires AllDigits(f0) && AllDigits(f1) && AllDigits(f2) && f0 != [] && f2 != []
    requires |f0| + |f1| + |f2| == 8
    ensures ParseDate(f0 + [sep] + f1 + [sep] + f2, currentYear, fill, rule)
            == Outcome(Hyphenated([f0, f1, f2], fill, currentYear, rule))
  {
    var raw := f0 + [sep] + f1 + [sep] + f2;
    NormaliseThree(f0, f1, f2, sep);
    var s := f0 + "-" + f1 + "-" + f2;
    assert s[|f0|] == '-';
    JoinedBytes(f0, f1, f2);
    ParseHyphenated(raw, currentYear, fill, rule);
  }

  /**
   * Year-month-day: four year digits, two month digits and two day digits separated by '-' or
   * '/' are read in that order, with "00" read as "01"; when the date does not resolve, the
   * ten-byte input ends with the line 107 error.
   */
  lemma YmdInput(ys: string, ms: string, ds: string, sep: char, currentYear: int, fill: Fill, rule: EraRule)
    requires sep == '-' || sep == '/'
    requires |ys| == 4 && |ms| == 2 && |ds| == 2
    requires AllDigits(ys) && AllDigits(ms) && AllDigits(ds)
    ensures ParseDate(ys + [sep] + ms + [sep] + ds, currentYear, fill, rule)
            == Outcome(Resolve(Date(ValueOf(ys), ValueOf(ZeroToOne(ms)), ValueOf(ZeroToOne(ds))), currentYear, rule))
  {
    ThreeFieldInput(ys, ms, ds, sep, currentYear, fill, rule);
    YmdFields(ys, ms, ds, currentYear, fill, rule);
  }

  /**
   * Day-month-year: two day digits, two month digits and four year digits are read with the
   * year last, with the same coercion.
   */
  lemma DmyInput(ds: string, ms: string, ys: string, sep: char, currentYear: int, fill: Fill, rule: EraRule)
    requires sep == '-' || sep == '/'
    requires |ys| == 4 && |ms| == 2 && |ds| == 2
    requires AllDigits(ys) && AllDigits(ms) && AllDigits(ds)
    ensures ParseDate(ds + [sep] + ms + [sep] + ys, currentYear, fill, rule)
            == Outcome(Resolve(Date(ValueOf(ys), ValueOf(ZeroToOne(ms)), ValueOf(ZeroToOne(ds))), currentYear, rule))
  {
    ThreeFieldInput(ds, ms, ys, sep, currentYear, fill, rule);
    DmyFields(ds, ms, ys, currentYear, fill, rule);
  }

  /** Eight digits read as YYYYMMDD, with "00" read as "01" in the month and the day. */
  function PackedYmd(s: string): Date
    requires |s| == 8 && AllDigits(s)
  {
    Date(ValueOf(s[..4]), ValueOf(ZeroToOne(s[4..6])), ValueOf(ZeroToOne(s[6..])))
  }

  /** Eight digits read as DDMMYYYY, as they stand. */
  function PackedDmy(s: string): Date
    requires |s| == 8 && AllDigits(s)
  {
    Date(ValueOf(s[4..]), ValueOf(s[2..4]), ValueOf(s[..2]))
  }

  /** The two attempts on eight digits, field by field. */
  lemma PackedFields(s: string, currentYear: int, fill: Fill, rule: EraRule)
    requires |s| == 8 && AllDigits(s)
    ensures Outcome(Packed(s, fill, currentYear, rule))
            == match Resolve(PackedYmd(s), currentYear, rule)
               case Some(t) => Ok(t)
               case None => Outcome(Resolve(PackedDmy(s), currentYear, rule))
  {
    PackedFirstAttempt(s, currentYear, fill, rule);
    PackedSecondAttempt(s, currentYear, fill, rule);
  }

  /** The YYYYMMDD attempt resolves the coerced fields. */
  lemma PackedFirstAttempt(s: string, currentYear: int, fill: Fill, rule: EraRule)
    requires |s| == 8 && AllDigits(s)
    ensures Attempt(s[..4], ZeroToOne(s[4..6]), ZeroToOne(s[6..]), fill, currentYear, rule)
            == Resolve(PackedYmd(s), currentYear, rule)
  {
    DigitsAreFields(s[4..6]);
    DigitsAreFields(s[6..]);
    AttemptDigits(s[..4], ZeroToOne(s[4..6]), ZeroToOne(s[6..]), fill, currentYear, rule);
  }

  /** The DDMMYYYY attempt resolves the fields as they stand. */
  lemma PackedSecondAttempt(s: string, currentYear: int, fill: Fill, rule: EraRule)
    requires |s| == 8 && AllDigits(s)
    ensures Attempt(s[4..], s[2..4], s[..2], fill, currentYear, rule)
            == Resolve(PackedDmy(s), currentYear, rule)
  {
    AttemptDigits(s[4..], s[2..4], s[..2], fill, currentYear, rule);
  }

  /**
   * Eight digits: YYYYMMDD with the coercion when it resolves, else DDMMYYYY without it, else
   * the line 107 error.
   */
  lemma PackedInput(s: string, currentYear: int, fill: Fill, rule: EraRule)
    requires |s| == 8 && AllDigits(s)
    ensures ParseDate(s, currentYear, fill, rule)
            == match Resolve(PackedYmd(s), currentYear, rule)
               case Some(t) => Ok(t)
               case None => Outcome(Resolve(PackedDmy(s), currentYear, rule))
  {
    PackedNormal(s);
    ParsePacked(s, currentYear, fill, rule);
    PackedFields(s, currentYear, fill, rule);
  }

  /** Eight digits are already normal, eight bytes long and free of '-'. */
  lemma PackedNormal(s: string)
    requires |s| == 8 && AllDigits(s)
    ensures Normalise(s) == s && '-' !in s
    ensures |Utf8Encode(s)| == 8 && ByteString(s) == s
  {
    DigitsNormal(s);
    DigitsBytes(s);
  }

  /** A non-empty digit string is already normal, and holds no '-'. */
  lemma DigitsNormal(s: string)
    requires s != [] && AllDigits(s)
    ensures Normalise(s) == s && '-' !in s
  {
    DigitsAreFields(s);
    TrimDigitEnds(s);
    ReplaceAbsent(s, '/', '-');
  }

  /** A digit string takes one byte per digit, and its bytes read back as the same string. */
  lemma DigitsBytes(s: string)
    requires AllDigits(s)
    ensures |Utf8Encode(s)| == |s| && ByteString(s) == s
  {
    Utf8Ascii(s);
  }

  /** A date that exists and lies at or below the threshold is kept under either rule. */
  lemma ResolveKept(t: Date, currentYear: int, rule: EraRule)
    requires Valid(t) && t.year <= currentYear + 272
    ensures Resolve(t, currentYear, rule) == Some(t)
  {
  }

  /**
   * A date above the threshold that exists both in the year as written and 543 years earlier is
   * moved back 543 years under either rule.
   */
  lemma ResolveShifted(t: Date, currentYear: int, rule: EraRule)
    requires Valid(t) && Valid(Date(t.year - 543, t.month, t.day)) && t.year > currentYear + 272
    ensures Resolve(t, currentYear, rule) == Some(Date(t.year - 543, t.month, t.day))
  {
  }

  /** A date other than February 29 exists in every year. */
  lemma ValidInAnyYear(d: Date, year: int)
    requires Valid(d) && !(d.month == 2 && d.day == 29)
    ensures Valid(Date(year, d.month, d.day))
  {
  }

  /** The value of two digits. */
  lemma ValueOfTwo(s: string)
    requires |s| == 2 && AllDigits(s)
    ensures ValueOf(s) == 10 * DigitValue(s[0]) + DigitValue(s[1])
  {
    assert s[..1][..0] == [];
  }

  /** The value of four digits. */
  lemma ValueOfFour(s: string)
    requires |s| == 4 && AllDigits(s)
    ensures ValueOf(s) == 1000 * DigitValue(s[0]) + 100 * DigitValue(s[1]) + 10 * DigitValue(s[2]) + DigitValue(s[3])
  {
    assert s[..3][..2] == s[..2];
    ValueOfTwo(s[..2]);
  }

  /** The repository's first example: an ISO date in the Common Era is kept. */
  lemma ExampleIso(s: string, currentYear: int, fill: Fill)
    requires s == "1990-12-09" && 1718 <= currentYear <= 2260
    ensures DateStrTotime(s, currentYear, fill) == Ok(Date(1990, 12, 9))
  {
    assert s == "1990" + ['-'] + "12" + ['-'] + "09";
    assert ZeroToOne("12") == "12" && ZeroToOne("09") == "09";
    ValueOfFour("1990");
    ValueOfTwo("12");
    ValueOfTwo("09");
    assert ValueOf("1990") == 1990 && ValueOf("12") == 12 && ValueOf("09") == 9;
    ResolveKept(Date(1990, 12, 9), currentYear, ValidateThenShift);
    YmdInput("1990", "12", "09", '-', currentYear, fill, ValidateThenShift);
    assert ParseDate("1990" + ['-'] + "12" + ['-'] + "09", currentYear, fill, ValidateThenShift) == Ok(Date(1990, 12, 9));
  }

  /** An ISO date in the Buddhist Era is moved back 543 years. */
  lemma ExampleBuddhistIso(s: string, currentYear: int, fill: Fill)
    requires s == "2533-12-09" && 1718 <= currentYear <= 2260
    ensures DateStrTotime(s, currentYear, fill) == Ok(Date(1990, 12, 9))
  {
    assert s == "2533" + ['-'] + "12" + ['-'] + "09";
    assert ZeroToOne("12") == "12" && ZeroToOne("09") == "09";
    ValueOfFour("2533");
    ValueOfTwo("12");
    ValueOfTwo("09");
    assert ValueOf("2533") == 2533 && ValueOf("12") == 12 && ValueOf("09") == 9;
    ResolveShifted(Date(2533, 12, 9), currentYear, ValidateThenShift);
    YmdInput("2533", "12", "09", '-', currentYear, fill, ValidateThenShift);
    assert ParseDate("2533" + ['-'] + "12" + ['-'] + "09", currentYear, fill, ValidateThenShift) == Ok(Date(1990, 12, 9));
  }

  /** Day-month-year in the Common Era. */
  lemma ExampleDmy(s: string, currentYear: int, fill: Fill)
    requires s == "09-12-1990" && 1718 <= currentYear <= 2260
    ensures DateStrTotime(s, currentYear, fill) == Ok(Date(1990, 12, 9))
  {
    assert s == "09" + ['-'] + "12" + ['-'] + "1990";
    assert ZeroToOne("12") == "12" && ZeroToOne("09") == "09";
    ValueOfFour("1990");
    ValueOfTwo("12");
    ValueOfTwo("09");
    assert ValueOf("1990") == 1990 && ValueOf("12") == 12 && ValueOf("09") == 9;
    ResolveKept(Date(1990, 12, 9), currentYear, ValidateThenShift);
    DmyInput("09", "12", "1990", '-', currentYear, fill, ValidateThenShift);
    assert ParseDate("09" + ['-'] + "12" + ['-'] + "1990", currentYear, fill, ValidateThenShift) == Ok(Date(1990, 12, 9));
  }

  /** Day-month-year in the Buddhist Era. */
  lemma ExampleBuddhistDmy(s: string, currentYear: int, fill: Fill)
    requires s == "09-12-2533" && 1718 <= currentYear <= 2260
    ensures DateStrTotime(s, currentYear, fill) == Ok(Date(1990, 12, 9))
  {
    assert s == "09" + ['-'] + "12" + ['-'] + "2533";
    assert ZeroToOne("12") == "12" && ZeroToOne("09") == "09";
    ValueOfFour("2533");
    ValueOfTwo("12");
    ValueOfTwo("09");
    assert ValueOf("2533") == 2533 && ValueOf("12") == 12 && ValueOf("09") == 9;
    ResolveShifted(Date(2533, 12, 9), currentYear, ValidateThenShift);
    DmyInput("09", "12", "2533", '-', currentYear, fill, ValidateThenShift);
    assert ParseDate("09" + ['-'] + "12" + ['-'] + "2533", currentYear, fill, ValidateThenShift) == Ok(Date(1990, 12, 9));
  }

  /** Slashes are read as hyphens. */
  lemma ExampleSlashes(s: string, currentYear: int, fill: Fill)
    requires s == "09/12/2533" && 1718 <= currentYear <= 2260
    ensures DateStrTotime(s, currentYear, fill) == Ok(Date(1990, 12, 9))
  {
    assert s == "09" + ['/'] + "12" + ['/'] + "2533";
    assert ZeroToOne("12") == "12" && ZeroToOne("09") == "09";
    ValueOfFour("2533");
    ValueOfTwo("12");
    ValueOfTwo("09");
    assert ValueOf("2533") == 2533 && ValueOf("12") == 12 && ValueOf("09") == 9;
    ResolveShifted(Date(2533, 12, 9), currentYear, ValidateThenShift);
    DmyInput("09", "12", "2533", '/', currentYear, fill, ValidateThenShift);
    assert ParseDate("09" + ['/'] + "12" + ['/'] + "2533", currentYear, fill, ValidateThenShift) == Ok(Date(1990, 12, 9));
  }

  /** A day of "00" is read as the first. */
  lemma ExampleZeroDay(s: string, currentYear: int, fill: Fill)
    requires s == "00-12-1990" && 1718 <= currentYear <= 2260
    ensures DateStrTotime(s, currentYear, fill) == Ok(Date(1990, 12, 1))
  {
    assert s == "00" + ['-'] + "12" + ['-'] + "1990";
    assert ZeroToOne("12") == "12" && ZeroToOne("00") == "01";
    ValueOfFour("1990");
    ValueOfTwo("12");
    ValueOfTwo("01");
    assert ValueOf("1990") == 1990 && ValueOf("12") == 12 && ValueOf("01") == 1;
    ResolveKept(Date(1990, 12, 1), currentYear, ValidateThenShift);
    DmyInput("00", "12", "1990", '-', currentYear, fill, ValidateThenShift);
    assert ParseDate("00" + ['-'] + "12" + ['-'] + "1990", currentYear, fill, ValidateThenShift) == Ok(Date(1990, 12, 1));
  }

  /** A month of "00" is read as January. */
  lemma ExampleZeroMonth(s: string, currentYear: int, fill: Fill)
    requires s == "09-00-1990" && 1718 <= currentYear <= 2260
    ensures DateStrTotime(s, currentYear, fill) == Ok(Date(1990, 1, 9))
  {
    assert s == "09" + ['-'] + "00" + ['-'] + "1990";
    assert ZeroToOne("00") == "01" && ZeroToOne("09") == "09";
    ValueOfFour("1990");
    ValueOfTwo("01");
    ValueOfTwo("09");
    assert ValueOf("1990") == 1990 && ValueOf("01") == 1 && ValueOf("09") == 9;
    ResolveKept(Date(1990, 1, 9), currentYear, ValidateThenShift);
    DmyInput("09", "00", "1990", '-', currentYear, fill, ValidateThenShift);
    assert ParseDate("09" + ['-'] + "00" + ['-'] + "1990", currentYear, fill, ValidateThenShift) == Ok(Date(1990, 1, 9));
  }

  /** Eight digits as YYYYMMDD in the Common Era. */
  lemma ExamplePacked(s: string, currentYear: int, fill: Fill)
    requires s == "19901209" && 1718 <= currentYear <= 2260
    ensures DateStrTotime(s, currentYear, fill) == Ok(Date(1990, 12, 9))
  {
    PackedYmdReading(s, "1990", "12", "09");
    assert ZeroToOne("12") == "12" && ZeroToOne("09") == "09";
    ValueOfFour("1990");
    ValueOfTwo("12");
    ValueOfTwo("09");
    assert ValueOf("1990") == 1990 && ValueOf("12") == 12 && ValueOf("09") == 9;
    ResolveKept(Date(1990, 12, 9), currentYear, ValidateThenShift);
    PackedInput(s, currentYear, fill, ValidateThenShift);
    assert ParseDate(s, currentYear, fill, ValidateThenShift) == Ok(Date(1990, 12, 9));
  }

  /** Eight digits as YYYYMMDD in the Buddhist Era. */
  lemma ExamplePackedBuddhist(s: string, currentYear: int, fill: Fill)
    requires s == "25331209" && 1718 <= currentYear <= 2260
    ensures DateStrTotime(s, currentYear, fill) == Ok(Date(1990, 12, 9))
  {
    PackedYmdReading(s, "2533", "12", "09");
    assert ZeroToOne("12") == "12" && ZeroToOne("09") == "09";
    ValueOfFour("2533");
    ValueOfTwo("12");
    ValueOfTwo("09");
    assert ValueOf("2533") == 2533 && ValueOf("12") == 12 && ValueOf("09") == 9;
    ResolveShifted(Date(2533, 12, 9), currentYear, ValidateThenShift);
    PackedInput(s, currentYear, fill, ValidateThenShift);
    assert ParseDate(s, currentYear, fill, ValidateThenShift) == Ok(Date(1990, 12, 9));
  }

  /** Eight digits that fail as YYYYMMDD are read as DDMMYYYY. */
  lemma ExamplePackedDmy(s: string, currentYear: int, fill: Fill)
    requires s == "09121990" && 1718 <= currentYear <= 2260
    ensures DateStrTotime(s, currentYear, fill) == Ok(Date(1990, 12, 9))
  {
    PackedDmyFields(s);
    assert !Valid(Date(912, 19, 90));
    ResolveKept(Date(1990, 12, 9), currentYear, ValidateThenShift);
    PackedInput(s, currentYear, fill, ValidateThenShift);
  }

  /** The two readings of "09121990". */
  lemma PackedDmyFields(s: string)
    requires s == "09121990"
    ensures |s| == 8 && AllDigits(s)
    ensures PackedYmd(s) == Date(912, 19, 90) && PackedDmy(s) == Date(1990, 12, 9)
  {
    PackedYmdReading(s, "0912", "19", "90");
    PackedDmyReading(s, "09", "12", "1990");
    ValueOfFour("0912");
    ValueOfTwo("19");
    ValueOfTwo("90");
    ValueOfFour("1990");
    ValueOfTwo("12");
    ValueOfTwo("09");
  }

  /** Eight digits split as a four-digit year, a month and a day. */
  lemma PackedYmdReading(s: string, y: string, m: string, d: string)
    requires |y| == 4 && |m| == 2 && |d| == 2
    requires s == y + m + d && AllDigits(s)
    ensures PackedYmd(s) == Date(ValueOf(y), ValueOf(ZeroToOne(m)), ValueOf(ZeroToOne(d)))
  {
    assert s[..4] == y && s[4..6] == m && s[6..] == d;
  }

  /** Eight digits split as a day, a month and a four-digit year. */
  lemma PackedDmyReading(s: string, d: string, m: string, y: string)
    requires |d| == 2 && |m| == 2 && |y| == 4
    requires s == d + m + y && AllDigits(s)
    ensures PackedDmy(s) == Date(ValueOf(y), ValueOf(m), ValueOf(d))
  {
    assert s[..2] == d && s[2..4] == m && s[4..] == y;
  }

  /** DDMMYYYY in the Buddhist Era. */
  lemma ExamplePackedBuddhistDmy(s: string, currentYear: int, fill: Fill)
    requires s == "09122533" && 1718 <= currentYear <= 2260
    ensures DateStrTotime(s, currentYear, fill) == Ok(Date(1990, 12, 9))
  {
    PackedBuddhistDmyFields(s);
    assert !Valid(Date(912, 25, 33));
    ResolveShifted(Date(2533, 12, 9), currentYear, ValidateThenShift);
    PackedInput(s, currentYear, fill, ValidateThenShift);
  }

  /** The two readings of "09122533". */
  lemma PackedBuddhistDmyFields(s: string)
    requires s == "09122533"
    ensures |s| == 8 && AllDigits(s)
    ensures PackedYmd(s) == Date(912, 25, 33) && PackedDmy(s) == Date(2533, 12, 9)
  {
    PackedYmdReading(s, "0912", "25", "33");
    PackedDmyReading(s, "09", "12", "2533");
    ValueOfFour("0912");
    ValueOfTwo("25");
    ValueOfTwo("33");
    ValueOfFour("2533");
    ValueOfTwo("12");
    ValueOfTwo("09");
  }

  /** A packed day of "00" is read as the first. */
  lemma ExamplePackedZeroDay(s: string, currentYear: int, fill: Fill)
    requires s == "25331200" && 1718 <= currentYear <= 2260
    ensures DateStrTotime(s, currentYear, fill) == Ok(Date(1990, 12, 1))
  {
    assert s[..4] == "2533" && s[4..6] == "12" && s[6..] == "00";
    assert ZeroToOne("12") == "12" && ZeroToOne("00") == "01";
    ValueOfFour("2533");
    ValueOfTwo("12");
    ValueOfTwo("01");
    assert ValueOf("2533") == 2533 && ValueOf("12") == 12 && ValueOf("01") == 1;
    ResolveShifted(Date(2533, 12, 1), currentYear, ValidateThenShift);
    PackedInput(s, currentYear, fill, ValidateThenShift);
    assert ParseDate(s, currentYear, fill, ValidateThenShift) == Ok(Date(1990, 12, 1));
  }

  /** A packed month and day of "00" are read as January 1. */
  lemma ExamplePackedZeroMonthDay(s: string, currentYear: int, fill: Fill)
    requires s == "25330000" && 1718 <= currentYear <= 2260
    ensures DateStrTotime(s, currentYear, fill) == Ok(Date(1990, 1, 1))
  {
    assert s[..4] == "2533" && s[4..6] == "00" && s[6..] == "00";
    assert ZeroToOne("00") == "01" && ZeroToOne("00") == "01";
    ValueOfFour("2533");
    ValueOfTwo("01");
    assert ValueOf("2533") == 2533 && ValueOf("01") == 1;
    ResolveShifted(Date(2533, 1, 1), currentYear, ValidateThenShift);
    PackedInput(s, currentYear, fill, ValidateThenShift);
    assert ParseDate(s, currentYear, fill, ValidateThenShift) == Ok(Date(1990, 1, 1));
  }

  /** A string that starts and ends with a digit and holds no '/' is already normal. */
  lemma NormalAlready(s: string)
    requires s != [] && IsDigit(s[0]) && IsDigit(s[|s| - 1]) && '/' !in s
    ensures Normalise(s) == s
  {
    TrimDigitEnds(s);
    assert ReplaceAll(s, '/', '-') == s;
  }

  /** An input with no '-' in its normal form that is not eight bytes long is rejected by line 107. */
  lemma ParseNeitherShape(dateStr: string, currentYear: int, fill: Fill, rule: EraRule)
    requires '-' !in Normalise(dateStr) && |Utf8Encode(Normalise(dateStr))| != 8
    ensures ParseDate(dateStr, currentYear, fill, rule) == Err(LengthError)
  {
  }

  /** The repository's "1990": four digits are neither shape. */
  lemma ExampleYearOnly(s: string, currentYear: int, fill: Fill)
    requires s == "1990"
    ensures DateStrTotime(s, currentYear, fill) == Err(LengthError)
  {
    NormalAlready(s);
    Utf8Ascii(s);
    ParseNeitherShape(s, currentYear, fill, ValidateThenShift);
  }

  /** The repository's "12-1990": two hyphenated fields are the field-count error. */
  lemma ExampleTwoFields(s: string, currentYear: int, fill: Fill)
    requires s == "12-1990"
    ensures DateStrTotime(s, currentYear, fill) == Err(FieldCountError)
  {
    NormalAlready(s);
    assert ["12", "1990"][1..] == ["1990"];
    assert Join(["12", "1990"], ['-']) == s;
    JoinThenSplit(["12", "1990"], '-');
    assert s[2] == '-';
  }

  /**
   * An ISO date at or below the threshold survives the trip through its own "2006-01-02"
   * rendering, under either rule: the parser's first shape reads back what the layout writes.
   */
  lemma IsoRoundTrip(d: Date, currentYear: int, fill: Fill, rule: EraRule)
    requires Valid(d) && 0 <= d.year <= 9999 && d.year <= currentYear + 272
    ensures ParseDate(IsoString(d), currentYear, fill, rule) == Ok(d)
  {
    FormatIntFixed(d.year, 4);
    FormatIntFixed(d.month, 2);
    FormatIntFixed(d.day, 2);
    IsoPieces(FormatInt(d.year, 4), FormatInt(d.month, 2), FormatInt(d.day, 2), d, currentYear, fill, rule);
  }

  /** Year, month and day digits of a date at or below the threshold, joined by '-'. */
  lemma IsoPieces(ys: string, ms: string, ds: string, t: Date, currentYear: int, fill: Fill, rule: EraRule)
    requires |ys| == 4 && |ms| == 2 && |ds| == 2
    requires AllDigits(ys) && AllDigits(ms) && AllDigits(ds)
    requires ValueOf(ys) == t.year && ValueOf(ms) == t.month && ValueOf(ds) == t.day
    requires Valid(t) && t.year <= currentYear + 272
    ensures ParseDate(ys + "-" + ms + "-" + ds, currentYear, fill, rule) == Ok(t)
  {
    NotZeroField(ms, t.month);
    NotZeroField(ds, t.day);
    ResolveKept(t, currentYear, rule);
    assert ys + "-" + ms + "-" + ds == ys + ['-'] + ms + ['-'] + ds;
    YmdInput(ys, ms, ds, '-', currentYear, fill, rule);
  }

  /**
   * February 29 of a Buddhist leap year: as written, "2563-02-29" is checked against the
   * calendar of year 2563, which has no such day, and falls through to the length error; with
   * the shift first it is February 29, 2020.
   */
  lemma ExampleLeapDay(s: string, currentYear: int, fill: Fill)
    requires s == "2563-02-29" && 1718 <= currentYear <= 2260
    ensures DateStrTotime(s, currentYear, fill) == Err(LengthError)
    ensures DateStrTotimeCorrected(s, currentYear, fill) == Ok(Date(2020, 2, 29))
  {
    assert s == "2563" + ['-'] + "02" + ['-'] + "29";
    assert ZeroToOne("02") == "02" && ZeroToOne("29") == "29";
    ValueOfFour("2563");
    ValueOfTwo("02");
    ValueOfTwo("29");
    assert ValueOf("2563") == 2563 && ValueOf("02") == 2 && ValueOf("29") == 29;
    assert !Valid(Date(2563, 2, 29));
    assert Resolve(Date(2563, 2, 29), currentYear, ShiftThenValidate) == Some(Date(2020, 2, 29));
    YmdInput("2563", "02", "29", '-', currentYear, fill, ValidateThenShift);
    YmdInput("2563", "02", "29", '-', currentYear, fill, ShiftThenValidate);
    assert ParseDate("2563" + ['-'] + "02" + ['-'] + "29", currentYear, fill, ValidateThenShift) == Err(LengthError);
    assert ParseDate("2563" + ['-'] + "02" + ['-'] + "29", currentYear, fill, ShiftThenValidate) == Ok(Date(2020, 2, 29));
  }

  // ---------------------------------------------------------------------------------------
  // TimeToDGADate

  /**
   * `TimeToDGADate`: `fmt.Sprintf("%04d%02d%02d", year+543, month, day)`, the date as
   * YYYYMMDD in the Buddhist Era.
   */
  function TimeToDGADate(d: Date): (r: string)
    ensures |r| >= 8
    ensures 0 <= d.year + 543 <= 9999 && 0 <= d.month <= 99 && 0 <= d.day <= 99 ==>
              |r| == 8 && AllDigits(r)
  {
    DgaFields(d.year + 543, d.month, d.day);
    FormatInt(d.year + 543, 4) + FormatInt(d.month, 2) + FormatInt(d.day, 2)
  }

  /** `%04d%02d%02d` writes at least eight characters, and exactly eight digits for fields that fit. */
  lemma DgaFields(y: int, m: int, d: int)
    ensures |FormatInt(y, 4) + FormatInt(m, 2) + FormatInt(d, 2)| >= 8
    ensures 0 <= y <= 9999 && 0 <= m <= 99 && 0 <= d <= 99 ==>
              |FormatInt(y, 4) + FormatInt(m, 2) + FormatInt(d, 2)| == 8 &&
              AllDigits(FormatInt(y, 4) + FormatInt(m, 2) + FormatInt(d, 2))
  {
    FormatIntWidth(y, 4);
    FormatIntWidth(m, 2);
    FormatIntWidth(d, 2);
    if 0 <= y <= 9999 && 0 <= m <= 99 && 0 <= d <= 99 {
      FormatIntFixed(y, 4);
      FormatIntFixed(m, 2);
      FormatIntFixed(d, 2);
      DigitsJoined(FormatInt(y, 4), FormatInt(m, 2));
      DigitsJoined(FormatInt(y, 4) + FormatInt(m, 2), FormatInt(d, 2));
    }
  }

  /** Two digit strings joined are a digit string. */
  lemma DigitsJoined(a: string, b: string)
    requires AllDigits(a) && AllDigits(b)
    ensures AllDigits(a + b)
  {
    forall k | 0 <= k < |a + b|
      ensures IsDigit((a + b)[k])
    {
      if k >= |a| {
        assert (a + b)[k] == b[k - |a|];
      }
    }
  }

  /** For Buddhist years 0..9999 the result is eight digits: the year, the month and the day. */
  lemma DgaDigits(d: Date)
    requires Valid(d) && 0 <= d.year + 543 <= 9999
    ensures var s := TimeToDGADate(d);
      |s| == 8 && AllDigits(s[..4]) && AllDigits(s[4..6]) && AllDigits(s[6..]) &&
      ValueOf(s[..4]) == d.year + 543 && ValueOf(s[4..6]) == d.month && ValueOf(s[6..]) == d.day
  {
    FormatIntFixed(d.year + 543, 4);
    FormatIntFixed(d.month, 2);
    FormatIntFixed(d.day, 2);
    EightPieces(FormatInt(d.year + 543, 4), FormatInt(d.month, 2), FormatInt(d.day, 2));
  }

  /** Four, two and two characters joined are eight, and slice back into the three. */
  lemma EightPieces(a: string, b: string, c: string)
    requires |a| == 4 && |b| == 2 && |c| == 2
    ensures var s := a + b + c; |s| == 8 && s[..4] == a && s[4..6] == b && s[6..] == c
  {
  }

  /** Four, two and two digits packed together, as the two packed attempts read them. */
  lemma PackedPieces(ys: string, ms: string, ds: string)
    requires |ys| == 4 && |ms| == 2 && |ds| == 2
    requires AllDigits(ys) && AllDigits(ms) && AllDigits(ds)
    ensures |ys + ms + ds| == 8 && AllDigits(ys + ms + ds)
    ensures PackedYmd(ys + ms + ds) == Date(ValueOf(ys), ValueOf(ZeroToOne(ms)), ValueOf(ZeroToOne(ds)))
    ensures PackedDmy(ys + ms + ds).month == ValueOf(ys) % 100
  {
    var s := ys + ms + ds;
    forall k | 0 <= k < |s|
      ensures IsDigit(s[k])
    {
      if k < 4 {
        assert s[k] == ys[k];
      } else if k < 6 {
        assert s[k] == ms[k - 4];
      } else {
        assert s[k] == ds[k - 6];
      }
    }
    PackedYmdReading(s, ys, ms, ds);
    assert s[2..4] == ys[2..];
    LastTwoDigits(ys);
  }

  /** A four-digit value modulo 100 is the value of its last two digits. */
  lemma LastTwoDigits(ys: string)
    requires |ys| == 4 && AllDigits(ys)
    ensures ValueOf(ys) % 100 == ValueOf(ys[2..])
  {
    ValueOfFour(ys);
    ValueOfTwo(ys[2..]);
  }

  /** A month or day of at least 1 written with two digits is not "00". */
  lemma NotZeroField(f: string, n: int)
    requires |f| == 2 && AllDigits(f) && ValueOf(f) == n && n >= 1
    ensures ZeroToOne(f) == f
  {
    ValueOfTwo("00");
  }

  /** Eight digits made of a year, a month and a day of at least 1, as the packed attempts read them. */
  lemma PackedDate(ys: string, ms: string, ds: string, t: Date)
    requires |ys| == 4 && |ms| == 2 && |ds| == 2
    requires AllDigits(ys) && AllDigits(ms) && AllDigits(ds)
    requires ValueOf(ys) == t.year && ValueOf(ms) == t.month && ValueOf(ds) == t.day
    requires t.month >= 1 && t.day >= 1
    ensures |ys + ms + ds| == 8 && AllDigits(ys + ms + ds)
    ensures PackedYmd(ys + ms + ds) == t
    ensures PackedDmy(ys + ms + ds).month == t.year % 100
  {
    NotZeroField(ms, t.month);
    NotZeroField(ds, t.day);
    PackedPieces(ys, ms, ds);
  }

  /** Eight characters whose three slices are the digits of a date's fields. */
  lemma PackedSlices(s: string, t: Date)
    requires |s| == 8 && AllDigits(s[..4]) && AllDigits(s[4..6]) && AllDigits(s[6..])
    requires ValueOf(s[..4]) == t.year && ValueOf(s[4..6]) == t.month && ValueOf(s[6..]) == t.day
    requires t.month >= 1 && t.day >= 1
    ensures AllDigits(s) && PackedYmd(s) == t && PackedDmy(s).month == t.year % 100
  {
    assert s == s[..4] + s[4..6] + s[6..];
    PackedDate(s[..4], s[4..6], s[6..], t);
  }

  /** The DGA form of a date is eight digits that read as YYYYMMDD give the Buddhist-Era date. */
  lemma DgaPacked(d: Date)
    requires Valid(d) && 0 <= d.year + 543 <= 9999
    ensures |TimeToDGADate(d)| == 8 && AllDigits(TimeToDGADate(d))
    ensures PackedYmd(TimeToDGADate(d)) == Date(d.year + 543, d.month, d.day)
    ensures PackedDmy(TimeToDGADate(d)).month == (d.year + 543) % 100
  {
    DgaDigits(d);
    PackedSlices(TimeToDGADate(d), Date(d.year + 543, d.month, d.day));
  }

  /**
   * The repository's tests pair `TimeToDGADate` with `DateStrTotime`: for a date whose Buddhist
   * year lies above the threshold and is written with four digits, reading the DGA form back
   * gives the date, except on February 29 (`DgaLeapDayLost`).
   */
  lemma DgaRoundTrip(d: Date, currentYear: int, fill: Fill)
    requires Valid(d) && !(d.month == 2 && d.day == 29)
    requires 0 <= d.year + 543 <= 9999 && d.year + 543 > currentYear + 272
    ensures DateStrTotime(TimeToDGADate(d), currentYear, fill) == Ok(d)
  {
    DgaPacked(d);
    var t := Date(d.year + 543, d.month, d.day);
    ValidInAnyYear(d, d.year + 543);
    ResolveShifted(t, currentYear, ValidateThenShift);
    PackedInput(TimeToDGADate(d), currentYear, fill, ValidateThenShift);
  }

  /**
   * As written, February 29 never survives the trip: the Buddhist year of a leap year is never a
   * leap year, so YYYYMMDD fails, and DDMMYYYY reads a month of 3, 7 or 11 modulo 100.
   */
  lemma DgaLeapDayLost(d: Date, currentYear: int, fill: Fill)
    requires Valid(d) && d.month == 2 && d.day == 29 && 0 <= d.year + 543 <= 9999
    ensures DateStrTotime(TimeToDGADate(d), currentYear, fill) != Ok(d)
  {
    DgaPacked(d);
    LeapDayPacked(TimeToDGADate(d), d, currentYear, fill);
  }

  /** Eight digits holding February 29 of a leap year's Buddhist year are never read back as that day. */
  lemma LeapDayPacked(s: string, d: Date, currentYear: int, fill: Fill)
    requires Valid(d) && d.month == 2 && d.day == 29
    requires |s| == 8 && AllDigits(s)
    requires PackedYmd(s) == Date(d.year + 543, 2, 29) && PackedDmy(s).month == (d.year + 543) % 100
    ensures ParseDate(s, currentYear, fill, ValidateThenShift) != Ok(d)
  {
    LeapYearShifted(d.year);
    assert Resolve(PackedYmd(s), currentYear, ValidateThenShift) == None;
    var r := Resolve(PackedDmy(s), currentYear, ValidateThenShift);
    assert r.Some? ==> r.value.month != 2;
    PackedInput(s, currentYear, fill, ValidateThenShift);
    assert ParseDate(s, currentYear, fill, ValidateThenShift) == Outcome(r);
  }

  /** 543 years after a leap year is never a leap year, nor a year whose last two digits are. */
  lemma LeapYearShifted(year: int)
    requires IsLeap(year)
    ensures !IsLeap(year + 543) && (year + 543) % 100 % 4 == 3
  {
    assert year % 4 == 0;
  }

  /** With the shift applied first, every date with a four-digit Buddhist year above the threshold survives the trip. */
  lemma DgaRoundTripCorrected(d: Date, currentYear: int, fill: Fill)
    requires Valid(d) && 0 <= d.year + 543 <= 9999 && d.year + 543 > currentYear + 272
    ensures DateStrTotimeCorrected(TimeToDGADate(d), currentYear, fill) == Ok(d)
  {
    DgaPacked(d);
    var t := Date(d.year + 543, d.month, d.day);
    assert Resolve(t, currentYear, ShiftThenValidate) == Some(d);
    PackedInput(TimeToDGADate(d), currentYear, fill, ShiftThenValidate);
  }

  // ---------------------------------------------------------------------------------------
  // ValidCID

  /**
   * The digit a byte stands for, and 0 for any byte that is not a digit: the value line 120 gets
   * from `strconv.Atoi(string(b))` with its error dropped (`DigitOfIsAtoi`).
   */
  function DigitOf(b: byte): int {
    if 48 <= b <= 57 then b as int - 48 else 0
  }

  /** A one-digit string carries no sign. */
  lemma OneDigitUnsigned(s: string)
    requires |s| == 1 && IsDigit(s[0])
    ensures GoStrconv.Unsigned(s) == s && !GoStrconv.Negative(s)
  {
  }

  /** A one-digit string denotes its digit. */
  lemma OneDigitValue(s: string)
    requires |s| == 1 && IsDigit(s[0])
    ensures AllDigits(s) && ValueOf(s) == DigitValue(s[0])
  {
    assert s[..0] == [];
  }

  /** `strconv.Atoi` of a one-digit string is the digit's value. */
  lemma AtoiDigit(s: string)
    requires |s| == 1 && IsDigit(s[0])
    ensures GoStrconv.Atoi(s).value == DigitValue(s[0])
  {
    OneDigitUnsigned(s);
    OneDigitValue(s);
    GoStrconv.ParseIntInRange("Atoi", s);
  }

  /** Any other one-character string is a sign alone or a non-digit: a syntax error. */
  lemma NonDigitSyntax(s: string)
    requires |s| == 1 && !IsDigit(s[0])
    ensures GoStrconv.ParseUint(GoStrconv.Unsigned(s)) == GoStrconv.Syntax
  {
    if s[0] == '+' || s[0] == '-' {
      assert GoStrconv.Unsigned(s) == [];
    } else {
      assert GoStrconv.Unsigned(s) == s;
    }
  }

  /** `strconv.Atoi` of any other one-character string fails with the value 0. */
  lemma AtoiNonDigit(s: string)
    requires |s| == 1 && !IsDigit(s[0])
    ensures GoStrconv.Atoi(s).value == 0
  {
    NonDigitSyntax(s);
  }

  /** `DigitOf` is what `strconv.Atoi(string(b))` yields when its error is dropped. */
  lemma DigitOfIsAtoi(b: byte)
    ensures DigitOf(b) == GoStrconv.Atoi([b as int as char]).value
  {
    var c := b as int as char;
    var s := [c];
    assert s[0] == c;
    if 48 <= b <= 57 {
      assert IsDigit(c) && DigitValue(c) == b as int - 48;
      AtoiDigit(s);
    } else {
      assert !IsDigit(c);
      AtoiNonDigit(s);
    }
  }

  /** The weighted sum of the first `n` of the twelve leading bytes, with weights 13, 12, ..., 2. */
  function WeightedSum(b: seq<byte>, n: nat): int
    requires n <= 12 && n <= |b|
  {
    if n == 0 then 0 else WeightedSum(b, n - 1) + (13 - (n - 1)) * DigitOf(b[n - 1])
  }

  /** Line 124: the check digit, `(11 - sum mod 11) mod 10`. */
  function CheckDigit(b: seq<byte>): (r: int)
    requires |b| >= 12
    ensures 0 <= r <= 9
  {
    (11 - WeightedSum(b, 12) % 11) % 10
  }

  /** A citizen ID that `ValidCID` accepts: 13 bytes whose last is the check digit of the rest. */
  predicate CidAccepted(cid: string)
    ensures CidAccepted(cid) ==> |Utf8Encode(cid)| == 13 && '0' as byte <= Utf8Encode(cid)[12] <= '9' as byte
  {
    var b := Utf8Encode(cid);
    |b| == 13 && b[12] as int == 48 + CheckDigit(b)
  }

  const InvalidCidPrefix := "invalid cid: "
  const CidLengthPrefix := "cid must be 13 digits: "

  /** `strconv.Itoa` of a single digit is that digit's character. */
  lemma ItoaDigit(n: int)
    requires 0 <= n <= 9
    ensures Itoa(n) == [DigitChar(n)]
  {
    assert Decimal(n) == [DigitChar(n)];
    assert PadLeft(Decimal(n), 0, '0') == Decimal(n);
  }

  /** Line 126 compares the check digit's text with the byte as a one-rune string. */
  lemma SameDigit(d: int, x: byte)
    requires 0 <= d <= 9
    ensures (Itoa(d) == [x as int as char]) == (x as int == 48 + d)
  {
    ItoaDigit(d);
  }

  /**
   * `ValidCID`: the byte length must be 13; the check digit is computed from the twelve leading
   * bytes in a loop and compared with the thirteenth. The result is true exactly when no error
   * is returned.
   */
  method ValidCID(cid: string) returns (result: bool, err: Option<Fiber.Error>)
    ensures result <==> err.None?
    ensures result <==> CidAccepted(cid)
    ensures |Utf8Encode(cid)| != 13 ==>
              err == Some(Fiber.Error(Fiber.StatusBadRequest, CidLengthPrefix + cid))
    ensures |Utf8Encode(cid)| == 13 && !result ==>
              err == Some(Fiber.Error(Fiber.StatusBadRequest, InvalidCidPrefix + cid))
  {
    var b := Utf8Encode(cid);
    result, err := false, None;
    if |b| == 13 {
      var sum := 0;
      for i := 0 to 12
        invariant sum == WeightedSum(b, i)
      {
        sum := sum + (13 - i) * DigitOf(b[i]);
      }
      var checkDigit := (11 - sum % 11) % 10;
      assert checkDigit == CheckDigit(b);
      SameDigit(checkDigit, b[12]);
      if Itoa(checkDigit) != [b[12] as int as char] {
        err := Some(Fiber.Error(Fiber.StatusBadRequest, InvalidCidPrefix + cid));
      } else {
        result := true;
      }
    } else {
      err := Some(Fiber.Error(Fiber.StatusBadRequest, CidLengthPrefix + cid));
    }
  }

  /** Bytes that agree everywhere except at position 2. */
  predicate AgreeOutsideThird(b: seq<byte>, c: seq<byte>) {
    |b| == |c| && forall k :: 0 <= k < |b| && k != 2 ==> b[k] == c[k]
  }

  /** Up to the third byte, sums over such bytes differ by 11 times the difference of that digit. */
  lemma {:induction false} WeightedSumThird(b: seq<byte>, c: seq<byte>, n: nat)
    requires AgreeOutsideThird(b, c) && n <= 12 && n <= |b|
    ensures WeightedSum(b, n) - WeightedSum(c, n) ==
              if n <= 2 then 0 else 11 * (DigitOf(b[2]) - DigitOf(c[2]))
  {
    if n > 0 {
      WeightedSumThird(b, c, n - 1);
    }
  }

  /**
   * The third digit carries weight 11, so it never changes the sum modulo 11: two IDs that differ
   * only there are accepted or rejected together.
   */
  lemma ThirdDigitIgnored(cid: string, other: string)
    requires AgreeOutsideThird(Utf8Encode(cid), Utf8Encode(other))
    ensures CidAccepted(cid) <==> CidAccepted(other)
  {
    var b, c := Utf8Encode(cid), Utf8Encode(other);
    if |b| == 13 {
      WeightedSumThird(b, c, 12);
      var x, y := WeightedSum(b, 12), WeightedSum(c, 12);
      assert x == y + 11 * (DigitOf(b[2]) - DigitOf(c[2]));
      assert x % 11 == y % 11;
      assert b[12] == c[12];
    }
  }

  /** Twelve ASCII characters and a digit encode to twelve bytes and the digit's byte. */
  lemma CompletedBytes(prefix: string, e: int)
    requires |prefix| == 12 && forall k :: 0 <= k < 12 ==> prefix[k] as int < 128
    requires 0 <= e <= 9
    ensures |Utf8Encode(prefix)| == 12
    ensures Utf8Encode(prefix + [DigitChar(e)]) == Utf8Encode(prefix) + [(48 + e) as byte]
  {
    Utf8Ascii(prefix);
    Utf8Concat(prefix, [DigitChar(e)]);
    assert Utf8Encode([DigitChar(e)]) == [(48 + e) as byte];
  }

  /** A digit completes twelve ASCII characters to an accepted ID exactly when it is the check digit. */
  lemma CompletedAccepted(prefix: string, e: int)
    requires |prefix| == 12 && forall k :: 0 <= k < 12 ==> prefix[k] as int < 128
    requires 0 <= e <= 9
    ensures |Utf8Encode(prefix)| == 12
    ensures CidAccepted(prefix + [DigitChar(e)]) <==> e == CheckDigit(Utf8Encode(prefix))
  {
    CompletedBytes(prefix, e);
    var p := Utf8Encode(prefix);
    var b := Utf8Encode(prefix + [DigitChar(e)]);
    assert |b| == 13 && b[12] as int == 48 + e;
    WeightedSumPrefix(b, p, 12);
    assert CheckDigit(b) == CheckDigit(p);
  }

  /** Exactly one of the ten digits completes twelve ASCII characters to an accepted ID. */
  lemma OneCheckDigit(prefix: string)
    requires |prefix| == 12 && forall k :: 0 <= k < 12 ==> prefix[k] as int < 128
    ensures |Utf8Encode(prefix)| == 12
    ensures var d := CheckDigit(Utf8Encode(prefix));
      0 <= d <= 9 && CidAccepted(prefix + [DigitChar(d)]) &&
      forall e :: 0 <= e <= 9 && e != d ==> !CidAccepted(prefix + [DigitChar(e)])
  {
    CompletedAccepted(prefix, 0);
    var d := CheckDigit(Utf8Encode(prefix));
    CompletedAccepted(prefix, d);
    forall e | 0 <= e <= 9 && e != d
      ensures !CidAccepted(prefix + [DigitChar(e)])
    {
      CompletedAccepted(prefix, e);
    }
  }

  /** Over bytes that are all '1', the weighted sum of the first `n` is the sum of their weights. */
  lemma {:induction false} WeightedSumOfOnes(b: seq<byte>, n: nat)
    requires n <= 12 && n <= |b| && forall k :: 0 <= k < n ==> b[k] == 49
    ensures 2 * WeightedSum(b, n) == n * (27 - n)
  {
    if n > 0 {
      WeightedSumOfOnes(b, n - 1);
    }
  }

  /**
   * The repository's examples: "1111111111119" is accepted, "1111111111110" is not (twelve 1s
   * weigh 90, and (11 - 90 mod 11) mod 10 is 9).
   */
  lemma CidExample()
    ensures CidAccepted("1111111111119")
    ensures !CidAccepted("1111111111110")
  {
    var prefix := "111111111111";
    OnesCheckDigit(prefix);
    CompletedAccepted(prefix, 9);
    CompletedAccepted(prefix, 0);
    assert prefix + [DigitChar(9)] == "1111111111119";
    assert prefix + [DigitChar(0)] == "1111111111110";
  }

  /** Twelve '1' characters have the check digit 9. */
  lemma OnesCheckDigit(prefix: string)
    requires |prefix| == 12 && forall k :: 0 <= k < 12 ==> prefix[k] == '1'
    ensures |Utf8Encode(prefix)| == 12 && CheckDigit(Utf8Encode(prefix)) == 9
  {
    Utf8Ascii(prefix);
    WeightedSumOfOnes(Utf8Encode(prefix), 12);
  }

  /** The weighted sum reads only the leading bytes. */
  lemma {:induction false} WeightedSumPrefix(b: seq<byte>, p: seq<byte>, n: nat)
    requires n <= 12 && n <= |p| <= |b| && p == b[..|p|]
    ensures WeightedSum(b, n) == WeightedSum(p, n)
  {
    if n > 0 {
      WeightedSumPrefix(b, p, n - 1);
      assert b[n - 1] == p[n - 1];
    }
  }
}
