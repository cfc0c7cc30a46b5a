/**
 * The calendar facts of Go's `time` package the helpers rely on: proleptic Gregorian dates,
 * `time.ParseInLocation` with the layout "2006-01-02", and `AddDate` by whole years.
 * Times of day and zones play no part: every date the helpers build is at midnight in one
 * fixed zone.
 */
module GoTime {
  import opened Wrappers
  import opened GoText

  /** A calendar date; `month` 1..12, `day` 1..31. */
  datatype Date = Date(year: int, month: int, day: int)

  /** Go's `isLeap`: the Gregorian rule. */
  predicate IsLeap(year: int) {
    year % 4 == 0 && (year % 100 != 0 || year % 400 == 0)
  }

  /** The length of a month in a year (Go's `daysIn`). */
  function DaysIn(month: int, year: int): (n: int)
    ensures 28 <= n <= 31
    ensures n == 29 <==> month == 2 && IsLeap(year)
  {
    if month == 2 then (if IsLeap(year) then 29 else 28)
    else if month == 4 || month == 6 || month == 9 || month == 11 then 30
    else 31
  }

  /** A date that exists in the proleptic Gregorian calendar. */
  predicate Valid(d: Date) {
    1 <= d.month <= 12 && 1 <= d.day <= DaysIn(d.month, d.year)
  }

  /** The value of a digit string `s[i..j]`, or `-1` when it is not all digits. */
  function Field(s: string, i: nat, j: nat): (n: int)
    requires i <= j <= |s|
    ensures n >= -1
    ensures n >= 0 <==> AllDigits(s[i..j])
  {
    if AllDigits(s[i..j]) then ValueOf(s[i..j]) else -1
  }

  /**
   * The syntax of the layout "2006-01-02": exactly four digits, '-', two digits, '-', two
   * digits. The numbers are returned as they stand, whether or not they name a real date.
   */
  function IsoFields(s: string): (r: Option<Date>)
    ensures r.Some? ==> 0 <= r.value.year <= 9999 && 0 <= r.value.month <= 99 && 0 <= r.value.day <= 99
    ensures r.Some? ==> |s| == 10 && s[4] == '-' && s[7] == '-'
  {
    if |s| != 10 || s[4] != '-' || s[7] != '-' then None
    else
      var y, m, d := Field(s, 0, 4), Field(s, 5, 7), Field(s, 8, 10);
      if y < 0 || m < 0 || d < 0 then None else Some(Date(y, m, d))
  }

  /**
   * `time.ParseInLocation("2006-01-02", s, zone)`: the layout's syntax, naming a month 1..12 and
   * a day that exists in that month of that year. Year 0 is accepted; a sign or a shorter field
   * is not.
   */
  function ParseIso(s: string): (r: Option<Date>)
    ensures r.Some? ==> Valid(r.value) && 0 <= r.value.year <= 9999
    ensures r.Some? <==> IsoFields(s).Some? && Valid(IsoFields(s).value)
  {
    match IsoFields(s)
    case None => None
    case Some(t) => if Valid(t) then Some(t) else None
  }

  /** Three digit fields of the right widths, joined by '-', are read field by field. */
  lemma IsoFieldsOf(ys: string, ms: string, ds: string)
    requires |ys| == 4 && |ms| == 2 && |ds| == 2
    requires AllDigits(ys) && AllDigits(ms) && AllDigits(ds)
    ensures IsoFields(ys + "-" + ms + "-" + ds) == Some(Date(ValueOf(ys), ValueOf(ms), ValueOf(ds)))
  {
    var s := ys + "-" + ms + "-" + ds;
    assert s[0..4] == ys;
    assert s[5..7] == ms;
    assert s[8..10] == ds;
  }

  /** The layout "2006-01-02" applied to a date with a four-digit year. */
  function IsoString(d: Date): string {
    FormatInt(d.year, 4) + "-" + FormatInt(d.month, 2) + "-" + FormatInt(d.day, 2)
  }

  /** Every valid date with a four-digit year is parsed back from its own rendering. */
  lemma ParseIsoString(d: Date)
    requires Valid(d) && 0 <= d.year <= 9999
    ensures ParseIso(IsoString(d)) == Some(d)
  {
    FormatIntFixed(d.year, 4);
    FormatIntFixed(d.month, 2);
    FormatIntFixed(d.day, 2);
    IsoFieldsOf(FormatInt(d.year, 4), FormatInt(d.month, 2), FormatInt(d.day, 2));
  }

  /**
   * `t.AddDate(years, 0, 0)` on a valid date: the same month and day `years` later, except that
   * February 29 landing in a common year is normalised to March 1.
   */
  function AddYears(d: Date, years: int): (r: Date)
    requires Valid(d)
    ensures Valid(r) && r.year == d.year + years
    ensures (r.month == d.month && r.day == d.day)
              == !(d.month == 2 && d.day == 29 && !IsLeap(d.year + years))
    ensures r.month != d.month ==> r.month == 3 && r.day == 1
  {
    if d.day <= DaysIn(d.month, d.year + years) then Date(d.year + years, d.month, d.day)
    else Date(d.year + years, 3, 1)
  }
}
