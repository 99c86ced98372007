/** Calendar days and the fixed `DD/MM/YYYY` text form, i.e. Go's
    `Format("02/01/2006")` and `time.Parse("02/01/2006", ...)`. */
module Calendar {
  import opened Optional
  import opened GoInt
  import opened Domain

  /** The Gregorian leap-year rule of Go's `time` package. */
  predicate IsLeap(year: int) {
    year % 4 == 0 && (year % 100 != 0 || year % 400 == 0)
  }

  function DaysIn(month: int, year: int): (n: int)
    requires 1 <= month <= 12
    ensures 28 <= n <= 31
    ensures month == 2 ==> (n == 29 <==> IsLeap(year))
  {
    if month == 2 then (if IsLeap(year) then 29 else 28)
    else if month == 4 || month == 6 || month == 9 || month == 11 then 30
    else 31
  }

  /** A day that exists: what a `time.Time` always denotes. */
  predicate IsCalendarDate(d: Date) {
    1 <= d.month <= 12 && 1 <= d.day <= DaysIn(d.month, d.year)
  }

  /** A day whose text form has exactly four year digits, so that it can be
      read back. */
  predicate IsStorable(d: Date) {
    IsCalendarDate(d) && 0 <= d.year <= 9999
  }

  /** Go's `time.appendInt`: a sign for negatives, then the magnitude padded
      with zeros to `width` digits. */
  function PadInt(x: int, width: nat): string {
    if x < 0 then "-" + ZeroPad(NatToDigits(-x), width)
    else ZeroPad(NatToDigits(x), width)
  }

  /** `Format("02/01/2006")`. */
  function Format(d: Date): string {
    PadInt(d.day, 2) + "/" + PadInt(d.month, 2) + "/" + PadInt(d.year, 4)
  }

  /** `time.Parse("02/01/2006", s)`: two day digits, '/', two month digits,
      '/', four year digits and nothing else; the month must be 1..12 and the
      day must exist in that month of that year. */
  function Parse(s: string): Option<Date> {
    if |s| == 10 && s[2] == '/' && s[5] == '/'
       && AllDigits(s[..2]) && AllDigits(s[3..5]) && AllDigits(s[6..])
    then
      var d := Date(DigitsValue(s[..2]), DigitsValue(s[3..5]), DigitsValue(s[6..]));
      if IsCalendarDate(d) then Some(d) else None
    else None
  }

  /** The text form of a storable day has the fixed layout. */
  lemma FormatLayout(d: Date)
    requires IsStorable(d)
    ensures var s := Format(d);
      && |s| == 10 && s[2] == '/' && s[5] == '/'
      && s[..2] == ZeroPad(NatToDigits(d.day), 2)
      && s[3..5] == ZeroPad(NatToDigits(d.month), 2)
      && s[6..] == ZeroPad(NatToDigits(d.year), 4)
  {
    NatToDigitsLength(d.day, 2);
    NatToDigitsLength(d.month, 2);
    NatToDigitsLength(d.year, 4);
  }

  /** Parse reads back every storable day Format writes. */
  lemma ParseFormat(d: Date)
    requires IsStorable(d)
    ensures Parse(Format(d)) == Some(d)
  {
    var s := Format(d);
    FormatLayout(d);
    PaddedValue(d.day, 2);
    PaddedValue(d.month, 2);
    PaddedValue(d.year, 4);
  }

  /** Parse accepts nothing but the exact text Format writes for a storable
      day. */
  lemma FormatParse(s: string, d: Date)
    requires Parse(s) == Some(d)
    ensures IsStorable(d) && Format(d) == s
  {
    DigitsValueBound(s[6..]);
    PaddedSpelling(s[..2]);
    PaddedSpelling(s[3..5]);
    PaddedSpelling(s[6..]);
    assert s == s[..2] + "/" + s[3..5] + "/" + s[6..];
  }

  lemma PadIntLength(x: int, width: nat)
    ensures |PadInt(x, width)| >= width
    ensures x < 0 ==> |PadInt(x, width)| > width
  {
  }

  /** A day is read back from its own text form exactly when it is storable:
      a day before year 0 or after year 9999 is written but never read. */
  lemma ParseFormatOnlyStorable(d: Date)
    ensures Parse(Format(d)).Some? <==> IsStorable(d)
  {
    if Parse(Format(d)).Some? {
      var s := Format(d);
      var a, b, c := PadInt(d.day, 2), PadInt(d.month, 2), PadInt(d.year, 4);
      PadIntLength(d.day, 2);
      PadIntLength(d.month, 2);
      PadIntLength(d.year, 4);
      assert |a| == 2 && |b| == 2 && |c| == 4;
      assert s[..2] == a && s[3..5] == b && s[6..] == c;
      PaddedValue(d.day, 2);
      PaddedValue(d.month, 2);
      PaddedValue(d.year, 4);
      DigitsValueBound(c);
      assert Parse(s) == Some(d);
    }
    if IsStorable(d) {
      ParseFormat(d);
    }
  }

  /** The text form is a bijection between storable days and the strings
      Parse accepts. */
  lemma ParseIffFormat(s: string, d: Date)
    ensures Parse(s) == Some(d) <==> IsStorable(d) && s == Format(d)
  {
    if Parse(s) == Some(d) {
      FormatParse(s, d);
    }
    if IsStorable(d) && s == Format(d) {
      ParseFormat(d);
    }
  }
}
