/**
 * `format_date`: parse a timestamp written `Mon DD, YYYY` the way
 * `datetime.strptime(s, "%b %d, %Y")` does in the C locale, and format the
 * date as `Www, DD Mon YYYY 00:00:00 GMT`, the date-time form of section 5 of
 * RFC 822 with the four-digit year of section 5.2.14 of RFC 1123.
 */
module Dates {
  import opened Wrappers

  datatype Date = Date(year: int, month: int, day: int)

  const MonthAbbrevs: seq<string> := ["Jan", "Feb", "Mar", "Apr", "May", "Jun", "Jul", "Aug", "Sep", "Oct", "Nov", "Dec"]
  const WeekdayAbbrevs: seq<string> := ["Mon", "Tue", "Wed", "Thu", "Fri", "Sat", "Sun"]

  // ---------------------------------------------------------------------------
  // The proleptic Gregorian calendar of Python's `datetime.date`

  predicate IsLeapYear(y: int)
  {
    y % 4 == 0 && (y % 100 != 0 || y % 400 == 0)
  }

  function DaysInMonth(y: int, m: int): (n: int)
    requires 1 <= m <= 12
    ensures 28 <= n <= 31
  {
    if m == 2 then (if IsLeapYear(y) then 29 else 28)
    else if m == 4 || m == 6 || m == 9 || m == 11 then 30
    else 31
  }

  /** A date `datetime.date` accepts: years 1 to 9999 and a day that exists in its month. */
  predicate IsValidDate(d: Date)
  {
    1 <= d.year <= 9999 && 1 <= d.month <= 12 && 1 <= d.day <= DaysInMonth(d.year, d.month)
  }

  function DaysBeforeYear(y: int): int
    requires y >= 1
  {
    var p := y - 1;
    p * 365 + p / 4 - p / 100 + p / 400
  }

  /** CPython's `_DAYS_BEFORE_MONTH` table for a common year, indexed from January. */
  const DaysBeforeMonthTable: seq<int> := [0, 31, 59, 90, 120, 151, 181, 212, 243, 273, 304, 334]

  /** `_days_before_month(year, month)` */
  function DaysBeforeMonth(y: int, m: int): int
    requires 1 <= m <= 12
  {
    DaysBeforeMonthTable[m - 1] + if m > 2 && IsLeapYear(y) then 1 else 0
  }

  /** `date.toordinal()`: 1 January of year 1 is day 1. */
  function Ordinal(d: Date): int
    requires IsValidDate(d)
  {
    DaysBeforeYear(d.year) + DaysBeforeMonth(d.year, d.month) + d.day
  }

  /** `date.weekday()`: 0 is Monday, 6 is Sunday. */
  function Weekday(d: Date): (w: nat)
    requires IsValidDate(d)
    ensures w < 7
  {
    (Ordinal(d) + 6) % 7
  }

  /** The calendar day after `d`. */
  function NextDay(d: Date): Date
    requires IsValidDate(d)
  {
    if d.day < DaysInMonth(d.year, d.month) then d.(day := d.day + 1)
    else if d.month < 12 then Date(d.year, d.month + 1, 1)
    else Date(d.year + 1, 1, 1)
  }

  lemma YearLength(y: int)
    requires y >= 1
    ensures DaysBeforeYear(y + 1) == DaysBeforeYear(y) + if IsLeapYear(y) then 366 else 365
  {
    var p := y - 1;
    var a4, a100, a400 := y / 4 - p / 4, y / 100 - p / 100, y / 400 - p / 400;
    QuotientStep4(y);
    QuotientStep100(y);
    QuotientStep400(y);
    CenturyDivisibility(y);
    assert DaysBeforeYear(y + 1) - DaysBeforeYear(y) == 365 + a4 - a100 + a400;
  }

  /** A year divisible by 400 is divisible by 100, and one divisible by 100 is divisible by 4. */
  lemma CenturyDivisibility(y: int)
    ensures y % 400 == 0 ==> y % 100 == 0
    ensures y % 100 == 0 ==> y % 4 == 0
  {
    if y % 400 == 0 {
      MultipleRemainder(y / 400 * 4, 100);
    }
    if y % 100 == 0 {
      MultipleRemainder(y / 100 * 25, 4);
    }
  }

  lemma MultipleRemainder(k: int, d: int)
    requires d == 4 || d == 100
    ensures (d * k) % d == 0
  {
  }

  lemma QuotientStep4(y: int)
    ensures y / 4 == (y - 1) / 4 + (if y % 4 == 0 then 1 else 0)
  {
  }

  lemma QuotientStep100(y: int)
    ensures y / 100 == (y - 1) / 100 + (if y % 100 == 0 then 1 else 0)
  {
  }

  lemma QuotientStep400(y: int)
    ensures y / 400 == (y - 1) / 400 + (if y % 400 == 0 then 1 else 0)
  {
  }

  lemma MonthLength(y: int, m: int)
    requires 1 <= m < 12
    ensures DaysBeforeMonth(y, m + 1) == DaysBeforeMonth(y, m) + DaysInMonth(y, m)
  {
  }

  /** Ordinals count days: the next calendar day has the next ordinal. */
  lemma NextDayOrdinal(d: Date)
    requires IsValidDate(d) && d.year < 9999
    ensures IsValidDate(NextDay(d)) && Ordinal(NextDay(d)) == Ordinal(d) + 1
  {
    if d.day == DaysInMonth(d.year, d.month) {
      if d.month == 12 {
        YearLength(d.year);
      } else {
        MonthLength(d.year, d.month);
      }
    }
  }

  /** Weekdays cycle: the day after a Monday is a Tuesday, the day after a Sunday is a Monday. */
  lemma NextDayWeekday(d: Date)
    requires IsValidDate(d) && d.year < 9999
    ensures IsValidDate(NextDay(d)) && Weekday(NextDay(d)) == (Weekday(d) + 1) % 7
  {
    NextDayOrdinal(d);
    ModSeven(Ordinal(d));
  }

  lemma ModSeven(x: int)
    ensures (x + 1 + 6) % 7 == ((x + 6) % 7 + 1) % 7
  {
  }

  /** Anchors of the cycle: 1 January 1 was a Monday and 1 January 2000 a Saturday. */
  lemma WeekdayAnchors()
    ensures Weekday(Date(1, 1, 1)) == 0
    ensures Weekday(Date(2000, 1, 1)) == 5
  {
  }

  // ---------------------------------------------------------------------------
  // Formatting

  function DigitChar(n: nat): (c: char)
    requires n < 10
    ensures '0' <= c <= '9'
  {
    ('0' as int + n) as char
  }

  /** `%02d` */
  function Pad2(n: nat): (s: string)
    requires n < 100
    ensures |s| == 2
  {
    [DigitChar(n / 10), DigitChar(n % 10)]
  }

  /** `%Y` of a year below 10000, zero-padded to four digits. */
  function Pad4(n: nat): (s: string)
    requires n < 10000
    ensures |s| == 4
  {
    [DigitChar(n / 1000), DigitChar(n / 100 % 10), DigitChar(n / 10 % 10), DigitChar(n % 10)]
  }

  /** `strftime("%a, %d %b %Y 00:00:00 GMT")` */
  function Display(d: Date): (s: string)
    requires IsValidDate(d)
    ensures |s| == 29
  {
    WeekdayAbbrevs[Weekday(d)] + ", " + Pad2(d.day) + " " + MonthAbbrevs[d.month - 1] + " " + Pad4(d.year) + " 00:00:00 GMT"
  }

  // ---------------------------------------------------------------------------
  // Parsing

  predicate IsDigit(c: char)
  {
    '0' <= c <= '9'
  }

  function DigitValue(c: char): (n: nat)
    requires IsDigit(c)
    ensures n < 10
  {
    c as int - '0' as int
  }

  /** The decimal value of a string of ASCII digits, as `int()` reads it. */
  function Number(s: string): nat
    requires forall i :: 0 <= i < |s| ==> IsDigit(s[i])
  {
    if s == [] then 0 else Number(s[..|s| - 1]) * 10 + DigitValue(s[|s| - 1])
  }

  function Pow10(n: nat): (p: nat)
    ensures p >= 1
  {
    if n == 0 then 1 else 10 * Pow10(n - 1)
  }

  /** `n` digits spell a number below 10 to the `n`. */
  lemma {:induction false} NumberBelow(s: string)
    requires forall i :: 0 <= i < |s| ==> IsDigit(s[i])
    ensures Number(s) < Pow10(|s|)
    decreases |s|
  {
    if s != [] {
      NumberBelow(s[..|s| - 1]);
    }
  }

  /** The characters `\s` matches in a `str` pattern: those for which `str.isspace()` holds. */
  predicate IsSpace(c: char)
  {
    var n := c as int;
    || 0x09 <= n <= 0x0D
    || 0x1C <= n <= 0x20
    || n == 0x85 || n == 0xA0 || n == 0x1680
    || 0x2000 <= n <= 0x200A
    || n == 0x2028 || n == 0x2029 || n == 0x202F || n == 0x205F || n == 0x3000
  }

  /** Length of the run of whitespace that starts `s` (what a greedy `\s+` takes). */
  function SpaceRun(s: string): (n: nat)
    ensures n <= |s|
    ensures forall i :: 0 <= i < n ==> IsSpace(s[i])
    ensures n == |s| || !IsSpace(s[n])
  {
    if s != [] && IsSpace(s[0]) then 1 + SpaceRun(s[1..]) else 0
  }

  function Lower(c: char): char
  {
    if 'A' <= c <= 'Z' then (c as int + 32) as char else c
  }

  /** The month numbers by lower-case abbreviation, as strptime looks `%b` up. */
  const MonthByKey: map<string, int> := map[
    "jan" := 1, "feb" := 2, "mar" := 3, "apr" := 4, "may" := 5, "jun" := 6,
    "jul" := 7, "aug" := 8, "sep" := 9, "oct" := 10, "nov" := 11, "dec" := 12]

  /** `%b`: a month abbreviation matched ignoring case. */
  function MonthNumber(s: string): (r: Option<int>)
    requires |s| == 3
    ensures r.Some? ==> 1 <= r.value <= 12
  {
    var key := [Lower(s[0]), Lower(s[1]), Lower(s[2])];
    if key in MonthByKey then Some(MonthByKey[key]) else None
  }

  /** The alternatives `3[01]|[12]\d|0[1-9]` of `%d`. */
  predicate TwoDigitDay(a: char, b: char)
  {
    || (a == '3' && (b == '0' || b == '1'))
    || ((a == '1' || a == '2') && IsDigit(b))
    || (a == '0' && '1' <= b <= '9')
  }

  /**
   * How many characters `%d` takes at the start of `s` so that the `,` of the
   * format follows: 2, 1, or 0 when nothing matches. A two-digit day is tried
   * first; a single digit `[1-9]` only when it is directly followed by `,`.
   */
  function DayLength(s: string): (n: nat)
    ensures n <= 2 && (n > 0 ==> n + 1 <= |s| && s[n] == ',')
    ensures forall i :: 0 <= i < n ==> IsDigit(s[i])
  {
    if |s| >= 3 && TwoDigitDay(s[0], s[1]) && s[2] == ',' then 2
    else if |s| >= 2 && '1' <= s[0] <= '9' && s[1] == ',' then 1
    else 0
  }

  /** `,\s+(\d\d\d\d)` up to the end of the text: the year. */
  function ParseYear(t: string): (r: Option<int>)
    ensures r.Some? ==> 0 <= r.value <= 9999
  {
    var gap := SpaceRun(t);
    var digits := t[gap..];
    if gap == 0 || |digits| != 4 || !(forall i :: 0 <= i < 4 ==> IsDigit(digits[i])) then None
    else
      NumberBelow(digits);
      assert Pow10(4) == 10000;
      Some(Number(digits))
  }

  /** A day `%d` accepts reads as a number from 1 to 31. */
  lemma DayNumber(t: string, n: nat)
    requires n == DayLength(t) && n > 0
    ensures 1 <= Number(t[..n]) <= 31
  {
    var d := t[..n];
    assert d[..n - 1][..0] == [];
    if n == 2 {
      assert d[..1] == [t[0]] && d[1] == t[1] && [t[0]][..0] == [];
      assert Number(d[..1]) == DigitValue(t[0]);
      assert Number(d) == DigitValue(t[0]) * 10 + DigitValue(t[1]);
    }
  }

  /** The day, its comma and the year: the day and the year. */
  function ParseDayYear(t: string): (r: Option<(int, int)>)
    ensures r.Some? ==> 1 <= r.value.0 <= 31 && 0 <= r.value.1 <= 9999
  {
    var n := DayLength(t);
    if n == 0 then None
    else match ParseYear(t[n + 1..])
      case None => None
      case Some(y) =>
        DayNumber(t, n);
        Some((Number(t[..n]), y))
  }

  /**
   * The regular expression `(?i)(jan|…|dec)\s+(<day>),\s+(\d\d\d\d)` matched
   * against the whole of `s`, giving the year, month and day it spells.
   */
  function ParseDateText(s: string): (r: Option<Date>)
    ensures r.Some? ==> 1 <= r.value.month <= 12 && 1 <= r.value.day <= 31 && 0 <= r.value.year <= 9999
  {
    if |s| < 3 then None
    else
      var month := MonthNumber(s[..3]);
      var gap := SpaceRun(s[3..]);
      if month.None? || gap == 0 then None
      else match ParseDayYear(s[3..][gap..])
        case None => None
        case Some((d, y)) => Some(Date(y, month.value, d))
  }

  datatype DateError = NoMatch | DayOutOfRange

  /**
   * `format_date`: the parsed date and its display form, or the `ValueError`
   * strptime raises when the text does not match or names no real date.
   */
  function FormatDate(s: string): (r: Result<(Date, string), DateError>)
    ensures r.Success? <==> ParseDateText(s).Some? && IsValidDate(ParseDateText(s).value)
    ensures r.Success? ==> r.value.0 == ParseDateText(s).value && r.value.1 == Display(r.value.0)
    ensures r.Failure? ==> (r.error == NoMatch <==> ParseDateText(s).None?)
  {
    match ParseDateText(s)
    case None => Failure(NoMatch)
    case Some(d) => if IsValidDate(d) then Success((d, Display(d))) else Failure(DayOutOfRange)
  }

  // ---------------------------------------------------------------------------
  // What the parser accepts

  /** The timestamp text as the archive pages write it: `Mar 5, 2012` or `Mar 05, 2012`. */
  function DateText(d: Date, padded: bool): string
    requires 1 <= d.month <= 12 && 1 <= d.day <= 31 && 0 <= d.year <= 9999
  {
    MonthAbbrevs[d.month - 1] + " " + (if padded || d.day >= 10 then Pad2(d.day) else [DigitChar(d.day)]) + ", " + Pad4(d.year)
  }

  lemma DigitCharValue(n: nat)
    requires n < 10
    ensures DigitValue(DigitChar(n)) == n
  {
  }

  lemma NumberPad2(n: nat)
    requires n < 100
    ensures Number(Pad2(n)) == n
  {
    var s := Pad2(n);
    DigitCharValue(n / 10);
    DigitCharValue(n % 10);
    assert s[..1] == [s[0]] && s[..1][..0] == [];
    assert Number(s[..1]) == n / 10;
  }

  lemma NumberPad4(n: nat)
    requires n < 10000
    ensures Number(Pad4(n)) == n
  {
    var s := Pad4(n);
    NumberPad4Century(n);
    DigitCharValue(n / 10 % 10);
    DigitCharValue(n % 10);
    assert s[..3] == [s[0], s[1], s[2]] && s[..3][..2] == s[..2];
    assert Number(s[..3]) == n / 10;
    assert s[..4] == s;
  }

  /** The first two digits of a four-digit rendering read back as the hundreds. */
  lemma NumberPad4Century(n: nat)
    requires n < 10000
    ensures Number(Pad4(n)[..2]) == n / 100
  {
    var s := Pad4(n);
    DigitCharValue(n / 1000);
    DigitCharValue(n / 100 % 10);
    assert s[..1] == [s[0]] && s[..1][..0] == [];
    assert Number(s[..1]) == n / 1000;
    assert s[..2] == [s[0], s[1]] && s[..2][..1] == s[..1];
  }

  lemma MonthFound(m: int)
    requires 1 <= m <= 12
    ensures |MonthAbbrevs[m - 1]| == 3
    ensures MonthNumber(MonthAbbrevs[m - 1]) == Some(m)
  {
  }

  lemma ParseYearCanonical(y: nat)
    requires y < 10000
    ensures ParseYear(" " + Pad4(y)) == Some(y)
  {
    var t := " " + Pad4(y);
    assert SpaceRun(t[1..]) == 0;
    assert t[1..] == Pad4(y);
    NumberPad4(y);
  }

  lemma ParseDayYearCanonical(dayDigits: string, day: nat, y: nat)
    requires 1 <= day <= 31 && y < 10000
    requires dayDigits == Pad2(day) || (day < 10 && dayDigits == [DigitChar(day)])
    ensures ParseDayYear(dayDigits + ", " + Pad4(y)) == Some((day, y))
  {
    var t := dayDigits + ", " + Pad4(y);
    assert DayLength(t) == |dayDigits|;
    assert t[..|dayDigits|] == dayDigits;
    assert t[|dayDigits| + 1..] == " " + Pad4(y);
    ParseYearCanonical(y);
    if |dayDigits| == 2 {
      NumberPad2(day);
    } else {
      DigitCharValue(day);
      assert dayDigits[..0] == [];
      assert Number(dayDigits) == day;
    }
  }

  /** A known month, one space and a day-and-year part parse to the date those spell. */
  lemma ParseAfterMonth(m: string, rest: string)
    requires |m| == 3 && MonthNumber(m).Some?
    requires rest != [] && !IsSpace(rest[0]) && ParseDayYear(rest).Some?
    ensures ParseDateText(m + " " + rest)
      == Some(Date(ParseDayYear(rest).value.1, MonthNumber(m).value, ParseDayYear(rest).value.0))
  {
    var s := m + " " + rest;
    assert s[..3] == m;
    assert s[3..] == " " + rest;
    assert s[3..][1..] == rest;
    assert SpaceRun(s[3..]) == 1;
  }

  /** The parser reads back exactly the date that the archive text spells. */
  lemma ParseDateTextCanonical(d: Date, padded: bool)
    requires 1 <= d.month <= 12 && 1 <= d.day <= 31 && 0 <= d.year <= 9999
    ensures ParseDateText(DateText(d, padded)) == Some(d)
  {
    var dayDigits := if padded || d.day >= 10 then Pad2(d.day) else [DigitChar(d.day)];
    var rest := dayDigits + ", " + Pad4(d.year);
    var month := MonthAbbrevs[d.month - 1];
    MonthFound(d.month);
    assert DateText(d, padded) == month + " " + rest;
    ParseDayYearCanonical(dayDigits, d.day, d.year);
    assert rest[0] == dayDigits[0] && IsDigit(rest[0]);
    ParseAfterMonth(month, rest);
  }

  /** A well-formed timestamp is accepted exactly when it names a real calendar date. */
  lemma FormatDateCanonical(d: Date, padded: bool)
    requires 1 <= d.month <= 12 && 1 <= d.day <= 31 && 0 <= d.year <= 9999
    ensures FormatDate(DateText(d, padded)).Success? <==> IsValidDate(d)
    ensures IsValidDate(d) ==> FormatDate(DateText(d, padded)) == Success((d, Display(d)))
  {
    ParseDateTextCanonical(d, padded);
  }

  lemma DigitCharOf(c: char)
    requires IsDigit(c)
    ensures DigitChar(DigitValue(c)) == c
  {
  }

  /** Two ASCII digits are the `%02d` rendering of the number they spell. */
  lemma Pad2OfNumber(dd: string)
    requires |dd| == 2 && IsDigit(dd[0]) && IsDigit(dd[1])
    ensures Number(dd) < 100 && Pad2(Number(dd)) == dd
  {
    var a, b := DigitValue(dd[0]), DigitValue(dd[1]);
    assert dd[..1] == [dd[0]] && dd[..1][..0] == [];
    assert Number(dd[..1]) == a;
    assert Number(dd) == a * 10 + b;
    DigitCharOf(dd[0]);
    DigitCharOf(dd[1]);
  }

  /** The four decimal digits of a number below 10000. */
  lemma FourDigits(a: nat, b: nat, c: nat, e: nat)
    requires a < 10 && b < 10 && c < 10 && e < 10
    ensures var n := ((a * 10 + b) * 10 + c) * 10 + e;
      n < 10000 && n / 1000 == a && n / 100 % 10 == b && n / 10 % 10 == c && n % 10 == e
  {
    var h := (a * 10 + b) * 10 + c;
    var n := h * 10 + e;
    assert n / 10 == h && n % 10 == e;
    assert h / 10 == a * 10 + b && h % 10 == c;
    assert n / 100 == h / 10 by {
      assert n == (a * 10 + b) * 100 + (c * 10 + e);
    }
    assert n / 1000 == a by {
      assert n == a * 1000 + (b * 100 + c * 10 + e);
    }
  }

  /** Four ASCII digits are the `%Y` rendering of the number they spell. */
  lemma Pad4OfNumber(ys: string)
    requires |ys| == 4 && forall i :: 0 <= i < 4 ==> IsDigit(ys[i])
    ensures Number(ys) < 10000 && Pad4(Number(ys)) == ys
  {
    var a, b, c, e := DigitValue(ys[0]), DigitValue(ys[1]), DigitValue(ys[2]), DigitValue(ys[3]);
    assert ys[..1] == [ys[0]] && ys[..1][..0] == [];
    assert ys[..2][..1] == ys[..1] && ys[..3][..2] == ys[..2] && ys[..4][..3] == ys[..3] && ys[..4] == ys;
    assert Number(ys[..1]) == a;
    assert Number(ys[..2]) == a * 10 + b;
    assert Number(ys[..3]) == (a * 10 + b) * 10 + c;
    assert Number(ys) == ((a * 10 + b) * 10 + c) * 10 + e;
    FourDigits(a, b, c, e);
    DigitCharOf(ys[0]);
    DigitCharOf(ys[1]);
    DigitCharOf(ys[2]);
    DigitCharOf(ys[3]);
  }

  /** What `,\s+(\d\d\d\d)` accepts after the comma: whitespace, then the year's four digits. */
  lemma ParseYearShape(u: string, y: int)
    requires ParseYear(u) == Some(y)
    ensures 0 < SpaceRun(u) && 0 <= y < 10000 && u == u[..SpaceRun(u)] + Pad4(y)
  {
    var gap := SpaceRun(u);
    var ys := u[gap..];
    Pad4OfNumber(ys);
    assert u == u[..gap] + ys;
  }

  /** The day `%d` accepts is the one- or two-digit spelling of the day it reads. */
  lemma DayShape(t: string, n: nat)
    requires n == DayLength(t) && n > 0
    ensures 1 <= Number(t[..n]) <= 31
    ensures t[..n] == Pad2(Number(t[..n])) || (Number(t[..n]) < 10 && t[..n] == [DigitChar(Number(t[..n]))])
  {
    DayNumber(t, n);
    var dd := t[..n];
    if n == 2 {
      Pad2OfNumber(dd);
    } else {
      assert dd == [dd[0]] && dd[..0] == [];
      assert Number(dd) == DigitValue(dd[0]);
      DigitCharOf(dd[0]);
    }
  }

  /** The pieces an accepted text is cut into, and the date each piece gives. */
  lemma ParseDateTextPieces(s: string, d: Date)
    requires ParseDateText(s) == Some(d)
    ensures |s| >= 3 && MonthNumber(s[..3]) == Some(d.month)
    ensures var gap := SpaceRun(s[3..]);
      gap > 0 && ParseDayYear(s[3..][gap..]) == Some((d.day, d.year))
  {
  }

  /** `dd` is the day as `%d` reads it: two digits, or one digit for a day below 10. */
  predicate DaySpelling(dd: string, day: nat)
  {
    (day < 100 && dd == Pad2(day)) || (day < 10 && dd == [DigitChar(day)])
  }

  predicate AllSpace(w: string)
  {
    w != [] && forall i :: 0 <= i < |w| ==> IsSpace(w[i])
  }

  /**
   * `t` is the day-and-year part of the format spelled by `dd` and `w2`: the
   * day, a comma, the whitespace `w2` and the year's four digits.
   */
  predicate DayYearSpelling(t: string, day: nat, y: nat, dd: string, w2: string)
  {
    y < 10000 && t == dd + "," + w2 + Pad4(y) && AllSpace(w2) && DaySpelling(dd, day)
  }

  /**
   * `s` is the whole format spelled by the month text `m`, the whitespace
   * `w1`, the day `dd` and the whitespace `w2`, naming the date `d`.
   */
  predicate FormatSpelling(s: string, d: Date, m: string, w1: string, dd: string, w2: string)
  {
    && 0 <= d.year < 10000 && 1 <= d.day
    && s == m + w1 + dd + "," + w2 + Pad4(d.year)
    && |m| == 3 && MonthNumber(m) == Some(d.month)
    && AllSpace(w1) && AllSpace(w2) && DaySpelling(dd, d.day)
  }

  lemma ThreeParts(s: string, k: nat, g: nat)
    requires k <= |s| && g <= |s| - k
    ensures s == s[..k] + s[k..][..g] + s[k..][g..]
  {
    assert s == s[..k] + s[k..];
    assert s[k..] == s[k..][..g] + s[k..][g..];
  }

  lemma Regroup(x: string, dd: string, w: string, p: string)
    ensures x + (dd + "," + w + p) == x + dd + "," + w + p
  {
  }

  /** An accepted day-and-year part is the day, a comma, whitespace and the four-digit year. */
  lemma ParseDayYearShape(t: string, day: int, y: int) returns (dd: string, w2: string)
    requires ParseDayYear(t) == Some((day, y))
    ensures 0 <= y < 10000 && 1 <= day <= 31
    ensures DayYearSpelling(t, day, y, dd, w2)
  {
    var n := DayLength(t);
    var u := t[n + 1..];
    dd := t[..n];
    assert t == dd + [t[n]] + u;
    ParseYearShape(u, y);
    DayShape(t, n);
    w2 := u[..SpaceRun(u)];
    assert t == dd + "," + w2 + Pad4(y);
  }

  /** Pieces with the right properties, glued together, spell the format. */
  lemma Assemble(s: string, d: Date, m: string, w1: string, t: string, dd: string, w2: string)
    requires s == m + w1 + t && 0 <= d.year < 10000 && 1 <= d.day
    requires DayYearSpelling(t, d.day, d.year, dd, w2)
    requires |m| == 3 && MonthNumber(m) == Some(d.month) && AllSpace(w1)
    ensures FormatSpelling(s, d, m, w1, dd, w2)
  {
    Regroup(m + w1, dd, w2, Pad4(d.year));
  }

  /** A known month, whitespace and an accepted day-and-year part spell the format. */
  lemma SpellingOfPieces(s: string, d: Date, gap: nat) returns (m: string, w1: string, dd: string, w2: string)
    requires |s| >= 3 && MonthNumber(s[..3]) == Some(d.month)
    requires 0 < gap == SpaceRun(s[3..])
    requires ParseDayYear(s[3..][gap..]) == Some((d.day, d.year))
    ensures FormatSpelling(s, d, m, w1, dd, w2)
  {
    var rest := s[3..];
    var t := rest[gap..];
    m, w1 := s[..3], rest[..gap];
    dd, w2 := ParseDayYearShape(t, d.day, d.year);
    ThreeParts(s, 3, gap);
    assert AllSpace(w1);
    Assemble(s, d, m, w1, t, dd, w2);
  }

  /**
   * Every text the parser accepts has the shape of the format: a month
   * abbreviation, whitespace, the day as `%d` reads it, a comma, whitespace
   * and the four-digit year, with nothing before or after.
   */
  lemma ParseDateTextShape(s: string, d: Date)
    requires ParseDateText(s) == Some(d)
    ensures exists m, w1, dd, w2 :: FormatSpelling(s, d, m, w1, dd, w2)
  {
    ParseDateTextPieces(s, d);
    var m, w1, dd, w2 := SpellingOfPieces(s, d, SpaceRun(s[3..]));
    assert FormatSpelling(s, d, m, w1, dd, w2);
  }

  /** A greedy `\s+` takes a whole run of whitespace and stops at the first other character. */
  lemma {:induction false} SpaceRunOver(w: string, x: string)
    requires forall i :: 0 <= i < |w| ==> IsSpace(w[i])
    requires x != [] && !IsSpace(x[0])
    ensures SpaceRun(w + x) == |w|
    decreases |w|
  {
    if w == [] {
      assert w + x == x;
    } else {
      assert (w + x)[1..] == w[1..] + x;
      SpaceRunOver(w[1..], x);
    }
  }

  /** The year part `\s+` + four digits reads back the year. */
  lemma ParseYearOf(w: string, y: nat)
    requires AllSpace(w) && y < 10000
    ensures ParseYear(w + Pad4(y)) == Some(y)
  {
    var u := w + Pad4(y);
    SpaceRunOver(w, Pad4(y));
    assert u[|w|..] == Pad4(y);
    NumberPad4(y);
  }

  /** The day as `%d` reads it, a comma and a year part give back the day and the year. */
  lemma ParseDayYearOf(dd: string, day: nat, w: string, y: nat)
    requires DaySpelling(dd, day) && 1 <= day <= 31
    requires AllSpace(w) && y < 10000
    ensures ParseDayYear(dd + "," + w + Pad4(y)) == Some((day, y))
  {
    var t := dd + "," + w + Pad4(y);
    var u := w + Pad4(y);
    assert t == dd + "," + u;
    assert DayLength(t) == |dd|;
    assert t[..|dd|] == dd;
    assert t[|dd| + 1..] == u;
    ParseYearOf(w, y);
    if |dd| == 2 {
      NumberPad2(day);
    } else {
      DigitCharValue(day);
      assert dd == [DigitChar(day)] && dd[..0] == [];
      assert Number(dd) == Number(dd[..0]) * 10 + DigitValue(dd[0]);
    }
  }

  /** A text spelled in the shape of the format, with a day of at most 31, parses to its date. */
  lemma SpellingParses(s: string, d: Date, m: string, w1: string, dd: string, w2: string)
    requires FormatSpelling(s, d, m, w1, dd, w2) && d.day <= 31
    ensures ParseDateText(s) == Some(d)
  {
    var t := dd + "," + w2 + Pad4(d.year);
    assert s == m + (w1 + t) by {
      Regroup(m + w1, dd, w2, Pad4(d.year));
    }
    assert s[..3] == m && s[3..] == w1 + t;
    assert t[0] == dd[0] && IsDigit(dd[0]);
    SpaceRunOver(w1, t);
    assert (w1 + t)[|w1|..] == t;
    ParseDayYearOf(dd, d.day, w2, d.year);
  }

  /**
   * The parser accepts a text exactly when it has the shape of the format
   * and a day of at most 31, and then it returns the date the text spells.
   */
  lemma ParseDateTextExactly(s: string, d: Date)
    ensures ParseDateText(s) == Some(d)
      <==> d.day <= 31 && exists m, w1, dd, w2 :: FormatSpelling(s, d, m, w1, dd, w2)
  {
    if ParseDateText(s) == Some(d) {
      ParseDateTextShape(s, d);
    }
    if d.day <= 31 && exists m, w1, dd, w2 :: FormatSpelling(s, d, m, w1, dd, w2) {
      var m, w1, dd, w2 :| FormatSpelling(s, d, m, w1, dd, w2);
      SpellingParses(s, d, m, w1, dd, w2);
    }
  }

  /** 29 February is accepted exactly in leap years, 28 February always and 30 February never. */
  lemma FebruaryDays(y: int, padded: bool)
    requires 1 <= y <= 9999
    ensures FormatDate(DateText(Date(y, 2, 29), padded)).Success? <==> IsLeapYear(y)
    ensures FormatDate(DateText(Date(y, 2, 28), padded)).Success?
    ensures FormatDate(DateText(Date(y, 2, 30), padded)).Failure?
  {
    FormatDateCanonical(Date(y, 2, 29), padded);
    FormatDateCanonical(Date(y, 2, 28), padded);
    FormatDateCanonical(Date(y, 2, 30), padded);
  }

  /** `Mar 5, 2012` was a Monday. */
  lemma FormatDateExample()
    ensures FormatDate(DateText(Date(2012, 3, 5), false)) == Success((Date(2012, 3, 5), "Mon, 05 Mar 2012 00:00:00 GMT"))
  {
    var d := Date(2012, 3, 5);
    FormatDateCanonical(d, false);
    DisplayExample();
  }

  lemma DisplayExample()
    ensures Display(Date(2012, 3, 5)) == "Mon, 05 Mar 2012 00:00:00 GMT"
  {
    var d := Date(2012, 3, 5);
    assert DaysBeforeYear(2012) == 734502;
    assert Ordinal(d) == 734567;
    assert Weekday(d) == 0;
    assert Pad2(5) == "05";
    assert Pad4(2012) == "2012";
  }
}
