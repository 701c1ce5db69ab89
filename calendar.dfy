/**
  The proleptic Gregorian day arithmetic of ECMAScript's Date (section 21.4.1 of
  ECMA-262): day numbers counted from 1970-01-01, `DayFromYear`, `MakeDay` with its month
  roll-over, `TimeClip`, and the decoding that `getUTCFullYear`, `getUTCMonth` and
  `getUTCDate` perform. Also the `YYYY-MM-DD` text both directions.
*/
module Calendar {
  import opened Wrappers
  import opened Text

  const MS_PER_DAY: int := 86_400_000
  /** TimeClip's limit: a time value further than this from the epoch is NaN. */
  const MAX_TIME: int := 8_640_000_000_000_000

  /** A calendar date; `month` counts from 1 as in the text form. */
  datatype Ymd = Ymd(year: int, month: int, day: int)

  predicate InLeapYear(y: int) {
    y % 4 == 0 && (y % 100 != 0 || y % 400 == 0)
  }

  function DaysInYear(y: int): int {
    if InLeapYear(y) then 366 else 365
  }

  /** ECMAScript's DayFromYear: the day number of January 1st of year `y`. */
  function DayFromYear(y: int): int {
    365 * (y - 1970) + (y - 1969) / 4 - (y - 1901) / 100 + (y - 1601) / 400
  }

  /** Days of year `y` before the first of month `m` (0-based). */
  function DaysBeforeMonth(y: int, m: int): int
    requires 0 <= m < 12
  {
    [0, 31, 59, 90, 120, 151, 181, 212, 243, 273, 304, 334][m]
    + (if m >= 2 && InLeapYear(y) then 1 else 0)
  }

  /** Length of month `m` (0-based) in year `y`. */
  function DaysInMonth(y: int, m: int): int
    requires 0 <= m < 12
  {
    if m == 11 then 31 else DaysBeforeMonth(y, m + 1) - DaysBeforeMonth(y, m)
  }

  predicate ValidYmd(d: Ymd) {
    1 <= d.month <= 12 && 1 <= d.day <= DaysInMonth(d.year, d.month - 1)
  }

  /** TimeClip: the time values a Date can hold. */
  predicate InTimeRange(t: int) {
    -MAX_TIME <= t <= MAX_TIME
  }

  /**
    ECMAScript's MakeDay(year, month, date): months outside 0..11 roll over into the
    neighbouring years and the day of the month is a plain offset, so both
    `MakeDay(2024, 12, 1)` and `MakeDay(2024, 11, 32)` are 2025-01-01.
  */
  function MakeDay(year: int, month: int, date: int): int {
    var ym := year + month / 12;
    var mn := month % 12;
    DayFromYear(ym) + DaysBeforeMonth(ym, mn) + date - 1
  }

  // ---------------------------------------------------------------------------
  // Year lengths and monotonicity

  /** Floor division by 4 steps up by one exactly at multiples of 4. */
  lemma Step4(y: int)
    ensures (y - 1968) / 4 == (y - 1969) / 4 + (if y % 4 == 0 then 1 else 0)
  {
    var a := y - 1969;
    var q, r := a / 4, a % 4;
    assert a == 4 * q + r;
    if r == 3 {
      assert a + 1 == 4 * (q + 1);
      assert y == 4 * (q + 493);
    } else {
      assert a + 1 == 4 * q + (r + 1);
      assert y == 4 * (q + 492) + (r + 1);
    }
  }

  lemma Step100(y: int)
    ensures (y - 1900) / 100 == (y - 1901) / 100 + (if y % 100 == 0 then 1 else 0)
  {
    var a := y - 1901;
    var q, r := a / 100, a % 100;
    assert a == 100 * q + r;
    if r == 99 {
      assert a + 1 == 100 * (q + 1);
      assert y == 100 * (q + 20);
    } else {
      assert a + 1 == 100 * q + (r + 1);
      assert y == 100 * (q + 19) + (r + 1);
    }
  }

  lemma Step400(y: int)
    ensures (y - 1600) / 400 == (y - 1601) / 400 + (if y % 400 == 0 then 1 else 0)
  {
    var a := y - 1601;
    var q, r := a / 400, a % 400;
    assert a == 400 * q + r;
    if r == 399 {
      assert a + 1 == 400 * (q + 1);
      assert y == 400 * (q + 5);
    } else {
      assert a + 1 == 400 * q + (r + 1);
      assert y == 400 * (q + 4) + (r + 1);
    }
  }

  /** Consecutive Januaries are a year length apart. */
  lemma YearStep(y: int)
    ensures DayFromYear(y + 1) == DayFromYear(y) + DaysInYear(y)
  {
    Step4(y);
    Step100(y);
    Step400(y);
    DivisorChain(y);
    var a := if y % 4 == 0 then 1 else 0;
    var b := if y % 100 == 0 then 1 else 0;
    var c := if y % 400 == 0 then 1 else 0;
    assert DayFromYear(y + 1) == DayFromYear(y) + 365 + a - b + c;
  }

  /** A multiple of 400 is one of 100, and a multiple of 100 is one of 4. */
  lemma DivisorChain(y: int)
    ensures y % 400 == 0 ==> y % 100 == 0
    ensures y % 100 == 0 ==> y % 4 == 0
  {
    if y % 400 == 0 {
      Multiple400(y);
    }
    if y % 100 == 0 {
      Multiple100(y);
    }
  }

  lemma Multiple400(y: int)
    requires y % 400 == 0
    ensures y % 100 == 0
  {
    var q := y / 400;
    assert y == 100 * (4 * q);
  }

  lemma Multiple100(y: int)
    requires y % 100 == 0
    ensures y % 4 == 0
  {
    var q := y / 100;
    assert y == 4 * (25 * q);
  }

  /** Within one year, MakeDay is a plain sum of offsets. */
  lemma MakeDayInYear(y: int, m: int, date: int)
    requires 0 <= m < 12
    ensures MakeDay(y, m, date) == DayFromYear(y) + DaysBeforeMonth(y, m) + date - 1
  {
    assert m / 12 == 0 && m % 12 == m;
  }

  lemma {:induction false} DayFromYearMonotone(a: int, b: int)
    requires a < b
    ensures DayFromYear(a) + DaysInYear(a) <= DayFromYear(b)
    decreases b - a
  {
    YearStep(a);
    if a + 1 < b {
      DayFromYearMonotone(a + 1, b);
      YearStep(a + 1);
    }
  }

  lemma MonthTable(y: int)
    ensures DaysBeforeMonth(y, 11) + 31 == DaysInYear(y)
    ensures forall m :: 0 <= m < 11 ==> DaysBeforeMonth(y, m) < DaysBeforeMonth(y, m + 1)
    ensures forall m :: 0 <= m < 12 ==> 28 <= DaysInMonth(y, m) <= 31
  {
  }

  // ---------------------------------------------------------------------------
  // Decoding a day number

  function YearUp(z: int, y: int): (r: int)
    requires DayFromYear(y) <= z
    ensures DayFromYear(r) <= z < DayFromYear(r + 1)
    decreases z - DayFromYear(y)
  {
    YearStep(y);
    if z < DayFromYear(y + 1) then y else YearUp(z, y + 1)
  }

  function YearDown(z: int, y: int): (r: int)
    requires z < DayFromYear(y + 1)
    ensures DayFromYear(r) <= z < DayFromYear(r + 1)
    decreases DayFromYear(y + 1) - z
  {
    YearStep(y);
    if DayFromYear(y) <= z then y else YearDown(z, y - 1)
  }

  /** ECMAScript's YearFromTime on a day number: the year whose span holds day `z`. */
  function YearOfDay(z: int): (y: int)
    ensures DayFromYear(y) <= z < DayFromYear(y + 1)
  {
    if z >= 0 then YearUp(z, 1970) else YearDown(z, 1969)
  }

  /** The year containing a day is the only one whose span holds it. */
  lemma YearOfDayUnique(z: int, y: int)
    requires DayFromYear(y) <= z < DayFromYear(y + 1)
    ensures YearOfDay(z) == y
  {
    var r := YearOfDay(z);
    YearStep(y);
    YearStep(r);
    if r < y {
      DayFromYearMonotone(r, y);
    } else if y < r {
      DayFromYearMonotone(y, r);
    }
  }

  /** The month (0-based, at most `m`) whose span holds day-of-year `doy`. */
  function MonthOfDoy(y: int, doy: int, m: int): (r: int)
    requires 0 <= doy && 0 <= m < 12
    ensures 0 <= r <= m && DaysBeforeMonth(y, r) <= doy
    ensures forall k :: r < k <= m ==> doy < DaysBeforeMonth(y, k)
    decreases m
  {
    if DaysBeforeMonth(y, m) <= doy then m else MonthOfDoy(y, doy, m - 1)
  }

  /** Where day-of-year `doy` falls: its month (0-based) and day of the month. */
  lemma MonthOfDoyFits(y: int, doy: int)
    requires 0 <= doy < DaysInYear(y)
    ensures var m := MonthOfDoy(y, doy, 11);
      1 <= doy - DaysBeforeMonth(y, m) + 1 <= DaysInMonth(y, m)
  {
    MonthTable(y);
    var m := MonthOfDoy(y, doy, 11);
    if m < 11 {
      assert doy < DaysBeforeMonth(y, m + 1);
    }
  }

  /** `getUTCFullYear`, `getUTCMonth() + 1` and `getUTCDate` of day number `z`. */
  function DecodeDay(z: int): (d: Ymd)
    ensures ValidYmd(d)
    ensures MakeDay(d.year, d.month - 1, d.day) == z
  {
    DayOfYearBounds(z);
    DecodeInYear(YearOfDay(z), z - DayFromYear(YearOfDay(z)))
  }

  /** A day's offset into its year is within the year's length. */
  lemma DayOfYearBounds(z: int)
    ensures 0 <= z - DayFromYear(YearOfDay(z)) < DaysInYear(YearOfDay(z))
  {
    YearStep(YearOfDay(z));
  }

  /** The date of day-of-year `doy` in year `y`. */
  function DecodeInYear(y: int, doy: int): (d: Ymd)
    requires 0 <= doy < DaysInYear(y)
    ensures ValidYmd(d) && d.year == y
    ensures MakeDay(d.year, d.month - 1, d.day) == DayFromYear(y) + doy
  {
    var m := MonthOfDoy(y, doy, 11);
    var day := doy - DaysBeforeMonth(y, m) + 1;
    MonthOfDoyFits(y, doy);
    MakeDayInYear(y, m, day);
    assert MakeDay(y, (m + 1) - 1, day) == DayFromYear(y) + doy;
    Ymd(y, m + 1, day)
  }

  /** A day-of-year inside month `m`'s span is found in month `m`. */
  lemma MonthOfDoyUnique(y: int, m: int, day: int)
    requires 0 <= m < 12 && 1 <= day <= DaysInMonth(y, m)
    ensures MonthOfDoy(y, DaysBeforeMonth(y, m) + day - 1, 11) == m
  {
    var doy := DaysBeforeMonth(y, m) + day - 1;
    MonthTable(y);
    var r := MonthOfDoy(y, doy, 11);
    if r > m {
      MonthsIncreasing(y, m + 1, r);
    }
  }

  /** Encoding a valid date and decoding it again gives the date back. */
  lemma DecodeMakeDay(d: Ymd)
    requires ValidYmd(d)
    ensures DecodeDay(MakeDay(d.year, d.month - 1, d.day)) == d
  {
    var y, m := d.year, d.month - 1;
    var z := MakeDay(y, m, d.day);
    MakeDayInYear(y, m, d.day);
    MonthTable(y);
    YearStep(y);
    MonthsIncreasing(y, m, 11);
    YearOfDayUnique(z, y);
    MonthOfDoyUnique(y, m, d.day);
  }

  lemma {:induction false} MonthsIncreasing(y: int, a: int, b: int)
    requires 0 <= a <= b < 12
    ensures DaysBeforeMonth(y, a) <= DaysBeforeMonth(y, b)
    decreases b - a
  {
    MonthTable(y);
    if a < b {
      MonthsIncreasing(y, a + 1, b);
    }
  }

  // ---------------------------------------------------------------------------
  // The YYYY-MM-DD text

  /** Two-digit zero padding, `n.toString().padStart(2, '0')`. */
  function Pad2(n: int): string {
    PadStart(DecimalString(n), 2, '0')
  }

  /** The `${year}-${mm}-${dd}` text the registry builds from a decoded date. */
  function IsoDayString(d: Ymd): string {
    DecimalString(d.year) + "-" + Pad2(d.month) + "-" + Pad2(d.day)
  }

  predicate AllDigits(s: string) {
    forall i :: 0 <= i < |s| ==> IsDigit(s[i])
  }

  /** The year, month and day fields of text shaped exactly `DDDD-DD-DD`. */
  function IsoFields(text: string): (r: Option<Ymd>)
    ensures r.Some? ==> 0 <= r.value.year <= 9999 && 0 <= r.value.month <= 99 && 0 <= r.value.day <= 99
  {
    if |text| == 10 && text[4] == '-' && text[7] == '-'
       && AllDigits(text[..4]) && AllDigits(text[5..7]) && AllDigits(text[8..])
    then
      FieldBound(text[..4]);
      FieldBound(text[5..7]);
      FieldBound(text[8..]);
      Some(Ymd(DigitsValue(text[..4]), DigitsValue(text[5..7]), DigitsValue(text[8..])))
    else None
  }

  lemma FieldBound(ds: string)
    requires AllDigits(ds) && |ds| <= 4
    ensures DigitsValue(ds) < if |ds| <= 2 then 100 else 10000
  {
    if ds != [] {
      assert AllDigits(ds[..|ds| - 1]);
      FieldBound(ds[..|ds| - 1]);
    }
  }

  /**
    `new Date(text).getTime()` for the ISO date-only form `YYYY-MM-DD`, which
    ECMAScript reads as UTC midnight. Any other text, and a month or day outside the
    calendar, is treated as unparseable.
  */
  function ParseIsoDate(text: string): (r: Option<int>)
    ensures r.Some? ==> IsoFields(text).Some? && ValidYmd(IsoFields(text).value)
  {
    match IsoFields(text)
    case Some(d) =>
      if ValidYmd(d) then Some(MakeDay(d.year, d.month - 1, d.day) * MS_PER_DAY) else None
    case None => None
  }

  /** The three fields of `a-b-c` are found back where `IsoFields` looks for them. */
  lemma IsoFieldsOfJoin(d: Ymd, a: string, b: string, c: string)
    requires |a| == 4 && |b| == 2 && |c| == 2
    requires AllDigits(a) && AllDigits(b) && AllDigits(c)
    requires DigitsValue(a) == d.year && DigitsValue(b) == d.month && DigitsValue(c) == d.day
    ensures IsoFields(a + "-" + b + "-" + c) == Some(d)
  {
    var text := a + "-" + b + "-" + c;
    assert text[..4] == a;
    assert text[5..7] == b;
    assert text[8..] == c;
  }

  lemma Pad2Shape(n: int)
    requires 1 <= n <= 99
    ensures |Pad2(n)| == 2 && AllDigits(Pad2(n)) && DigitsValue(Pad2(n)) == n
  {
    var ds := NatDigits(n);
    assert |ds| <= 2 by {
      if n >= 10 {
        assert NatDigits(n / 10) == [DigitChar(n / 10)];
      }
    }
    PaddedValue(ds, 2);
    DigitsValueOfNatDigits(n);
  }

  lemma FourDigits(y: int)
    requires 1000 <= y <= 9999
    ensures |DecimalString(y)| == 4 && AllDigits(DecimalString(y)) && DigitsValue(DecimalString(y)) == y
  {
    assert NatDigits(y / 1000) == [DigitChar(y / 1000)];
    assert |NatDigits(y / 100)| == 2;
    assert |NatDigits(y / 10)| == 3;
    DigitsValueOfNatDigits(y);
  }

  /** The text built from a four-digit-year date is read back as that date's UTC midnight. */
  lemma ParseIsoDayString(d: Ymd)
    requires ValidYmd(d) && 1000 <= d.year <= 9999
    ensures ParseIsoDate(IsoDayString(d)) == Some(MakeDay(d.year, d.month - 1, d.day) * MS_PER_DAY)
  {
    MonthTable(d.year);
    FourDigits(d.year);
    Pad2Shape(d.month);
    Pad2Shape(d.day);
    var a, b, c := DecimalString(d.year), Pad2(d.month), Pad2(d.day);
    assert IsoDayString(d) == a + "-" + b + "-" + c;
    IsoFieldsOfJoin(d, a, b, c);
  }
}
