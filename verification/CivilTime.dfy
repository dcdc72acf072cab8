/** Civil dates and wall-clock times as strings: the arithmetic of time.util over the Date of section
    21.4.1 of ECMA-262, on whole days. */
module CivilTime {
  import opened Decimal
  import Rows

  // ── Days and years ──

  predicate Leap(y: int) {
    y % 4 == 0 && (y % 100 != 0 || y % 400 == 0)
  }

  function DaysInYear(y: int): int {
    if Leap(y) then 366 else 365
  }

  /** The day number of January 1, by the lengths of the years between it and 1970. */
  function DayFromYear(y: int): int
    decreases if y < 1970 then 1970 - y else y - 1970
  {
    if y == 1970 then 0
    else if y > 1970 then DayFromYear(y - 1) + DaysInYear(y - 1)
    else DayFromYear(y + 1) - DaysInYear(y)
  }

  lemma YearStep(y: int)
    ensures DayFromYear(y + 1) == DayFromYear(y) + DaysInYear(y)
  {
  }

  function ClosedForm(y: int): int {
    365 * (y - 1970) + (y - 1969) / 4 - (y - 1901) / 100 + (y - 1601) / 400
  }

  lemma Step4(x: int)
    ensures (x + 1) / 4 - x / 4 == if (x + 1) % 4 == 0 then 1 else 0
  {
  }

  lemma Step100(x: int)
    ensures (x + 1) / 100 - x / 100 == if (x + 1) % 100 == 0 then 1 else 0
  {
  }

  lemma Step400(x: int)
    ensures (x + 1) / 400 - x / 400 == if (x + 1) % 400 == 0 then 1 else 0
  {
  }

  lemma Residue4(y: int)
    ensures (y - 1968) % 4 == 0 <==> y % 4 == 0
  {
  }

  lemma Residue100(y: int)
    ensures (y - 1900) % 100 == 0 <==> y % 100 == 0
  {
  }

  lemma Residue400(y: int)
    ensures (y - 1600) % 400 == 0 <==> y % 400 == 0
  {
  }

  lemma Nested(y: int)
    ensures y % 400 == 0 ==> y % 100 == 0
    ensures y % 100 == 0 ==> y % 4 == 0
  {
  }

  lemma ClosedFormStep(y: int)
    ensures ClosedForm(y + 1) == ClosedForm(y) + DaysInYear(y)
  {
    Step4(y - 1969);
    Step100(y - 1901);
    Step400(y - 1601);
    Residue4(y);
    Residue100(y);
    Residue400(y);
    Nested(y);
  }

  /** The closed form by which ECMA-262 defines DayFromYear. */
  lemma {:induction false} DayFromYearClosedForm(y: int)
    ensures DayFromYear(y) == ClosedForm(y)
    decreases if y < 1970 then 1970 - y else y - 1970
  {
    if y > 1970 {
      DayFromYearClosedForm(y - 1);
      ClosedFormStep(y - 1);
    } else if y < 1970 {
      DayFromYearClosedForm(y + 1);
      ClosedFormStep(y);
    }
  }

  lemma {:induction false} YearsAscend(y: int, z: int)
    requires y <= z
    ensures DayFromYear(y) + 365 * (z - y) <= DayFromYear(z)
    decreases z - y
  {
    if y < z {
      YearsAscend(y, z - 1);
      YearStep(z - 1);
    }
  }

  /** YearFromTime by day: the largest year that has begun, sought from `y` upwards or downwards. */
  function YearUp(y: int, day: int): (r: int)
    requires DayFromYear(y) <= day
    ensures DayFromYear(r) <= day < DayFromYear(r + 1)
    decreases day - DayFromYear(y)
  {
    YearStep(y);
    if day < DayFromYear(y + 1) then y else YearUp(y + 1, day)
  }

  function YearDown(y: int, day: int): (r: int)
    requires day < DayFromYear(y)
    ensures DayFromYear(r) <= day < DayFromYear(r + 1)
    decreases DayFromYear(y) - day
  {
    YearStep(y - 1);
    if DayFromYear(y - 1) <= day then y - 1 else YearDown(y - 1, day)
  }

  function YearOf(day: int): (r: int)
    ensures DayFromYear(r) <= day < DayFromYear(r + 1)
  {
    if 0 <= day then YearUp(1970, day) else YearDown(1970, day)
  }

  // ── Months ──

  /** The day within its year on which month `m` (1 to 12) begins, 13 being the next year's January. */
  function MonthStart(m: int, leap: bool): int
    requires 1 <= m <= 13
  {
    var l := if leap then 1 else 0;
    if m == 1 then 0
    else if m == 2 then 31
    else if m == 3 then 59 + l
    else if m == 4 then 90 + l
    else if m == 5 then 120 + l
    else if m == 6 then 151 + l
    else if m == 7 then 181 + l
    else if m == 8 then 212 + l
    else if m == 9 then 243 + l
    else if m == 10 then 273 + l
    else if m == 11 then 304 + l
    else if m == 12 then 334 + l
    else 365 + l
  }

  function DaysInMonth(y: int, m: int): int
    requires 1 <= m <= 12
  {
    if m == 2 then if Leap(y) then 29 else 28
    else if m == 4 || m == 6 || m == 9 || m == 11 then 30
    else 31
  }

  lemma MonthStep(y: int, m: int)
    requires 1 <= m <= 12
    ensures MonthStart(m + 1, Leap(y)) == MonthStart(m, Leap(y)) + DaysInMonth(y, m)
  {
  }

  /** MonthFromTime by day within the year. */
  function MonthOf(within: int, leap: bool): (m: int)
    requires 0 <= within < if leap then 366 else 365
    ensures 1 <= m <= 12 && MonthStart(m, leap) <= within < MonthStart(m + 1, leap)
  {
    if within < MonthStart(2, leap) then 1
    else if within < MonthStart(3, leap) then 2
    else if within < MonthStart(4, leap) then 3
    else if within < MonthStart(5, leap) then 4
    else if within < MonthStart(6, leap) then 5
    else if within < MonthStart(7, leap) then 6
    else if within < MonthStart(8, leap) then 7
    else if within < MonthStart(9, leap) then 8
    else if within < MonthStart(10, leap) then 9
    else if within < MonthStart(11, leap) then 10
    else if within < MonthStart(12, leap) then 11
    else 12
  }

  // ── Dates ──

  datatype Civil = Civil(year: int, month: int, day: int) {
    predicate Valid() {
      1 <= month <= 12 && 1 <= day <= DaysInMonth(year, month)
    }
  }

  /** MakeDay. */
  function DayNumber(c: Civil): (day: int)
    requires c.Valid()
    ensures DayFromYear(c.year) <= day < DayFromYear(c.year + 1)
  {
    YearStep(c.year);
    MonthStep(c.year, c.month);
    DayFromYear(c.year) + MonthStart(c.month, Leap(c.year)) + c.day - 1
  }

  /** YearFromTime, MonthFromTime and DateFromTime. */
  function CivilOf(day: int): (c: Civil)
    ensures c.Valid() && DayNumber(c) == day
  {
    var y := YearOf(day);
    YearStep(y);
    var within := day - DayFromYear(y);
    var m := MonthOf(within, Leap(y));
    MonthStep(y, m);
    Civil(y, m, within - MonthStart(m, Leap(y)) + 1)
  }

  lemma MonthsMeet(m: int, n: int, leap: bool)
    requires 1 <= m < n <= 12
    ensures MonthStart(m + 1, leap) <= MonthStart(n, leap)
  {
  }

  /** Dates compared field by field. */
  predicate Before(a: Civil, b: Civil) {
    || a.year < b.year
    || (a.year == b.year && a.month < b.month)
    || (a.year == b.year && a.month == b.month && a.day < b.day)
  }

  lemma BeforeIsEarlier(a: Civil, b: Civil)
    requires a.Valid() && b.Valid() && Before(a, b)
    ensures DayNumber(a) < DayNumber(b)
  {
    if a.year < b.year {
      YearsAscend(a.year + 1, b.year);
    } else if a.month < b.month {
      MonthStep(a.year, a.month);
      MonthsMeet(a.month, b.month, Leap(a.year));
    }
  }

  /** The order of dates is the order of their day numbers. */
  lemma OrderOfDays(a: Civil, b: Civil)
    requires a.Valid() && b.Valid()
    ensures Before(a, b) <==> DayNumber(a) < DayNumber(b)
  {
    if Before(a, b) {
      BeforeIsEarlier(a, b);
    } else if Before(b, a) {
      BeforeIsEarlier(b, a);
    } else {
      assert a == b;
    }
  }

  lemma CivilOfDayNumber(c: Civil)
    requires c.Valid()
    ensures CivilOf(DayNumber(c)) == c
  {
    var d := CivilOf(DayNumber(c));
    OrderOfDays(c, d);
    OrderOfDays(d, c);
  }

  /** The first day that does not come before the fields of `c`, which need not be a date. */
  function FirstFrom(c: Civil): int {
    if c.month < 1 then DayFromYear(c.year)
    else if c.month > 12 then DayFromYear(c.year + 1)
    else if c.day < 1 then DayNumber(Civil(c.year, c.month, 1))
    else if c.day > DaysInMonth(c.year, c.month) then DayNumber(Civil(c.year, c.month, DaysInMonth(c.year, c.month))) + 1
    else DayNumber(c)
  }

  /** The last day that does not come after the fields of `c`. */
  function LastTo(c: Civil): int {
    if c.Valid() then DayNumber(c) else FirstFrom(c) - 1
  }

  lemma WithinYear(v: Civil, y: int)
    requires v.Valid()
    ensures v.year < y <==> DayNumber(v) < DayFromYear(y)
  {
    if v.year < y {
      YearsAscend(v.year + 1, y);
    } else {
      YearsAscend(y, v.year);
    }
  }

  /** A date comes before the fields exactly when its day is below the first day from them. */
  lemma BeforeFieldsIff(v: Civil, c: Civil)
    requires v.Valid()
    ensures Before(v, c) <==> DayNumber(v) < FirstFrom(c)
  {
    if c.month < 1 {
      WithinYear(v, c.year);
    } else if c.month > 12 {
      WithinYear(v, c.year + 1);
    } else if c.day < 1 {
      OrderOfDays(v, Civil(c.year, c.month, 1));
    } else if c.day > DaysInMonth(c.year, c.month) {
      OrderOfDays(Civil(c.year, c.month, DaysInMonth(c.year, c.month)), v);
    } else {
      OrderOfDays(v, c);
    }
  }

  lemma AfterFieldsIff(c: Civil, v: Civil)
    requires v.Valid()
    ensures Before(c, v) <==> LastTo(c) < DayNumber(v)
  {
    if c.Valid() {
      OrderOfDays(c, v);
    } else {
      BeforeFieldsIff(v, c);
    }
  }

  // ── Date strings ──

  /** Four digits, a hyphen, two digits, a hyphen, two digits: the pattern of day-range. */
  predicate DayPattern(s: string) {
    |s| == 10 && s[4] == '-' && s[7] == '-' && AllDigits(s[..4]) && AllDigits(s[5..7]) && AllDigits(s[8..])
  }

  function Parse(s: string): Civil
    requires DayPattern(s)
  {
    Civil(Value(s[..4]), Value(s[5..7]), Value(s[8..]))
  }

  /** A string `Date` reads as the day it names. */
  predicate ValidDay(s: string) {
    DayPattern(s) && Parse(s).Valid()
  }

  /** dateToYmd: month and day are padded, the year is not. */
  function Format(c: Civil): string {
    Text(c.year) + "-" + Pad2(Text(c.month)) + "-" + Pad2(Text(c.day))
  }

  /** The last day, before and after 1970, that a time value can stand for (section 21.4.1.1). */
  const LAST_DAY := 100_000_000

  /** dateToYmd of midnight of a day. */
  function Print(day: int): string {
    if -LAST_DAY <= day <= LAST_DAY then Format(CivilOf(day)) else "NaN-NaN-NaN"
  }

  function DayOf(s: string): int
    requires ValidDay(s)
  {
    DayNumber(Parse(s))
  }

  function AddDaysISO(s: string, days: int): string
    requires ValidDay(s)
  {
    Print(DayOf(s) + days)
  }

  /** `new Date(s).getUTCDay()`: 0 is Sunday. */
  function WeekdayOf(s: string): int
    requires ValidDay(s)
  {
    (DayOf(s) + 4) % 7
  }

  const DAY_MS := 86_400_000

  /** `Math.round(n / d)` for a positive divisor. */
  function RoundDiv(n: int, d: int): int
    requires 0 < d
  {
    (2 * n + d) / (2 * d)
  }

  function DayDiff(a: string, b: string): int
    requires ValidDay(a) && ValidDay(b)
  {
    RoundDiv(DayOf(a) * DAY_MS - DayOf(b) * DAY_MS, DAY_MS)
  }

  /** A four-digit year without leading zeros, which `dateToYmd` can print back. */
  predicate FullYear(y: int) {
    1000 <= y <= 9999
  }

  lemma FourDigits(s: string)
    requires |s| == 4 && AllDigits(s)
    ensures 0 <= Value(s) <= 9999
    ensures FullYear(Value(s)) ==> Text(Value(s)) == s
  {
    TwoDigits(s[..2]);
    assert s[..3][..2] == s[..2] && s[..4] == s;
    assert Value(s[..3]) == 10 * Value(s[..2]) + (s[2] as int - '0' as int);
    assert Value(s) == 10 * Value(s[..3]) + (s[3] as int - '0' as int);
    if FullYear(Value(s)) {
      FourDigitLength(Value(s));
      ValueOfDigits(Value(s));
      OrderOfDigits(s, Digits(Value(s)));
    }
  }

  /** Printing what was read gives the string back. */
  lemma FormatOfParse(s: string)
    requires ValidDay(s) && FullYear(Parse(s).year)
    ensures Format(Parse(s)) == s
  {
    FourDigits(s[..4]);
    Pad2OfTwoDigits(s[5..7]);
    Pad2OfTwoDigits(s[8..]);
    assert s == s[..4] + "-" + s[5..7] + "-" + s[8..];
  }

  /** What is printed is a valid date string, of the date printed, exactly when the year has four digits. */
  lemma ParseOfFormat(c: Civil)
    requires c.Valid()
    ensures ValidDay(Format(c)) <==> FullYear(c.year)
    ensures FullYear(c.year) ==> Parse(Format(c)) == c
  {
    var y, m, d := Text(c.year), Pad2(Text(c.month)), Pad2(Text(c.day));
    TwoDigitText(c.month);
    TwoDigitText(c.day);
    assert Format(c) == y + "-" + m + "-" + d;
    assert |Format(c)| == |y| + 6;
    if c.year >= 0 {
      FourDigitLength(c.year);
      if FullYear(c.year) {
        ValueOfDigits(c.year);
        assert Format(c)[..4] == y && Format(c)[5..7] == m && Format(c)[8..] == d;
      }
    } else {
      assert Format(c)[0] == '-';
      if |y| == 4 {
        assert !IsDigit(Format(c)[..4][0]);
      }
    }
  }

  // ── The laws of addDaysISO, dayDiff and weekdayOf ──

  /** The days of the years 1000 to 9999. */
  const FIRST_FULL_DAY := -354285
  const LAST_FULL_DAY := 2932896

  lemma FullYearBounds()
    ensures DayFromYear(1000) == FIRST_FULL_DAY && DayFromYear(10000) == LAST_FULL_DAY + 1
  {
    DayFromYearClosedForm(1000);
    DayFromYearClosedForm(10000);
  }

  lemma YearOrder(y: int, z: int, day: int)
    requires DayFromYear(y) <= day < DayFromYear(y + 1)
    ensures y < z <==> day < DayFromYear(z)
  {
    if y < z {
      YearsAscend(y + 1, z);
    } else {
      YearsAscend(z, y);
    }
  }

  lemma FullYearDays(day: int)
    ensures FullYear(CivilOf(day).year) <==> FIRST_FULL_DAY <= day <= LAST_FULL_DAY
  {
    FullYearBounds();
    YearOrder(YearOf(day), 1000, day);
    YearOrder(YearOf(day), 10000, day);
  }

  /** What is printed of a day is a valid date string, of that day, exactly in the years 1000 to 9999. */
  lemma PrintValidIff(day: int)
    ensures ValidDay(Print(day)) <==> FIRST_FULL_DAY <= day <= LAST_FULL_DAY
    ensures ValidDay(Print(day)) <==> FullYear(CivilOf(day).year)
    ensures ValidDay(Print(day)) ==> DayOf(Print(day)) == day
  {
    FullYearDays(day);
    ParseOfFormat(CivilOf(day));
    assert "NaN-NaN-NaN"[4] == 'N';
  }

  lemma PrintOfDay(s: string)
    requires ValidDay(s) && FullYear(Parse(s).year)
    ensures Print(DayOf(s)) == s && FIRST_FULL_DAY <= DayOf(s) <= LAST_FULL_DAY
  {
    CivilOfDayNumber(Parse(s));
    FullYearDays(DayOf(s));
    FormatOfParse(s);
  }

  /** `addDaysISO` gives a valid date string exactly when the day it comes to lies in the years 1000 to
      9999; below, the year loses its leading zeros. */
  lemma AddDaysValidIff(s: string, n: int)
    requires ValidDay(s)
    ensures ValidDay(AddDaysISO(s, n)) <==> FullYear(CivilOf(DayOf(s) + n).year)
    ensures ValidDay(AddDaysISO(s, n)) ==> DayOf(AddDaysISO(s, n)) == DayOf(s) + n
  {
    AddedIsPrinted(s, n, DayOf(s) + n);
    PrintValidIff(DayOf(s) + n);
  }

  lemma AddedIsPrinted(s: string, n: int, day: int)
    requires ValidDay(s) && day == DayOf(s) + n
    ensures AddDaysISO(s, n) == Print(day)
  {
  }

  /** Below the year 1000 adding nothing is not nothing: the zero is dropped, and what is left is no date. */
  lemma EarlyYearsLoseTheirZero(s: string)
    requires ValidDay(s) && Parse(s).year < 1000
    ensures !ValidDay(AddDaysISO(s, 0))
  {
    CivilOfDayNumber(Parse(s));
    PrintValidIff(DayOf(s));
  }

  /** One such date. */
  lemma NewYearsEve999()
    ensures ValidDay("0999-12-31") && !ValidDay(AddDaysISO("0999-12-31", 0))
  {
    var s := "0999-12-31";
    assert s[..4] == "0999" && s[5..7] == "12" && s[8..] == "31";
    TwoDigits("12");
    TwoDigits("31");
    LeadingZero("999");
    assert "0" + "999" == "0999";
    assert |"999"| == 3 && "999"[..2] == "99";
    TwoDigits("99");
    assert Value("999") == 999;
    EarlyYearsLoseTheirZero(s);
  }

  lemma ActsFrom(s: string, t: string, a: int, b: int)
    requires ValidDay(s) && ValidDay(t) && DayOf(t) == DayOf(s) + a
    ensures AddDaysISO(t, b) == AddDaysISO(s, a + b)
  {
    assert DayOf(t) + b == DayOf(s) + (a + b);
  }

  lemma AddNone(s: string)
    requires ValidDay(s) && FullYear(Parse(s).year)
    ensures AddDaysISO(s, 0) == s
  {
    PrintOfDay(s);
  }

  /** Days are added as integers are: none changes nothing, and two steps are their sum. */
  lemma AddDaysIsAction(s: string, a: int, b: int)
    requires ValidDay(s) && ValidDay(AddDaysISO(s, a))
    ensures AddDaysISO(AddDaysISO(s, a), b) == AddDaysISO(s, a + b)
    ensures FullYear(Parse(s).year) ==> AddDaysISO(s, 0) == s
  {
    AddDaysValidIff(s, a);
    ActsFrom(s, AddDaysISO(s, a), a, b);
    if FullYear(Parse(s).year) {
      AddNone(s);
    }
  }

  /** Taking `n` days back undoes adding them. */
  lemma AddDaysUndone(s: string, n: int)
    requires ValidDay(s) && FullYear(Parse(s).year) && ValidDay(AddDaysISO(s, n))
    ensures AddDaysISO(AddDaysISO(s, n), -n) == s
  {
    var t := AddDaysISO(s, n);
    AddDaysValidIff(s, n);
    ActsFrom(s, t, n, -n);
    AddNone(s);
  }

  /** The rounding is exact on whole days. */
  lemma RoundWholeDays(x: int, y: int)
    ensures RoundDiv(x * DAY_MS - y * DAY_MS, DAY_MS) == x - y
  {
    assert x * DAY_MS - y * DAY_MS == (x - y) * DAY_MS;
  }

  lemma DiffFrom(s: string, t: string, n: int)
    requires ValidDay(s) && ValidDay(t) && DayOf(t) == DayOf(s) + n
    ensures DayDiff(t, s) == n
  {
    RoundWholeDays(DayOf(t), DayOf(s));
  }

  /** `dayDiff` is the inverse of `addDaysISO`, both ways. */
  lemma DayDiffOfAddDays(s: string, n: int)
    requires ValidDay(s) && ValidDay(AddDaysISO(s, n))
    ensures DayDiff(AddDaysISO(s, n), s) == n
  {
    AddDaysValidIff(s, n);
    DiffFrom(s, AddDaysISO(s, n), n);
  }

  lemma AddDaysOfDayDiff(a: string, b: string)
    requires ValidDay(a) && ValidDay(b) && FullYear(Parse(a).year)
    ensures AddDaysISO(b, DayDiff(a, b)) == a
  {
    DiffFrom(b, a, DayOf(a) - DayOf(b));
    PrintOfDay(a);
  }

  lemma SevenAdds(x: int, n: int)
    ensures (x + n + 4) % 7 == ((x + 4) % 7 + n) % 7
  {
  }

  lemma WeekdayFrom(s: string, t: string, n: int)
    requires ValidDay(s) && ValidDay(t) && DayOf(t) == DayOf(s) + n
    ensures WeekdayOf(t) == (WeekdayOf(s) + n) % 7
  {
    SevenAdds(DayOf(s), n);
  }

  lemma WeekdayAdvances(s: string, n: int)
    requires ValidDay(s) && ValidDay(AddDaysISO(s, n))
    ensures 0 <= WeekdayOf(s) <= 6
    ensures WeekdayOf(AddDaysISO(s, n)) == (WeekdayOf(s) + n) % 7
  {
    AddDaysValidIff(s, n);
    WeekdayFrom(s, AddDaysISO(s, n), n);
  }

  lemma ParseAnchor()
    ensures DayPattern("2026-07-06") && Parse("2026-07-06") == Civil(2026, 7, 6)
  {
    var s := "2026-07-06";
    assert s[..4] == "2026" && s[5..7] == "07" && s[8..] == "06";
    TwoDigits("07");
    TwoDigits("06");
    assert "2026"[..3] == "202" && "202"[..2] == "20";
    TwoDigits("20");
    assert Value("2026") == 2026;
  }

  /** Of date form, and no date. */
  lemma ParseFebruaryThirtyFirst()
    ensures DayPattern("2026-02-31") && Parse("2026-02-31") == Civil(2026, 2, 31)
  {
    var s := "2026-02-31";
    assert s[..4] == "2026" && s[5..7] == "02" && s[8..] == "31";
    TwoDigits("02");
    TwoDigits("31");
    assert "2026"[..3] == "202" && "202"[..2] == "20";
    TwoDigits("20");
    assert Value("2026") == 2026;
  }

  /** July 6, 2026 was a Monday. */
  lemma WeekdayAnchor()
    ensures ValidDay("2026-07-06") && WeekdayOf("2026-07-06") == 1
  {
    ParseAnchor();
    DayFromYearClosedForm(2026);
    assert ClosedForm(2026) == 20454;
    assert DayNumber(Civil(2026, 7, 6)) == 20640;
  }

  /** Strings of date form compare as the dates they spell, field by field. */
  lemma StringOrderIsFieldOrder(a: string, b: string)
    requires DayPattern(a) && DayPattern(b)
    ensures Less(a, b) <==> Before(Parse(a), Parse(b))
  {
    assert a == a[..4] + ("-" + (a[5..7] + ("-" + a[8..])));
    assert b == b[..4] + ("-" + (b[5..7] + ("-" + b[8..])));
    LessConcat(a[..4], "-" + (a[5..7] + ("-" + a[8..])), b[..4], "-" + (b[5..7] + ("-" + b[8..])));
    LessConcat("-", a[5..7] + ("-" + a[8..]), "-", b[5..7] + ("-" + b[8..]));
    LessConcat(a[5..7], "-" + a[8..], b[5..7], "-" + b[8..]);
    LessConcat("-", a[8..], "-", b[8..]);
    OrderOfDigits(a[..4], b[..4]);
    OrderOfDigits(a[5..7], b[5..7]);
    OrderOfDigits(a[8..], b[8..]);
  }

  /** Comparing date strings with `<`, as `assertDayRange` does, compares the days. */
  lemma StringOrderIsDateOrder(a: string, b: string)
    requires ValidDay(a) && ValidDay(b)
    ensures Less(a, b) <==> DayOf(a) < DayOf(b)
    ensures a == b <==> DayOf(a) == DayOf(b)
  {
    StringOrderIsFieldOrder(a, b);
    StringOrderIsFieldOrder(b, a);
    OrderOfDays(Parse(a), Parse(b));
    OrderOfDays(Parse(b), Parse(a));
    if DayOf(a) == DayOf(b) {
      SameFieldsSameString(a, b);
    }
  }

  lemma SameFieldsSameString(a: string, b: string)
    requires DayPattern(a) && DayPattern(b) && Parse(a) == Parse(b)
    ensures a == b
  {
    OrderOfDigits(a[..4], b[..4]);
    OrderOfDigits(a[5..7], b[5..7]);
    OrderOfDigits(a[8..], b[8..]);
    assert a == a[..4] + "-" + a[5..7] + "-" + a[8..];
    assert b == b[..4] + "-" + b[5..7] + "-" + b[8..];
  }

  // ── Wall-clock times ──

  /** What stands before the first `c`, and whether there is one. */
  function Head(s: string, c: char): (h: string)
    ensures |h| <= |s| && s[..|h|] == h && c !in h && (|h| < |s| ==> s[|h|] == c)
  {
    if s == "" || s[0] == c then "" else [s[0]] + Head(s[1..], c)
  }

  /** `split(':').map(Number)` and its first two parts; None is NaN. A part of some other spelling than
      digits with an optional minus sign counts as NaN here. */
  function HhmmToMin(s: string): Rows.Option<int> {
    var h := Head(s, ':');
    if |h| == |s| then Rows.None
    else
      var m := Head(s[|h| + 1..], ':');
      match (Number(h), Number(m))
      case (Some(hours), Some(minutes)) => Rows.Some(hours * 60 + minutes)
      case _ => Rows.None
  }

  /** JavaScript's `%` by 60: the remainder has the sign of the dividend. */
  function Rem60(t: int): int {
    if t < 0 then -((-t) % 60) else t % 60
  }

  /** Hours are floored and minutes truncated; beyond a day the hours just run on. */
  function MinToHhmm(t: int): string {
    Pad2(Text(t / 60)) + ":" + Pad2(Text(Rem60(t)))
  }

  lemma {:induction false} HeadOfJoined(h: string, rest: string, c: char)
    requires c !in h && (rest == "" || rest[0] == c)
    ensures Head(h + rest, c) == h
  {
    if h == "" {
      assert h + rest == rest;
    } else {
      assert (h + rest)[1..] == h[1..] + rest && (h + rest)[0] == h[0];
      HeadOfJoined(h[1..], rest, c);
    }
  }

  lemma NoColon(n: int)
    ensures ':' !in Pad2(Text(n))
  {
    var d := if n < 0 then Digits(-n) else Digits(n);
    assert AllDigits(d) && !IsDigit(':');
  }

  lemma HhmmOfParts(h: string, m: string)
    requires ':' !in h && ':' !in m && Number(h).Some? && Number(m).Some?
    ensures HhmmToMin(h + ":" + m) == Rows.Some(Number(h).value * 60 + Number(m).value)
  {
    var s := h + ":" + m;
    assert s == h + (":" + m);
    HeadOfJoined(h, ":" + m, ':');
    assert s[|h| + 1..] == m && m + "" == m;
    HeadOfJoined(m, "", ':');
  }

  /** Reading what was printed: off by a whole hour below zero, unless the hour is whole. */
  lemma MinutesThereAndBack(t: int)
    ensures HhmmToMin(MinToHhmm(t)) == Rows.Some(t / 60 * 60 + Rem60(t))
    ensures HhmmToMin(MinToHhmm(t)) == Rows.Some(t) <==> (t >= 0 || t % 60 == 0)
  {
    NoColon(t / 60);
    NoColon(Rem60(t));
    NumberOfText(t / 60);
    NumberOfText(Rem60(t));
    HhmmOfParts(Pad2(Text(t / 60)), Pad2(Text(Rem60(t))));
    Floored(t);
  }

  lemma Floored(t: int)
    ensures t / 60 * 60 + t % 60 == t
    ensures Rem60(t) == t % 60 <==> t >= 0 || t % 60 == 0
  {
    if t < 0 {
      assert t % 60 == 0 ==> (-t) % 60 == 0;
    }
  }

  /** Two digits, a colon, two digits. */
  predicate ClockPattern(s: string) {
    |s| == 5 && s[2] == ':' && AllDigits(s[..2]) && AllDigits(s[3..])
  }

  /** A time of day as it is stored. */
  predicate TimeOfDay(s: string) {
    ClockPattern(s) && Value(s[..2]) < 24 && Value(s[3..]) < 60
  }

  lemma MinutesOfClock(s: string)
    requires ClockPattern(s)
    ensures HhmmToMin(s) == Rows.Some(Value(s[..2]) * 60 + Value(s[3..]))
  {
    assert s == s[..2] + ":" + s[3..];
    assert forall i :: 0 <= i < 2 ==> IsDigit(s[..2][i]) && IsDigit(s[3..][i]);
    assert !IsDigit(':');
    HhmmOfParts(s[..2], s[3..]);
  }

  /** Printing what was read gives the string back exactly when its minutes are below 60. */
  lemma ClockThereAndBack(s: string)
    requires ClockPattern(s)
    ensures HhmmToMin(s).Some?
    ensures MinToHhmm(HhmmToMin(s).value) == s <==> Value(s[3..]) < 60
  {
    MinutesOfClock(s);
    var h, m := Value(s[..2]), Value(s[3..]);
    var t := h * 60 + m;
    assert s == s[..2] + ":" + s[3..];
    if m < 60 {
      assert t / 60 == h && t % 60 == m;
      Pad2OfTwoDigits(s[..2]);
      Pad2OfTwoDigits(s[3..]);
    } else {
      TwoDigitText(t % 60);
      var back := MinToHhmm(t);
      assert back[|back| - 2..] == Pad2(Text(t % 60));
      assert s[|s| - 2..] == s[3..];
    }
  }

  function AddMinutes(s: string, mins: int): Rows.Option<string> {
    match HhmmToMin(s)
    case None => Rows.None
    case Some(t) => Rows.Some(MinToHhmm(t + mins))
  }

  /** An end earlier than the start is on the next day. */
  function DurationBetween(start: string, end: string): Rows.Option<int> {
    match (HhmmToMin(start), HhmmToMin(end))
    case (Some(s), Some(e)) => Rows.Some(if e - s < 0 then e - s + 1440 else e - s)
    case _ => Rows.None
  }

  lemma AddedMinutes(s: string, t: int, mins: int)
    requires HhmmToMin(s) == Rows.Some(t)
    ensures AddMinutes(s, mins) == Rows.Some(MinToHhmm(t + mins))
  {
  }

  lemma TimeOfDayMinutes(s: string) returns (t: int)
    requires TimeOfDay(s)
    ensures 0 <= t < 1440 && HhmmToMin(s) == Rows.Some(t) && MinToHhmm(t) == s
  {
    MinutesOfClock(s);
    ClockThereAndBack(s);
    t := HhmmToMin(s).value;
  }

  lemma DurationOf(start: string, end: string, s: int, e: int)
    requires HhmmToMin(start) == Rows.Some(s) && HhmmToMin(end) == Rows.Some(e)
    ensures DurationBetween(start, end) == Rows.Some(if e - s < 0 then e - s + 1440 else e - s)
  {
  }

  /** Between two times of day, `s` and `e` minutes into the day, the duration is below a day, and adding
      it to the start reads as the end, or, past midnight, as the end with 24 more hours. */
  lemma DurationLeadsToEnd(start: string, end: string) returns (s: int, e: int, d: int, reached: string)
    requires TimeOfDay(start) && TimeOfDay(end)
    ensures HhmmToMin(start) == Rows.Some(s) && HhmmToMin(end) == Rows.Some(e)
    ensures DurationBetween(start, end) == Rows.Some(d) && 0 <= d < 1440
    ensures AddMinutes(start, d) == Rows.Some(reached)
    ensures HhmmToMin(reached) == Rows.Some(if e < s then e + 1440 else e)
    ensures s <= e ==> reached == end
  {
    s := TimeOfDayMinutes(start);
    e := TimeOfDayMinutes(end);
    DurationOf(start, end, s, e);
    d, reached := Reach(start, s, e);
  }

  lemma Reach(start: string, s: int, e: int) returns (d: int, reached: string)
    requires HhmmToMin(start) == Rows.Some(s) && 0 <= s < 1440 && 0 <= e < 1440
    ensures d == (if e - s < 0 then e - s + 1440 else e - s) && 0 <= d < 1440
    ensures AddMinutes(start, d) == Rows.Some(reached)
    ensures HhmmToMin(reached) == Rows.Some(if e < s then e + 1440 else e)
    ensures s <= e ==> reached == MinToHhmm(e)
  {
    d := if e - s < 0 then e - s + 1440 else e - s;
    var t := if e < s then e + 1440 else e;
    AddedMinutes(start, s, d);
    assert s + d == t;
    reached := MinToHhmm(t);
    MinutesThereAndBack(t);
  }

  // ── Day ranges ──

  datatype RangeVerdict = Accepted | BadFormat | Reversed

  /** assertDayRange over its two optional ends; an absent or null end is None. */
  function AssertDayRange(from: Rows.Option<string>, to: Rows.Option<string>): RangeVerdict {
    if (from.Some? && !DayPattern(from.value)) || (to.Some? && !DayPattern(to.value)) then BadFormat
    else if from.Some? && to.Some? && from.value != "" && to.value != "" && Less(to.value, from.value) then Reversed
    else Accepted
  }

  /** A range is accepted exactly when every given end has date form and the ends are not reversed, compared
      field by field; neither end needs to be a day that exists. */
  lemma RangeAcceptedIff(from: Rows.Option<string>, to: Rows.Option<string>)
    ensures AssertDayRange(from, to).Accepted? <==>
              && (from.Some? ==> DayPattern(from.value))
              && (to.Some? ==> DayPattern(to.value))
              && (from.Some? && to.Some? ==> !Before(Parse(to.value), Parse(from.value)))
  {
    if from.Some? && to.Some? && DayPattern(from.value) && DayPattern(to.value) {
      StringOrderIsFieldOrder(to.value, from.value);
    }
  }

  /** Of days that exist, one end is not after the other by day number either. */
  lemma AcceptedDaysAscend(from: string, to: string)
    requires ValidDay(from) && ValidDay(to)
    ensures AssertDayRange(Rows.Some(from), Rows.Some(to)).Accepted? <==> DayOf(from) <= DayOf(to)
  {
    StringOrderIsDateOrder(to, from);
  }
}
