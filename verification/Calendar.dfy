/** Civil dates from a day count, and the split of epoch seconds. */
module Calendar {
  // ----- The computation -----

  datatype Date = Date(year: int, month: int, day: int)

  datatype Timestamp = Timestamp(date: Date, hours: int, minutes: int, seconds: int)

  /** Year of a 400-year era from the day of the era, counting years from March. */
  function YearOfEra(doe: nat): int {
    (doe - doe / 1460 + doe / 36524 - doe / 146096) / 365
  }

  function DaysToYmd(days: nat): Date {
    var z := days + 719468;
    var era := z / 146097;
    var doe := z - era * 146097;
    var yoe := YearOfEra(doe);
    var y := yoe + era * 400;
    var doy := doe - (365 * yoe + yoe / 4 - yoe / 100);
    var mp := (5 * doy + 2) / 153;
    var d := doy - (153 * mp + 2) / 5 + 1;
    var m := if mp < 10 then mp + 3 else mp - 9;
    Date(if m <= 2 then y + 1 else y, m, d)
  }

  function UtcFields(secs: nat): Timestamp {
    var rest := secs % 86400;
    Timestamp(DaysToYmd(secs / 86400), rest / 3600, rest % 3600 / 60, rest % 60)
  }

  // ----- The Gregorian calendar, independently -----

  predicate IsLeap(year: int) {
    year % 4 == 0 && (year % 100 != 0 || year % 400 == 0)
  }

  function DaysInMonth(year: int, month: int): int
    requires 1 <= month <= 12
  {
    if month == 2 then (if IsLeap(year) then 29 else 28)
    else if month == 4 || month == 6 || month == 9 || month == 11 then 30
    else 31
  }

  predicate IsValid(date: Date) {
    1 <= date.month <= 12 && 1 <= date.day <= DaysInMonth(date.year, date.month)
  }

  /** Days from the start of the year to the start of the month. */
  function DaysBeforeMonth(year: int, month: int): int
    requires 1 <= month <= 12
  {
    if month == 1 then 0 else DaysBeforeMonth(year, month - 1) + DaysInMonth(year, month - 1)
  }

  function DaysInYear(year: int): int {
    if IsLeap(year) then 366 else 365
  }

  /** Days from 1970-01-01 to the start of the year. */
  function DaysBeforeYear(year: int): int
    requires year >= 1970
  {
    if year == 1970 then 0 else DaysBeforeYear(year - 1) + DaysInYear(year - 1)
  }

  function DayNumber(date: Date): int
    requires IsValid(date) && date.year >= 1970
  {
    DaysBeforeYear(date.year) + DaysBeforeMonth(date.year, date.month) + date.day - 1
  }

  // ----- The year inside an era -----

  /** Days of an era before its year `y`, years counted from March. */
  function EraDays(y: int): int {
    365 * y + y / 4 - y / 100
  }

  /** A day of an era as century, four-year block, year of the block, and day of that year. */
  datatype Parts = Parts(c: int, b: int, a: int, doy: int)

  function PartsOf(doe: nat): Parts {
    var c := if doe / 36524 < 3 then doe / 36524 else 3;
    var r := doe - 36524 * c;
    var b := r / 1461;
    var s := r - 1461 * b;
    var a := if s / 365 < 3 then s / 365 else 3;
    Parts(c, b, a, s - 365 * a)
  }

  lemma PartsBounds(doe: nat)
    requires doe < 146097
    ensures var p := PartsOf(doe);
            && 0 <= p.c <= 3 && 0 <= p.b <= 24 && 0 <= p.a <= 3 && 0 <= p.doy <= 365
            && doe == 36524 * p.c + 1461 * p.b + 365 * p.a + p.doy
            && (p.doy == 365 ==> p.a == 3 && (p.b == 24 ==> p.c == 3))
  {
    var c := PartsOf(doe).c;
    var r := doe - 36524 * c;
    assert 0 <= r <= 36524 && (c < 3 ==> r < 36524);
    var b := r / 1461;
    assert 0 <= b <= 24;
  }

  lemma EraDaysOfParts(c: int, b: int, a: int)
    requires 0 <= c <= 3 && 0 <= b <= 24 && 0 <= a <= 3
    ensures EraDays(100 * c + 4 * b + a) == 36524 * c + 1461 * b + 365 * a
  {
    var y := 100 * c + 4 * b + a;
    assert y / 4 == 25 * c + b;
    assert y / 100 == c;
  }

  /** The correction terms of the formula cancel: what is left is the year, exactly. */
  lemma YearOfEraIs(doe: nat)
    requires doe < 146097
    ensures var p := PartsOf(doe); YearOfEra(doe) == 100 * p.c + 4 * p.b + p.a
  {
    PartsBounds(doe);
    var p := PartsOf(doe);
    var s := 365 * p.a + p.doy;
    assert doe / 36524 - doe / 146096 == p.c;
    var k := (24 * p.c + p.b + s) / 1460;
    QuotientOf1460(doe, p.c, p.b, s);
    var n := doe - doe / 1460 + doe / 36524 - doe / 146096;
    assert n == 365 * (100 * p.c + 4 * p.b) + s - k;
    assert 365 * p.a <= s - k < 365 * (p.a + 1);
    QuotientOf365(n, 100 * p.c + 4 * p.b + p.a);
  }

  lemma QuotientOf1460(doe: int, c: int, b: int, s: int)
    requires doe == 36524 * c + 1461 * b + s
    ensures doe / 1460 == 25 * c + b + (24 * c + b + s) / 1460
  {
  }

  lemma QuotientOf365(n: int, y: int)
    requires 365 * y <= n < 365 * (y + 1)
    ensures n / 365 == y
  {
  }

  // ----- Days counted from March -----

  /** Day number of 1 March, in closed form. */
  function MarchFirst(year: int): int {
    365 * year + year / 4 - year / 100 + year / 400 - 719468
  }

  lemma MarchFirstStep(year: int)
    ensures MarchFirst(year + 1) == MarchFirst(year) + (if IsLeap(year + 1) then 366 else 365)
  {
    QuotientStep(year, 4);
    QuotientStep(year, 100);
    QuotientStep(year, 400);
  }

  lemma QuotientStep(n: int, d: int)
    requires d == 4 || d == 100 || d == 400
    ensures (n + 1) / d == n / d + (if (n + 1) % d == 0 then 1 else 0)
  {
  }

  lemma BeforeMarch(year: int)
    ensures DaysBeforeMonth(year, 2) == 31
    ensures DaysBeforeMonth(year, 3) == (if IsLeap(year) then 60 else 59)
  {
    assert DaysBeforeMonth(year, 1) == 0;
  }

  lemma {:induction false} MarchFirstIsRight(year: int)
    requires year >= 1970
    ensures DaysBeforeYear(year) + DaysBeforeMonth(year, 3) == MarchFirst(year)
    decreases year
  {
    BeforeMarch(year);
    if year > 1970 {
      MarchFirstIsRight(year - 1);
      BeforeMarch(year - 1);
      MarchFirstStep(year - 1);
    }
  }

  lemma JanuaryFirstIsRight(year: int)
    requires year >= 1970
    ensures DaysBeforeYear(year) == MarchFirst(year - 1) + 306
  {
    MarchFirstIsRight(year);
    BeforeMarch(year);
    MarchFirstStep(year - 1);
  }

  /** Days from 1 March to the start of the `mp`-th month after it. */
  function MonthOffset(mp: int): int {
    (153 * mp + 2) / 5
  }

  lemma MonthTable(year: int)
    ensures DaysBeforeMonth(year, 4) == DaysBeforeMonth(year, 3) + 31
    ensures DaysBeforeMonth(year, 5) == DaysBeforeMonth(year, 3) + 61
    ensures DaysBeforeMonth(year, 6) == DaysBeforeMonth(year, 3) + 92
    ensures DaysBeforeMonth(year, 7) == DaysBeforeMonth(year, 3) + 122
    ensures DaysBeforeMonth(year, 8) == DaysBeforeMonth(year, 3) + 153
    ensures DaysBeforeMonth(year, 9) == DaysBeforeMonth(year, 3) + 184
    ensures DaysBeforeMonth(year, 10) == DaysBeforeMonth(year, 3) + 214
    ensures DaysBeforeMonth(year, 11) == DaysBeforeMonth(year, 3) + 245
    ensures DaysBeforeMonth(year, 12) == DaysBeforeMonth(year, 3) + 275
  {
    assert DaysBeforeMonth(year, 5) == DaysBeforeMonth(year, 4) + 30;
    assert DaysBeforeMonth(year, 7) == DaysBeforeMonth(year, 6) + 30;
    assert DaysBeforeMonth(year, 9) == DaysBeforeMonth(year, 8) + 31;
    assert DaysBeforeMonth(year, 11) == DaysBeforeMonth(year, 10) + 31;
  }

  /** March to December of `year`: the formula's month starts where the calendar's does. */
  lemma OffsetMatchesCalendar(year: int, mp: int)
    requires 0 <= mp <= 9
    ensures DaysBeforeMonth(year, mp + 3) == DaysBeforeMonth(year, 3) + MonthOffset(mp)
    ensures MonthOffset(mp + 1) - MonthOffset(mp) == DaysInMonth(year, mp + 3)
  {
    MonthTable(year);
  }

  /** The month a day of a March-based year falls in, and the bounds of its day. */
  lemma MonthOfDay(doy: int)
    requires 0 <= doy <= 365
    ensures var mp := (5 * doy + 2) / 153;
            0 <= mp <= 11 && MonthOffset(mp) <= doy && (mp < 11 ==> doy < MonthOffset(mp + 1))
  {
  }

  // ----- The date is right -----

  /** The era, the year inside it and the day of that year, tied back to the day count. */
  lemma EraSplit(days: nat)
    ensures var z := days + 719468;
            var doe := z % 146097;
            var y := YearOfEra(doe) + z / 146097 * 400;
            var doy := doe - EraDays(YearOfEra(doe));
            && days == MarchFirst(y) + doy
            && 0 <= doy <= 365
            && (doy == 365 ==> IsLeap(y + 1))
            && y >= 1969 && (y == 1969 ==> doy >= 306)
  {
    var z := days + 719468;
    var era, doe := z / 146097, z % 146097;
    var p := PartsOf(doe);
    PartsBounds(doe);
    YearOfEraIs(doe);
    EraDaysOfParts(p.c, p.b, p.a);
    var yoe := YearOfEra(doe);
    var y := yoe + era * 400;
    MarchFirstOfEra(yoe, era);
    if p.doy == 365 {
      LeapOfParts(p.c, p.b, era);
    }
    StartOfTime(y, days, p.doy);
  }

  lemma MarchFirstOfEra(yoe: int, era: int)
    requires 0 <= yoe < 400
    ensures MarchFirst(yoe + era * 400) == era * 146097 + EraDays(yoe) - 719468
  {
    var y := yoe + era * 400;
    assert y / 4 == yoe / 4 + era * 100;
    assert y / 100 == yoe / 100 + era * 4;
    assert y / 400 == era;
  }

  /** The last day of a leap March-based year belongs to a leap calendar year. */
  lemma LeapOfParts(c: int, b: int, era: int)
    requires 0 <= c <= 3 && 0 <= b <= 24 && (b == 24 ==> c == 3)
    ensures IsLeap(100 * c + 4 * b + 3 + era * 400 + 1)
  {
    var y := 100 * c + 4 * (b + 1) + era * 400;
    assert y == 4 * (25 * c + b + 1 + 100 * era);
    if b == 24 {
      assert y == 400 * (era + 1);
    } else {
      assert y == 100 * (c + 4 * era) + 4 * (b + 1);
    }
  }

  lemma StartOfTime(y: int, days: nat, doy: int)
    requires days == MarchFirst(y) + doy && 0 <= doy <= 365
    ensures y >= 1969 && (y == 1969 ==> doy >= 306)
  {
    if y < 1969 {
      MarchFirstGrows(y, 1968);
    }
  }

  lemma {:induction false} MarchFirstGrows(y: int, y': int)
    requires y <= y'
    ensures MarchFirst(y) <= MarchFirst(y')
    decreases y' - y
  {
    if y < y' {
      MarchFirstStep(y);
      MarchFirstGrows(y + 1, y');
    }
  }

  /** The date of day `doy` of the March-based year `y`. */
  function DateFrom(y: int, doy: int): Date {
    var mp := (5 * doy + 2) / 153;
    var m := if mp < 10 then mp + 3 else mp - 9;
    Date(if m <= 2 then y + 1 else y, m, doy - (153 * mp + 2) / 5 + 1)
  }

  lemma DateFromIsRight(y: int, doy: int)
    requires 0 <= doy <= 365 && y >= 1969 && (y == 1969 ==> doy >= 306)
    requires doy == 365 ==> IsLeap(y + 1)
    ensures var date := DateFrom(y, doy);
            && date.year >= 1970
            && IsValid(date)
            && DayNumber(date) == MarchFirst(y) + doy
  {
    hide MarchFirst, IsLeap, DaysBeforeMonth, DaysBeforeYear;
    MonthOfDay(doy);
    var mp := (5 * doy + 2) / 153;
    if mp <= 9 {
      MarchFirstIsRight(y);
      OffsetMatchesCalendar(y, mp);
    } else {
      JanuaryFirstIsRight(y + 1);
      BeforeMarch(y + 1);
      FirstMonth(y + 1);
      assert MonthOffset(10) == 306 && MonthOffset(11) == 337;
    }
  }

  lemma FirstMonth(year: int)
    ensures DaysBeforeMonth(year, 1) == 0
  {
  }

  /** The date is valid, and its independently counted day number is the count it came from. */
  lemma DateIsRight(days: nat)
    ensures var date := DaysToYmd(days);
            && date.year >= 1970
            && IsValid(date)
            && DayNumber(date) == days
  {
    hide YearOfEra, MarchFirst, IsValid, DayNumber, IsLeap;
    EraSplit(days);
    var z := days + 719468;
    var era := z / 146097;
    var doe := z % 146097;
    assert doe == z - era * 146097;
    var y := YearOfEra(doe) + era * 400;
    var doy := doe - EraDays(YearOfEra(doe));
    DateFromIsRight(y, doy);
    assert DaysToYmd(days) == DateFrom(y, doy);
  }

  // ----- Order -----

  predicate Earlier(a: Date, b: Date) {
    a.year < b.year || (a.year == b.year && (a.month < b.month || (a.month == b.month && a.day < b.day)))
  }

  lemma {:induction false} MonthsGrow(year: int, m: int, m': int)
    requires 1 <= m < m' <= 12
    ensures DaysBeforeMonth(year, m) + DaysInMonth(year, m) <= DaysBeforeMonth(year, m')
    decreases m' - m
  {
    if m + 1 < m' {
      MonthsGrow(year, m, m' - 1);
    }
  }

  lemma MonthsFit(year: int, m: int)
    requires 1 <= m <= 12
    ensures DaysBeforeMonth(year, m) + DaysInMonth(year, m) <= DaysInYear(year)
  {
    BeforeMarch(year);
    MonthTable(year);
    if m < 12 {
      MonthsGrow(year, m, 12);
    }
  }

  lemma {:induction false} YearsGrow(y: int, y': int)
    requires 1970 <= y < y'
    ensures DaysBeforeYear(y) + DaysInYear(y) <= DaysBeforeYear(y')
    decreases y' - y
  {
    if y + 1 < y' {
      YearsGrow(y, y' - 1);
    }
  }

  /** The day number orders valid dates as the calendar does. */
  lemma DayNumberOrders(a: Date, b: Date)
    requires IsValid(a) && IsValid(b) && a.year >= 1970 && b.year >= 1970
    ensures Earlier(a, b) ==> DayNumber(a) < DayNumber(b)
  {
    if a.year < b.year {
      MonthsFit(a.year, a.month);
      YearsGrow(a.year, b.year);
      BeforeMonthIsNonNegative(b.year, b.month);
    } else if a.year == b.year && a.month < b.month {
      MonthsGrow(a.year, a.month, b.month);
    }
  }

  lemma {:induction false} BeforeMonthIsNonNegative(year: int, m: int)
    requires 1 <= m <= 12
    ensures DaysBeforeMonth(year, m) >= 0
  {
    if m > 1 {
      BeforeMonthIsNonNegative(year, m - 1);
    }
  }

  /** Later days have later dates. */
  lemma DatesAreMonotone(n: nat, n': nat)
    requires n < n'
    ensures Earlier(DaysToYmd(n), DaysToYmd(n'))
  {
    DateIsRight(n);
    DateIsRight(n');
    DayNumberOrders(DaysToYmd(n'), DaysToYmd(n));
  }

  lemma DayNumberIsNatural(date: Date)
    requires IsValid(date) && date.year >= 1970
    ensures DayNumber(date) >= 0
  {
    BeforeMonthIsNonNegative(date.year, date.month);
    if date.year > 1970 {
      YearsGrow(1970, date.year);
    }
  }

  /** Every valid date from 1970 on is the date of its day number: the two functions are
      inverse to each other. */
  lemma EveryDateIsReached(date: Date)
    requires IsValid(date) && date.year >= 1970
    ensures DayNumber(date) >= 0 && DaysToYmd(DayNumber(date)) == date
  {
    DayNumberIsNatural(date);
    var back := DaysToYmd(DayNumber(date));
    DateIsRight(DayNumber(date));
    DayNumberOrders(back, date);
    DayNumberOrders(date, back);
  }

  /** The fields are in range and put the seconds back together. */
  lemma UtcFieldsRecompose(secs: nat)
    ensures var t := UtcFields(secs);
            && 0 <= t.hours < 24 && 0 <= t.minutes < 60 && 0 <= t.seconds < 60
            && IsValid(t.date) && t.date.year >= 1970
            && DayNumber(t.date) * 86400 + t.hours * 3600 + t.minutes * 60 + t.seconds == secs
  {
    hide DaysToYmd, IsValid, DayNumber;
    DateIsRight(secs / 86400);
    var rest := secs % 86400;
    assert rest == rest / 3600 * 3600 + rest % 3600;
    assert rest % 3600 == rest % 3600 / 60 * 60 + rest % 60;
  }

  /** Seconds that fit 64 bits unsigned: every intermediate of the day arithmetic is natural and
      inside 64 bits signed, so no subtraction goes below zero and no product wraps. */
  lemma NoOverflow(secs: nat)
    requires secs < 0x1_0000_0000_0000_0000
    ensures var z := secs / 86400 + 719468;
            var era := z / 146097;
            var doe := z - era * 146097;
            var yoe := YearOfEra(doe);
            var doy := doe - EraDays(yoe);
            var mp := (5 * doy + 2) / 153;
            && 0 <= era * 146097 <= z < 0x8000_0000_0000_0000
            && 0 <= doe - doe / 1460 && doe + doe / 36524 < 200000 && 0 <= doe - doe / 1460 + doe / 36524 - doe / 146096
            && 0 <= yoe < 400 && 365 * yoe + yoe / 4 <= 146097 && 0 <= yoe + era * 400 <= z
            && 0 <= EraDays(yoe) <= doe && 0 <= doy <= 365
            && 0 <= 5 * doy + 2 <= 1827 && 0 <= 153 * mp + 2 <= 1685
            && 0 <= doy - (153 * mp + 2) / 5 && (mp >= 10 ==> mp - 9 >= 1)
  {
    hide YearOfEra;
    var z := secs / 86400 + 719468;
    var doe := z % 146097;
    YearIsInEra(doe);
    MonthOfDay(doe - EraDays(YearOfEra(doe)));
  }

  lemma YearIsInEra(doe: nat)
    requires doe < 146097
    ensures 0 <= YearOfEra(doe) < 400 && 0 <= EraDays(YearOfEra(doe)) <= doe <= EraDays(YearOfEra(doe)) + 365
  {
    hide YearOfEra;
    var p := PartsOf(doe);
    PartsBounds(doe);
    YearOfEraIs(doe);
    EraDaysOfParts(p.c, p.b, p.a);
  }
}
