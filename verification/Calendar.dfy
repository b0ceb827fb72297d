/**
 Civil-date conversion (`wokcore-server/src/runtime.rs`) and timestamp validation
 (`wokcore-diagnostics/src/event.rs`). The calendar it must agree with is the one of
 section 5.7 and Appendix C of RFC 3339: month lengths plus the leap-year rule.
 */
module Calendar {
  import opened Prelude

  datatype Date = Date(year: int, month: int, day: int)

  /** Integer division rounding toward zero, as Rust's `/` on `i64`. */
  function TruncDiv(a: int, b: int): int
    requires b > 0
  {
    if a >= 0 then a / b else -((-a) / b)
  }

  function DaysBeforeYearOfEra(yearOfEra: int): int {
    yearOfEra * 365 + yearOfEra / 4 - yearOfEra / 100
  }

  /** The index of the 400-year era, of `size` days or years, that holds position `at`. */
  function EraOf(at: int, size: int): int
    requires size > 0
  {
    TruncDiv(if at >= 0 then at else at - (size - 1), size)
  }

  function CivilFromDays(epochDays: int): Date {
    var days := epochDays + 719_468;
    var era := EraOf(days, 146_097);
    CivilInEra(era, days - era * 146_097)
  }

  function CivilInEra(era: int, dayOfEra: int): Date {
    var yearOfEra := YearOfEra(dayOfEra);
    var dayOfYear := dayOfEra - DaysBeforeYearOfEra(yearOfEra);
    var monthPrime := (5 * dayOfYear + 2) / 153;
    var day := dayOfYear - (153 * monthPrime + 2) / 5 + 1;
    var month := monthPrime + (if monthPrime < 10 then 3 else -9);
    Date(yearOfEra + era * 400 + (if month <= 2 then 1 else 0), month, day)
  }

  function YearOfEra(dayOfEra: int): int {
    (dayOfEra - dayOfEra / 1_460 + dayOfEra / 36_524 - dayOfEra / 146_096) / 365
  }

  function DaysFromCivil(date: Date): int {
    var adjusted := date.year - (if date.month <= 2 then 1 else 0);
    var monthPrime := date.month + (if date.month > 2 then -3 else 9);
    var dayOfYear := (153 * monthPrime + 2) / 5 + date.day - 1;
    DaysBeforeMarch(adjusted) + dayOfYear
  }

  /** The epoch day of the first of March of `year`. */
  function DaysBeforeMarch(year: int): int {
    var era := EraOf(year, 400);
    var yearOfEra := year - era * 400;
    era * 146_097 + DaysBeforeYearOfEra(yearOfEra) - 719_468
  }

  // The independent reference: month lengths and the leap-year rule.

  predicate LeapYear(year: int) {
    year % 4 == 0 && (year % 100 != 0 || year % 400 == 0)
  }

  function DaysInMonth(year: int, month: int): int {
    if month in {1, 3, 5, 7, 8, 10, 12} then 31
    else if month in {4, 6, 9, 11} then 30
    else if month == 2 then (if LeapYear(year) then 29 else 28)
    else 0
  }

  predicate ValidDate(date: Date) {
    1 <= date.day <= DaysInMonth(date.year, date.month)
  }

  function NextDay(date: Date): Date {
    if date.day < DaysInMonth(date.year, date.month) then date.(day := date.day + 1)
    else if date.month < 12 then Date(date.year, date.month + 1, 1)
    else Date(date.year + 1, 1, 1)
  }

  /** The number of days in the year that starts on the first of March of era year `y`. */
  function MarchYearLength(y: int): int {
    if LeapYear(y + 1) then 366 else 365
  }

  /** The leap-year rule in terms of the century, the four-year cycle and the year within it. */
  lemma MarchYearSplit(century: int, cycle: int, r: int)
    requires 0 <= century < 4 && 0 <= cycle < 25 && 0 <= r < 4
    ensures var y := 100 * century + 4 * cycle + r;
            && DaysBeforeYearOfEra(y) == 36_524 * century + 1_461 * cycle + 365 * r
            && (MarchYearLength(y) == 366 <==> r == 3 && (cycle == 24 ==> century == 3))
  {
    var y := 100 * century + 4 * cycle + r;
    assert y / 4 == 25 * century + cycle;
    assert y / 100 == century;
    assert (y + 1) % 4 == (r + 1) % 4;
    if r == 3 {
      assert y + 1 == 100 * century + 4 * (cycle + 1);
      if cycle == 24 {
        assert y + 1 == 100 * (century + 1);
      } else {
        assert (y + 1) % 100 == 4 * (cycle + 1);
      }
    }
  }

  lemma YearOfEraOfParts(century: int, cycle: int, r: int, dayOfYear: int)
    requires 0 <= century < 4 && 0 <= cycle < 25 && 0 <= r < 4
    requires 0 <= dayOfYear < MarchYearLength(100 * century + 4 * cycle + r)
    ensures YearOfEra(36_524 * century + 1_461 * cycle + 365 * r + dayOfYear) == 100 * century + 4 * cycle + r
  {
    MarchYearSplit(century, cycle, r);
    var dayOfEra := 36_524 * century + 1_461 * cycle + 365 * r + dayOfYear;
    var lastDay := if dayOfEra == 146_096 then 1 else 0;
    var carry := if 24 * century + cycle + 365 * r + dayOfYear >= 1_460 then 1 else 0;
    assert dayOfEra / 146_096 == lastDay;
    assert dayOfEra / 36_524 == century + lastDay;
    assert dayOfEra / 1_460 == 25 * century + cycle + carry;
  }

  lemma YearOfEraInverse(y: int, dayOfYear: int)
    requires 0 <= y < 400 && 0 <= dayOfYear < MarchYearLength(y)
    ensures YearOfEra(DaysBeforeYearOfEra(y) + dayOfYear) == y
  {
    var century, cycle, r := y / 100, y % 100 / 4, y % 4;
    assert y == 100 * century + 4 * cycle + r;
    MarchYearSplit(century, cycle, r);
    YearOfEraOfParts(century, cycle, r, dayOfYear);
  }

  lemma EveryDayOfEraHasAYear(dayOfEra: int)
    requires 0 <= dayOfEra < 146_097
    ensures var y := YearOfEra(dayOfEra);
            0 <= y < 400 && 0 <= dayOfEra - DaysBeforeYearOfEra(y) < MarchYearLength(y)
  {
    var century := if dayOfEra == 146_096 then 3 else dayOfEra / 36_524;
    var inCentury := dayOfEra - 36_524 * century;
    var cycle := if inCentury == 36_524 then 24 else inCentury / 1_461;
    var inCycle := inCentury - 1_461 * cycle;
    var r := if inCycle >= 1_095 then 3 else inCycle / 365;
    MarchYearSplit(century, cycle, r);
    YearOfEraOfParts(century, cycle, r, inCycle - 365 * r);
  }

  lemma EraUnique(era: int, within: int, size: int)
    requires size in {400, 146_097} && 0 <= within < size
    ensures EraOf(era * size + within, size) == era
  {
    if era < 0 {
      assert -(era * size + within - (size - 1)) == -era * size + (size - 1 - within);
    }
  }

  lemma EraBounds(at: int, size: int)
    requires size in {400, 146_097}
    ensures 0 <= at - EraOf(at, size) * size < size
  {
  }

  lemma {:induction false} LeapYearInEra(era: int, y: int)
    ensures LeapYear(era * 400 + y) == LeapYear(y)
    decreases if era < 0 then -era else era
  {
    if era < 0 {
      LeapYearInEra(era + 1, y);
      LeapYearNextEra(era * 400 + y);
    } else if era > 0 {
      LeapYearInEra(era - 1, y);
      LeapYearNextEra(era * 400 + y - 400);
    }
  }

  lemma LeapYearNextEra(y: int)
    ensures LeapYear(y + 400) == LeapYear(y)
  {
    Remainder(4, y / 4 + 100, y % 4);
    Remainder(100, y / 100 + 4, y % 100);
    Remainder(400, y / 400 + 1, y % 400);
  }

  lemma Remainder(divisor: int, quotient: int, rest: int)
    requires divisor in {4, 100, 400} && 0 <= rest < divisor
    ensures (divisor * quotient + rest) % divisor == rest
  {
    if divisor == 4 {
      assert (4 * quotient + rest) % 4 == rest;
    } else if divisor == 100 {
      assert (100 * quotient + rest) % 100 == rest;
    } else {
      assert (400 * quotient + rest) % 400 == rest;
    }
  }

  /** Days before the `monthPrime`-th month of a year that starts in March. */
  function MonthStart(monthPrime: int): int {
    (153 * monthPrime + 2) / 5
  }

  function MonthOf(monthPrime: int): int {
    monthPrime + (if monthPrime < 10 then 3 else -9)
  }

  /** Splitting a day of a March year into month and day is the inverse of adding up month lengths. */
  lemma MonthAndDay(era: int, y: int, dayOfYear: int)
    requires 0 <= dayOfYear < MarchYearLength(y)
    ensures var m := (5 * dayOfYear + 2) / 153;
            && 0 <= m < 12
            && 1 <= dayOfYear - MonthStart(m) + 1
                 <= DaysInMonth(era * 400 + y + (if MonthOf(m) <= 2 then 1 else 0), MonthOf(m))
  {
    LeapYearInEra(era, y + 1);
    var m := (5 * dayOfYear + 2) / 153;
    assert MonthStart(m) <= dayOfYear;
    assert m < 11 ==> dayOfYear < MonthStart(m + 1);
  }

  lemma MonthAndDayInverse(y: int, m: int, day: int)
    requires 0 <= m < 12
    requires 1 <= day <= DaysInMonth(y + (if MonthOf(m) <= 2 then 1 else 0), MonthOf(m))
    ensures var dayOfYear := MonthStart(m) + day - 1;
            0 <= dayOfYear < MarchYearLength(y) && (5 * dayOfYear + 2) / 153 == m
  {
  }

  /** Every day number is the number of a valid date, and that date maps back to it. */
  lemma CivilRoundTrip(days: int)
    ensures ValidDate(CivilFromDays(days)) && DaysFromCivil(CivilFromDays(days)) == days
  {
    hide CivilInEra, DaysFromCivil, ValidDate;
    var era := EraOf(days + 719_468, 146_097);
    EraBounds(days + 719_468, 146_097);
    CivilInEraRoundTrip(era, days + 719_468 - era * 146_097);
  }

  lemma DaysOfPosition(era: int, y: int, m: int, day: int)
    requires 0 <= y < 400 && 0 <= m < 12
    ensures DaysFromCivil(Date(era * 400 + y + (if MonthOf(m) <= 2 then 1 else 0), MonthOf(m), day))
            == era * 146_097 + DaysBeforeYearOfEra(y) + MonthStart(m) + day - 1 - 719_468
  {
    hide DaysBeforeYearOfEra;
    EraUnique(era, y, 400);
  }

  lemma CivilInEraRoundTrip(era: int, dayOfEra: int)
    requires 0 <= dayOfEra < 146_097
    ensures var date := CivilInEra(era, dayOfEra);
            ValidDate(date) && DaysFromCivil(date) == era * 146_097 + dayOfEra - 719_468
  {
    hide DaysFromCivil, DaysBeforeYearOfEra, YearOfEra, DaysInMonth;
    EveryDayOfEraHasAYear(dayOfEra);
    var y := YearOfEra(dayOfEra);
    var dayOfYear := dayOfEra - DaysBeforeYearOfEra(y);
    MonthAndDay(era, y, dayOfYear);
    var m := (5 * dayOfYear + 2) / 153;
    DaysOfPosition(era, y, m, dayOfYear - MonthStart(m) + 1);
  }

  lemma DateInEraRoundTrip(era: int, y: int, m: int, day: int)
    requires 0 <= y < 400 && 0 <= m < 12
    requires 1 <= day <= DaysInMonth(era * 400 + y + (if MonthOf(m) <= 2 then 1 else 0), MonthOf(m))
    ensures var dayOfEra := DaysBeforeYearOfEra(y) + MonthStart(m) + day - 1;
            && 0 <= dayOfEra < 146_097
            && CivilInEra(era, dayOfEra)
               == Date(era * 400 + y + (if MonthOf(m) <= 2 then 1 else 0), MonthOf(m), day)
  {
    hide YearOfEra, DaysBeforeYearOfEra;
    LeapYearInEra(era, y + 1);
    MonthAndDayInverse(y, m, day);
    var dayOfYear := MonthStart(m) + day - 1;
    YearOfEraInverse(y, dayOfYear);
    DayOfEraBound(y, dayOfYear);
  }

  /** Where a date stands: its era, its March year within the era, and its month within that year. */
  lemma Position(date: Date) returns (era: int, y: int, m: int)
    requires ValidDate(date)
    ensures 0 <= y < 400 && 0 <= m < 12
    ensures date == Date(era * 400 + y + (if MonthOf(m) <= 2 then 1 else 0), MonthOf(m), date.day)
    ensures DaysFromCivil(date)
            == era * 146_097 + (DaysBeforeYearOfEra(y) + MonthStart(m) + date.day - 1) - 719_468
  {
    var adjusted := date.year - (if date.month <= 2 then 1 else 0);
    era := EraOf(adjusted, 400);
    EraBounds(adjusted, 400);
    y := adjusted - era * 400;
    m := date.month + (if date.month > 2 then -3 else 9);
  }

  /** Every valid date is the date of its own day number. */
  lemma DateRoundTrip(date: Date)
    requires ValidDate(date)
    ensures CivilFromDays(DaysFromCivil(date)) == date
  {
    hide DaysFromCivil, CivilFromDays, CivilInEra, DaysBeforeYearOfEra, MonthStart;
    var era, y, m := Position(date);
    DateInEraRoundTrip(era, y, m, date.day);
    CivilInOwnEra(era, DaysBeforeYearOfEra(y) + MonthStart(m) + date.day - 1);
  }

  lemma CivilInOwnEra(era: int, dayOfEra: int)
    requires 0 <= dayOfEra < 146_097
    ensures CivilFromDays(era * 146_097 + dayOfEra - 719_468) == CivilInEra(era, dayOfEra)
  {
    EraUnique(era, dayOfEra, 146_097);
  }

  lemma DayOfEraBound(y: int, dayOfYear: int)
    requires 0 <= y < 400 && 0 <= dayOfYear < MarchYearLength(y)
    ensures 0 <= DaysBeforeYearOfEra(y) + dayOfYear < 146_097
  {
    var century, cycle, r := y / 100, y % 100 / 4, y % 4;
    assert y == 100 * century + 4 * cycle + r;
    MarchYearSplit(century, cycle, r);
  }

  /**
   The era arithmetic agrees with the calendar: day zero is the first of January 1970, and one day
   later is always the next day under the month lengths and the leap-year rule.
   */
  lemma CivilFollowsCalendar(days: int)
    ensures CivilFromDays(0) == Date(1970, 1, 1)
    ensures CivilFromDays(days + 1) == NextDay(CivilFromDays(days))
  {
    hide CivilFromDays, DaysFromCivil, ValidDate, NextDay;
    EpochDay();
    var date := CivilFromDays(days);
    CivilRoundTrip(days);
    NextDayCounts(date);
    DateOfDay(NextDay(date), days + 1);
  }

  lemma EpochDay()
    ensures CivilFromDays(0) == Date(1970, 1, 1)
  {
    DateOfDay(Date(1970, 1, 1), 0);
  }

  lemma DateOfDay(date: Date, days: int)
    requires ValidDate(date) && DaysFromCivil(date) == days
    ensures CivilFromDays(days) == date
  {
    DateRoundTrip(date);
  }

  lemma NextDayCounts(date: Date)
    requires ValidDate(date)
    ensures ValidDate(NextDay(date)) && DaysFromCivil(NextDay(date)) == DaysFromCivil(date) + 1
  {
    if date.day == DaysInMonth(date.year, date.month) {
      MonthEndCounts(date.year, date.month);
    }
  }

  lemma MonthEndCounts(year: int, month: int)
    requires 1 <= month <= 12
    ensures var next := if month < 12 then Date(year, month + 1, 1) else Date(year + 1, 1, 1);
            DaysFromCivil(next) == DaysFromCivil(Date(year, month, DaysInMonth(year, month))) + 1
  {
    hide DaysBeforeMarch;
    if month == 2 {
      MarchYearCounts(year - 1);
    }
  }

  lemma MarchYearCounts(year: int)
    ensures DaysBeforeMarch(year + 1) == DaysBeforeMarch(year) + MarchYearLength(year)
  {
    var era := EraOf(year, 400);
    EraBounds(year, 400);
    var y := year - era * 400;
    LeapYearInEra(era, y + 1);
    if y == 399 {
      EraUnique(era + 1, 0, 400);
    } else {
      EraUnique(era, y + 1, 400);
      YearLengthSteps(y);
    }
  }

  lemma YearLengthSteps(y: int)
    requires 0 <= y < 399
    ensures DaysBeforeYearOfEra(y + 1) == DaysBeforeYearOfEra(y) + MarchYearLength(y)
  {
    var century, cycle, r := y / 100, y % 100 / 4, y % 4;
    assert y == 100 * century + 4 * cycle + r;
    MarchYearSplit(century, cycle, r);
    if r < 3 {
      MarchYearSplit(century, cycle, r + 1);
    } else if cycle < 24 {
      MarchYearSplit(century, cycle + 1, 0);
    } else {
      MarchYearSplit(century + 1, 0, 0);
    }
  }

  // Day numbers and years.

  function YearStart(year: int): int {
    DaysFromCivil(Date(year, 1, 1))
  }

  lemma {:induction false} NotBeforeYearStart(date: Date)
    requires ValidDate(date)
    ensures YearStart(date.year) <= DaysFromCivil(date)
    decreases date.month, date.day
  {
    hide DaysFromCivil;
    if date.day > 1 {
      var previous := date.(day := date.day - 1);
      NotBeforeYearStart(previous);
      NextDayCounts(previous);
    } else if date.month > 1 {
      var previous := Date(date.year, date.month - 1, DaysInMonth(date.year, date.month - 1));
      NotBeforeYearStart(previous);
      NextDayCounts(previous);
    }
  }

  lemma {:induction false} BeforeYearEnd(date: Date)
    requires ValidDate(date)
    ensures DaysFromCivil(date) < YearStart(date.year + 1)
    decreases 12 - date.month, 31 - date.day
  {
    hide DaysFromCivil;
    NextDayCounts(date);
    if NextDay(date).year == date.year {
      BeforeYearEnd(NextDay(date));
    }
  }

  lemma {:induction false} YearStartsIncrease(year: int, later: int)
    requires year <= later
    ensures YearStart(year) <= YearStart(later)
    decreases later - year
  {
    if year < later {
      BeforeYearEnd(Date(year, 1, 1));
      YearStartsIncrease(year + 1, later);
    }
  }

  /** A date lies before a year exactly when its day number lies before that year's first day. */
  lemma YearBound(date: Date, year: int)
    requires ValidDate(date)
    ensures date.year < year <==> DaysFromCivil(date) < YearStart(year)
  {
    hide DaysFromCivil, YearStart;
    if date.year < year {
      BeforeYearEnd(date);
      YearStartsIncrease(date.year + 1, year);
    } else {
      NotBeforeYearStart(date);
      YearStartsIncrease(year, date.year);
    }
  }

  // Timestamps as text.

  datatype Timestamp = Timestamp(date: Date, hour: int, minute: int, second: int)

  predicate ValidTimestamp(t: Timestamp) {
    && 1 <= t.date.year <= 9999 && ValidDate(t.date)
    && 0 <= t.hour <= 23 && 0 <= t.minute <= 59 && 0 <= t.second <= 59
  }

  /** `{:02}` of a value below one hundred. */
  function Two(n: int): (digits: Bytes)
    requires 0 <= n < 100
    ensures |digits| == 2
  {
    [48 + n / 10, 48 + n % 10]
  }

  function Render(t: Timestamp): (text: Bytes)
    requires ValidTimestamp(t)
  {
    Two(t.date.year / 100) + Two(t.date.year % 100) + [45] + Two(t.date.month) + [45] + Two(t.date.day) + [84]
    + Two(t.hour) + [58] + Two(t.minute) + [58] + Two(t.second) + [90]
  }

  predicate IsDigit(b: byte) {
    48 <= b <= 57
  }

  predicate FixedShape(text: Bytes) {
    && |text| == 20
    && text[4] == 45 && text[7] == 45 && text[10] == 84 && text[13] == 58 && text[16] == 58 && text[19] == 90
    && forall i :: 0 <= i < 20 && i !in {4, 7, 10, 13, 16, 19} ==> IsDigit(text[i])
  }

  function TwoDigits(text: Bytes, at: nat): int
    requires at + 2 <= |text|
  {
    (text[at] as int - 48) * 10 + (text[at + 1] as int - 48)
  }

  /** `UtcTimestamp::parse`, keeping the fields it reads. */
  function ParseTimestamp(text: Bytes): Option<Timestamp> {
    if !FixedShape(text) then None
    else
      var date := Date(TwoDigits(text, 0) * 100 + TwoDigits(text, 2), TwoDigits(text, 5), TwoDigits(text, 8));
      var t := Timestamp(date, TwoDigits(text, 11), TwoDigits(text, 14), TwoDigits(text, 17));
      if date.year == 0 || !(1 <= date.day <= DaysInMonth(date.year, date.month))
         || t.hour > 23 || t.minute > 59 || t.second > 59
      then None else Some(t)
  }

  function UtcTimestampFromEpochSeconds(seconds: nat): Option<Bytes> {
    if seconds > I64_MAX then None
    else
      var date := CivilFromDays(seconds / 86_400);
      var secondOfDay := seconds % 86_400;
      CivilRoundTrip(seconds / 86_400);
      if !(1 <= date.year <= 9999) then None
      else Some(Render(Timestamp(date, secondOfDay / 3_600, secondOfDay % 3_600 / 60, secondOfDay % 60)))
  }

  /** The checked `i64` arithmetic cannot overflow on four-digit years. */
  function UtcEpochSeconds(text: Bytes): Option<nat> {
    match ParseTimestamp(text)
    case None => None
    case Some(t) =>
      var seconds := DaysFromCivil(t.date) * 86_400 + t.hour * 3_600 + t.minute * 60 + t.second;
      if 0 <= seconds <= U64_MAX then Some(seconds) else None
  }

  lemma TwoDigitsOfTwo(text: Bytes, at: nat, n: int)
    requires 0 <= n < 100 && at + 2 <= |text| && text[at..at + 2] == Two(n)
    ensures IsDigit(text[at]) && IsDigit(text[at + 1]) && TwoDigits(text, at) == n
  {
    assert text[at] == text[at..at + 2][0] && text[at + 1] == text[at..at + 2][1];
  }

  lemma ParseIsLeftInverse(t: Timestamp)
    requires ValidTimestamp(t)
    ensures ParseTimestamp(Render(t)) == Some(t)
  {
    hide Two, TwoDigits, LeapYear;
    var text := Render(t);
    TwoDigitsOfTwo(text, 0, t.date.year / 100);
    TwoDigitsOfTwo(text, 2, t.date.year % 100);
    TwoDigitsOfTwo(text, 5, t.date.month);
    TwoDigitsOfTwo(text, 8, t.date.day);
    TwoDigitsOfTwo(text, 11, t.hour);
    TwoDigitsOfTwo(text, 14, t.minute);
    TwoDigitsOfTwo(text, 17, t.second);
  }

  lemma TwoOfTwoDigits(text: Bytes, at: nat)
    requires at + 2 <= |text| && IsDigit(text[at]) && IsDigit(text[at + 1])
    ensures 0 <= TwoDigits(text, at) < 100 && Two(TwoDigits(text, at)) == text[at..at + 2]
  {
  }

  lemma ParseIsRightInverse(text: Bytes)
    requires ParseTimestamp(text).Some?
    ensures ValidTimestamp(ParseTimestamp(text).value) && Render(ParseTimestamp(text).value) == text
  {
    hide Two, TwoDigits;
    var t := ParseTimestamp(text).value;
    TwoOfTwoDigits(text, 0);
    TwoOfTwoDigits(text, 2);
    TwoOfTwoDigits(text, 5);
    TwoOfTwoDigits(text, 8);
    TwoOfTwoDigits(text, 11);
    TwoOfTwoDigits(text, 14);
    TwoOfTwoDigits(text, 17);
    assert t.date.year / 100 == TwoDigits(text, 0) && t.date.year % 100 == TwoDigits(text, 2);
    assert Render(t) == text;
  }

  lemma SecondParts(days: int, hour: int, minute: int, second: int)
    requires 0 <= hour <= 23 && 0 <= minute <= 59 && 0 <= second <= 59
    ensures var seconds := days * 86_400 + hour * 3_600 + minute * 60 + second;
            var rest := seconds % 86_400;
            && seconds / 86_400 == days
            && rest / 3_600 == hour && rest % 3_600 / 60 == minute && rest % 60 == second
  {
    var seconds := days * 86_400 + hour * 3_600 + minute * 60 + second;
    var rest := hour * 3_600 + minute * 60 + second;
    assert 0 <= rest < 86_400;
    assert seconds / 86_400 == days && seconds % 86_400 == rest;
    assert rest / 3_600 == hour && rest % 3_600 == minute * 60 + second;
    assert (minute * 60 + second) / 60 == minute;
    assert rest == 60 * (60 * hour + minute) + second;
  }

  const END_OF_YEAR_9999: nat := 253_402_300_800

  lemma FirstAndLastYear()
    ensures YearStart(1970) == 0 && YearStart(10_000) == END_OF_YEAR_9999 / 86_400
  {
    assert EraOf(1969, 400) == 4 && EraOf(9999, 400) == 24;
  }

  /** Rendering is defined exactly up to the end of year 9999, and parsing the result returns the second. */
  lemma SecondsRoundTrip(seconds: nat)
    ensures UtcTimestampFromEpochSeconds(seconds).Some? <==> seconds < END_OF_YEAR_9999
    ensures seconds < END_OF_YEAR_9999 ==>
              UtcEpochSeconds(UtcTimestampFromEpochSeconds(seconds).value) == Some(seconds)
  {
    hide CivilFromDays, DaysFromCivil, YearStart, ParseTimestamp, Render;
    var days, secondOfDay := seconds / 86_400, seconds % 86_400;
    CivilRoundTrip(days);
    YearBound(CivilFromDays(days), 1970);
    YearBound(CivilFromDays(days), 10_000);
    FirstAndLastYear();
    if seconds < END_OF_YEAR_9999 {
      ParseIsLeftInverse(Timestamp(CivilFromDays(days), secondOfDay / 3_600, secondOfDay % 3_600 / 60,
                                   secondOfDay % 60));
    }
  }

  /** Parsing is defined exactly on valid timestamps from 1970 on, and such a timestamp renders back to itself. */
  lemma TextRoundTrip(text: Bytes)
    ensures UtcEpochSeconds(text).Some? <==>
              ParseTimestamp(text).Some? && ParseTimestamp(text).value.date.year >= 1970
    ensures UtcEpochSeconds(text).Some? ==>
              UtcTimestampFromEpochSeconds(UtcEpochSeconds(text).value) == Some(text)
  {
    hide CivilFromDays, DaysFromCivil, DaysInMonth, YearStart, ParseTimestamp, Render;
    if ParseTimestamp(text).Some? {
      var t := ParseTimestamp(text).value;
      ParseIsRightInverse(text);
      YearBound(t.date, 1970);
      YearBound(t.date, 10_000);
      FirstAndLastYear();
      DateRoundTrip(t.date);
      SecondParts(DaysFromCivil(t.date), t.hour, t.minute, t.second);
    }
  }

  // The order of timestamps.

  predicate DateLess(a: Date, b: Date) {
    a.year < b.year || (a.year == b.year && (a.month < b.month || (a.month == b.month && a.day < b.day)))
  }

  predicate TimeLess(t: Timestamp, u: Timestamp) {
    || DateLess(t.date, u.date)
    || (t.date == u.date
        && (t.hour < u.hour
            || (t.hour == u.hour && (t.minute < u.minute || (t.minute == u.minute && t.second < u.second)))))
  }

  /** Byte order: the first byte that differs decides. */
  ghost predicate TextLess(a: Bytes, b: Bytes) {
    exists k :: 0 <= k < |a| && k < |b| && a[..k] == b[..k] && a[k] < b[k]
  }

  lemma {:induction false} LaterDays(days: int, later: int)
    requires days < later
    ensures DateLess(CivilFromDays(days), CivilFromDays(later))
    decreases later - days
  {
    hide CivilFromDays, ValidDate;
    CivilFollowsCalendar(later - 1);
    if days < later - 1 {
      LaterDays(days, later - 1);
    }
  }

  function TimestampOf(seconds: nat): Timestamp {
    var rest := seconds % 86_400;
    Timestamp(CivilFromDays(seconds / 86_400), rest / 3_600, rest % 3_600 / 60, rest % 60)
  }

  lemma LaterTimes(seconds: nat, later: nat)
    requires seconds < later
    ensures TimeLess(TimestampOf(seconds), TimestampOf(later))
  {
    hide CivilFromDays, DateLess;
    var days, laterDays := seconds / 86_400, later / 86_400;
    if days < laterDays {
      LaterDays(days, laterDays);
    } else {
      assert days == laterDays;
      LaterInDay(seconds % 86_400, later % 86_400);
    }
  }

  lemma LaterInDay(rest: nat, later: nat)
    requires rest < later
    ensures || rest / 3_600 < later / 3_600
            || (rest / 3_600 == later / 3_600
                && (rest % 3_600 / 60 < later % 3_600 / 60
                    || (rest % 3_600 / 60 == later % 3_600 / 60 && rest % 60 < later % 60)))
  {
    SixtyOfHour(rest);
    SixtyOfHour(later);
  }

  lemma SixtyOfHour(rest: nat)
    ensures rest % 3_600 % 60 == rest % 60
  {
    assert rest == 60 * (60 * (rest / 3_600) + rest % 3_600 / 60) + rest % 3_600 % 60;
  }

  lemma FieldLess(a: Bytes, b: Bytes, at: nat, n: int, m: int)
    requires 0 <= n < m < 100 && at + 2 <= |a| && at + 2 <= |b| && a[..at] == b[..at]
    requires a[at..at + 2] == Two(n) && b[at..at + 2] == Two(m)
    ensures TextLess(a, b)
  {
    assert a[at] == Two(n)[0] && a[at + 1] == Two(n)[1] && b[at] == Two(m)[0] && b[at + 1] == Two(m)[1];
    if n / 10 == m / 10 {
      assert a[..at + 1] == a[..at] + [a[at]] && b[..at + 1] == b[..at] + [b[at]];
      assert a[..at + 1] == b[..at + 1];
    }
  }

  lemma RenderedFields(t: Timestamp)
    requires ValidTimestamp(t)
    ensures var text := Render(t);
            && |text| == 20 && 1 <= t.date.month <= 12 && 1 <= t.date.day <= 31
            && text[0..2] == Two(t.date.year / 100) && text[2..4] == Two(t.date.year % 100) && text[4] == 45
            && text[5..7] == Two(t.date.month) && text[7] == 45 && text[8..10] == Two(t.date.day) && text[10] == 84
            && text[11..13] == Two(t.hour) && text[13] == 58 && text[14..16] == Two(t.minute) && text[16] == 58
            && text[17..19] == Two(t.second) && text[19] == 90
  {
    hide Two, LeapYear;
  }

  lemma LongerPrefix(a: Bytes, b: Bytes, at: nat, separated: bool)
    requires at + 3 <= |a| && at + 3 <= |b| && a[..at] == b[..at] && a[at..at + 2] == b[at..at + 2]
    requires separated ==> a[at + 2] == b[at + 2]
    ensures a[..at + 2] == b[..at + 2] && (separated ==> a[..at + 3] == b[..at + 3])
  {
    assert a[..at + 2] == a[..at] + a[at..at + 2] && b[..at + 2] == b[..at] + b[at..at + 2];
    assert a[..at + 3] == a[..at + 2] + [a[at + 2]] && b[..at + 3] == b[..at + 2] + [b[at + 2]];
  }

  /** The rendered text orders timestamps as they follow each other. */
  lemma EarlierTextIsLess(t: Timestamp, u: Timestamp)
    requires ValidTimestamp(t) && ValidTimestamp(u) && TimeLess(t, u)
    ensures TextLess(Render(t), Render(u))
  {
    hide Two, LeapYear, DaysInMonth, TextLess, Render;
    var a, b := Render(t), Render(u);
    RenderedFields(t);
    RenderedFields(u);
    assert a[..0] == b[..0];
    if t.date.year / 100 != u.date.year / 100 {
      FieldLess(a, b, 0, t.date.year / 100, u.date.year / 100);
      return;
    }
    LongerPrefix(a, b, 0, false);
    if t.date.year != u.date.year {
      FieldLess(a, b, 2, t.date.year % 100, u.date.year % 100);
      return;
    }
    LongerPrefix(a, b, 2, true);
    if t.date.month != u.date.month {
      FieldLess(a, b, 5, t.date.month, u.date.month);
      return;
    }
    LongerPrefix(a, b, 5, true);
    if t.date.day != u.date.day {
      FieldLess(a, b, 8, t.date.day, u.date.day);
      return;
    }
    LongerPrefix(a, b, 8, true);
    if t.hour != u.hour {
      FieldLess(a, b, 11, t.hour, u.hour);
      return;
    }
    LongerPrefix(a, b, 11, true);
    if t.minute != u.minute {
      FieldLess(a, b, 14, t.minute, u.minute);
      return;
    }
    LongerPrefix(a, b, 14, true);
    FieldLess(a, b, 17, t.second, u.second);
  }

  /** A later second has a text that comes later in byte order. */
  lemma TextsAreOrdered(seconds: nat, later: nat)
    requires seconds < later < END_OF_YEAR_9999
    ensures UtcTimestampFromEpochSeconds(seconds).Some? && UtcTimestampFromEpochSeconds(later).Some?
    ensures TextLess(UtcTimestampFromEpochSeconds(seconds).value, UtcTimestampFromEpochSeconds(later).value)
  {
    hide CivilFromDays, Render, TextLess, TimeLess, ValidDate;
    SecondsRoundTrip(seconds);
    SecondsRoundTrip(later);
    CivilRoundTrip(seconds / 86_400);
    CivilRoundTrip(later / 86_400);
    LaterTimes(seconds, later);
    EarlierTextIsLess(TimestampOf(seconds), TimestampOf(later));
  }

  /** Second 90 is 1970-01-01T00:01:30Z. */
  lemma NinetySeconds()
    ensures UtcTimestampFromEpochSeconds(90)
            == Some([49, 57, 55, 48, 45, 48, 49, 45, 48, 49, 84, 48, 48, 58, 48, 49, 58, 51, 48, 90])
  {
    EpochDay();
    hide CivilFromDays;
    var t := Timestamp(Date(1970, 1, 1), 0, 1, 30);
    assert Render(t) == [49, 57, 55, 48, 45, 48, 49, 45, 48, 49, 84, 48, 48, 58, 48, 49, 58, 51, 48, 90];
    assert 90 / 86_400 == 0 && 90 % 86_400 == 90 && 90 / 3_600 == 0;
  }
}
