/** Dates from day numbers in closed form, and day numbers from dates by counting. */
module Calendar {
  import opened Wrappers

  datatype Date = Date(year: int, month: int, day: int)

  // ---- the calendar, by counting ----

  predicate IsLeap(year: int) {
    year % 4 == 0 && (year % 100 != 0 || year % 400 == 0)
  }

  function YearLength(year: int): int {
    if IsLeap(year) then 366 else 365
  }

  function DaysInMonth(year: int, month: int): int {
    if month in {1, 3, 5, 7, 8, 10, 12} then 31
    else if month == 2 then (if IsLeap(year) then 29 else 28)
    else 30
  }

  predicate IsDate(date: Date) {
    1 <= date.month <= 12 && 1 <= date.day <= DaysInMonth(date.year, date.month)
  }

  /** Days from 1 January 1970 to 1 January of `year`, year by year in either direction. */
  function DaysBeforeYear(year: int): int
    decreases if year >= 1970 then year - 1970 else 1970 - year
  {
    if year == 1970 then 0
    else if year > 1970 then DaysBeforeYear(year - 1) + YearLength(year - 1)
    else DaysBeforeYear(year + 1) - YearLength(year)
  }

  function DaysBeforeMonth(year: int, month: int): int
    requires 1 <= month
    decreases month
  {
    if month == 1 then 0 else DaysBeforeMonth(year, month - 1) + DaysInMonth(year, month - 1)
  }

  /** Days from 1 January 1970; `day` may run past the end of the month. */
  function DayNumber(date: Date): int
    requires 1 <= date.month
  {
    DaysBeforeYear(date.year) + DaysBeforeMonth(date.year, date.month) + (date.day - 1)
  }

  function NextDay(date: Date): Date {
    if date.day < DaysInMonth(date.year, date.month) then date.(day := date.day + 1)
    else if date.month < 12 then Date(date.year, date.month + 1, 1)
    else Date(date.year + 1, 1, 1)
  }

  // ---- the closed form ----

  /** Rust's division of signed integers, which drops the fraction. */
  function Quotient(a: int, b: nat): int
    requires b > 0
  {
    if a >= 0 then a / b else -((-a) / b)
  }

  function DaysToDate(days: int): Date {
    var z := days + 719468;
    var era := if z >= 0 then Quotient(z, 146097) else Quotient(z - 146096, 146097);
    var doe := z - era * 146097;
    var yoe := YearOfEra(doe);
    var y := yoe + era * 400;
    var doy := doe - YearStart(yoe);
    var mp := Quotient(5 * doy + 2, 153);
    var d := doy - Quotient(153 * mp + 2, 5) + 1;
    var m := if mp < 10 then mp + 3 else mp - 9;
    Date(if m <= 2 then y + 1 else y, m, d)
  }

  function YearOfEra(doe: int): int {
    Quotient(doe - Quotient(doe, 1460) + Quotient(doe, 36524) - Quotient(doe, 146096), 365)
  }

  /** First day of a year of an era, both counted from zero and from March. */
  function YearStart(yoe: int): int {
    365 * yoe + Quotient(yoe, 4) - Quotient(yoe, 100)
  }

  datatype Stamp = Stamp(date: Date, hours: nat, minutes: nat)

  function FormatTimestamp(secs: nat): Stamp {
    var timeOfDay := secs % 86400;
    Stamp(DaysToDate(secs / 86400), timeOfDay / 3600, timeOfDay % 3600 / 60)
  }

  // ---- counting in closed form ----

  function LeapsUpTo(year: int): int {
    year / 4 - year / 100 + year / 400
  }

  lemma OneMoreLeap(year: int)
    ensures LeapsUpTo(year) == LeapsUpTo(year - 1) + (if IsLeap(year) then 1 else 0)
  {
    assert year / 4 - (year - 1) / 4 == if year % 4 == 0 then 1 else 0;
    assert year / 100 - (year - 1) / 100 == if year % 100 == 0 then 1 else 0;
    assert year / 400 - (year - 1) / 400 == if year % 400 == 0 then 1 else 0;
    LeapDivides(year);
  }

  lemma LeapDivides(year: int)
    ensures year % 400 == 0 ==> year % 100 == 0
    ensures year % 100 == 0 ==> year % 4 == 0
  {
  }

  /** 1 March of a year, by formula: the counting and the closed form meet here. */
  lemma {:induction false} MarchFirst(year: int)
    ensures DaysBeforeYear(year) + 59 + (if IsLeap(year) then 1 else 0) == 365 * year + LeapsUpTo(year) - 719468
    decreases if year >= 1970 then year - 1970 else 1970 - year
  {
    assert LeapsUpTo(1970) == 477 && !IsLeap(1970);
    OneMoreLeap(year);
    OneMoreLeap(year + 1);
    hide LeapsUpTo, IsLeap;
    if year > 1970 {
      MarchFirst(year - 1);
    } else if year < 1970 {
      MarchFirst(year + 1);
    }
  }

  lemma NextYear(year: int)
    ensures DaysBeforeYear(year + 1) == DaysBeforeYear(year) + YearLength(year)
  {
  }

  lemma MonthOffsets(year: int)
    ensures DaysBeforeMonth(year, 1) == 0 && DaysBeforeMonth(year, 2) == 31
    ensures var f := if IsLeap(year) then 60 else 59;
      && DaysBeforeMonth(year, 3) == f && DaysBeforeMonth(year, 4) == f + 31 && DaysBeforeMonth(year, 5) == f + 61
      && DaysBeforeMonth(year, 6) == f + 92 && DaysBeforeMonth(year, 7) == f + 122
      && DaysBeforeMonth(year, 8) == f + 153
      && DaysBeforeMonth(year, 9) == f + 184 && DaysBeforeMonth(year, 10) == f + 214
      && DaysBeforeMonth(year, 11) == f + 245 && DaysBeforeMonth(year, 12) == f + 275
  {
    assert DaysBeforeMonth(year, 2) == 31;
    assert DaysBeforeMonth(year, 4) == DaysBeforeMonth(year, 3) + 31;
    assert DaysBeforeMonth(year, 6) == DaysBeforeMonth(year, 4) + 61;
    assert DaysBeforeMonth(year, 8) == DaysBeforeMonth(year, 6) + 61;
    assert DaysBeforeMonth(year, 10) == DaysBeforeMonth(year, 8) + 61;
    assert DaysBeforeMonth(year, 12) == DaysBeforeMonth(year, 10) + 61;
  }

  // ---- the parts of the closed form ----

  /** Century, four-year cycle and year within it place a day of an era. */
  lemma EraParts(doe: int) returns (c: int, b: int, a: int, doy: int)
    requires 0 <= doe < 146097
    ensures 0 <= c <= 3 && 0 <= b <= 24 && 0 <= a <= 3 && 0 <= doy <= 365
    ensures doy == 365 ==> a == 3 && (b != 24 || c == 3)
    ensures doe == 36524 * c + 1461 * b + 365 * a + doy
  {
    c := if doe == 146096 then 3 else doe / 36524;
    var inCentury := doe - 36524 * c;
    b := inCentury / 1461;
    var inCycle := inCentury - 1461 * b;
    a := if inCycle == 1460 then 3 else inCycle / 365;
    doy := inCycle - 365 * a;
  }

  lemma CycleQuotient(c: int, b: int, a: int, doy: int)
    requires 0 <= c <= 3 && 0 <= b <= 24 && 0 <= a <= 3 && 0 <= doy <= 365
    ensures (36524 * c + 1461 * b + 365 * a + doy) / 1460
         == 25 * c + b + (if 24 * c + b + 365 * a + doy >= 1460 then 1 else 0)
  {
    var rest := 24 * c + b + 365 * a + doy;
    assert 36524 * c + 1461 * b + 365 * a + doy == 1460 * (25 * c + b) + rest;
    assert 0 <= rest < 2920;
  }

  lemma CenturyQuotient(c: int, b: int, a: int, doy: int)
    requires 0 <= c <= 3 && 0 <= b <= 24 && 0 <= a <= 3 && 0 <= doy <= 365
    requires doy == 365 ==> a == 3 && (b != 24 || c == 3)
    ensures var doe := 36524 * c + 1461 * b + 365 * a + doy;
      0 <= doe <= 146096 && doe / 36524 - doe / 146096 == c
  {
    var inCentury := 1461 * b + 365 * a + doy;
    assert inCentury < 36524 || (c == 3 && inCentury == 36524);
  }

  lemma YearOfEraIs(c: int, b: int, a: int, doy: int)
    requires 0 <= c <= 3 && 0 <= b <= 24 && 0 <= a <= 3 && 0 <= doy <= 365
    requires doy == 365 ==> a == 3 && (b != 24 || c == 3)
    ensures var doe := 36524 * c + 1461 * b + 365 * a + doy;
      && YearOfEra(doe) == 100 * c + 4 * b + a
      && YearStart(YearOfEra(doe)) == doe - doy
  {
    var doe := 36524 * c + 1461 * b + 365 * a + doy;
    CycleQuotient(c, b, a, doy);
    CenturyQuotient(c, b, a, doy);
    var e := if 24 * c + b + 365 * a + doy >= 1460 then 1 else 0;
    var yoe := 100 * c + 4 * b + a;
    assert Quotient(doe, 1460) == 25 * c + b + e && Quotient(doe, 36524) - Quotient(doe, 146096) == c;
    assert YearOfEra(doe) == Quotient(365 * yoe + (doy - e), 365);
    assert 0 <= doy - e < 365;
    assert Quotient(yoe, 4) == 25 * c + b && Quotient(yoe, 100) == c;
  }

  function MonthIndex(doy: int): int {
    (5 * doy + 2) / 153
  }

  /** Days from 1 March to the first of a month. */
  function MonthFirst(mp: int): int {
    (153 * mp + 2) / 5
  }

  lemma MonthFirsts()
    ensures MonthFirst(0) == 0 && MonthFirst(1) == 31 && MonthFirst(2) == 61 && MonthFirst(3) == 92
    ensures MonthFirst(4) == 122 && MonthFirst(5) == 153 && MonthFirst(6) == 184 && MonthFirst(7) == 214
    ensures MonthFirst(8) == 245 && MonthFirst(9) == 275 && MonthFirst(10) == 306 && MonthFirst(11) == 337
  {
  }

  /** The month formula splits a March-based year into its months. */
  lemma MonthParts(doy: int)
    requires 0 <= doy <= 365
    ensures var mp := MonthIndex(doy);
      && 0 <= mp <= 11
      && MonthFirst(mp) <= doy
      && (mp < 11 ==> doy < MonthFirst(mp + 1))
  {
  }

  lemma EraSplit(days: int) returns (era: int, doe: int)
    ensures days + 719468 == era * 146097 + doe && 0 <= doe < 146097
    ensures era == (var z := days + 719468; if z >= 0 then Quotient(z, 146097) else Quotient(z - 146096, 146097))
  {
    var z := days + 719468;
    era := z / 146097;
    doe := z % 146097;
  }

  lemma LeapsInEra(era: int, yoe: int)
    requires 0 <= yoe < 400
    ensures LeapsUpTo(yoe + era * 400) == 97 * era + yoe / 4 - yoe / 100
  {
    var y := yoe + era * 400;
    assert y / 4 == 100 * era + yoe / 4 by {
      assert yoe == 4 * (yoe / 4) + yoe % 4;
    }
    assert y / 100 == 4 * era + yoe / 100 by {
      assert yoe == 100 * (yoe / 100) + yoe % 100;
    }
    assert y / 400 == era;
  }

  /** The year after holds 29 February when the year ends a four-year cycle and, if it ends a century, the era. */
  lemma LeapAtEndOfCycle(era: int, c: int, b: int)
    requires 0 <= c <= 3 && 0 <= b <= 24 && (b != 24 || c == 3)
    ensures IsLeap(100 * c + 4 * b + 3 + era * 400 + 1)
  {
    var next := 100 * c + 4 * b + 4 + era * 400;
    assert next == 4 * (25 * c + b + 1 + 100 * era);
    if b == 24 {
      assert next == 400 * (era + 1);
    } else {
      assert next == 100 * (c + 4 * era) + (4 * b + 4);
    }
  }

  /** A day of a March-based year, as month and day. */
  function MarchDate(y: int, doy: int): Date {
    var mp := MonthIndex(doy);
    var m := if mp < 10 then mp + 3 else mp - 9;
    Date(if m <= 2 then y + 1 else y, m, doy - MonthFirst(mp) + 1)
  }

  predicate InMarchYear(y: int, doy: int) {
    0 <= doy < 365 + (if IsLeap(y + 1) then 1 else 0)
  }

  /** It is a date, and counting to it gives 1 March plus the day. */
  lemma MarchDateCounts(y: int, doy: int)
    requires InMarchYear(y, doy)
    ensures IsDate(MarchDate(y, doy))
    ensures DayNumber(MarchDate(y, doy)) == 365 * y + LeapsUpTo(y) - 719468 + doy
  {
    MonthParts(doy);
    MonthFirsts();
    MonthOffsets(y);
    MonthOffsets(y + 1);
    MarchFirst(y);
    NextYear(y);
    hide DaysBeforeYear, DaysBeforeMonth, MonthIndex, MonthFirst, IsLeap, LeapsUpTo;
    var mp := MonthIndex(doy);
    assert IsDate(MarchDate(y, doy));
  }

  lemma YearPlaces(era: int, doe: int) returns (yoe: int, doy: int)
    requires 0 <= doe < 146097
    ensures yoe == YearOfEra(doe) && doy == doe - YearStart(yoe)
    ensures var y := yoe + era * 400;
      InMarchYear(y, doy) && era * 146097 + doe == 365 * y + LeapsUpTo(y) + doy
  {
    var c, b, a, r := EraParts(doe);
    YearOfEraIs(c, b, a, r);
    hide YearOfEra;
    yoe := YearOfEra(doe);
    doy := r;
    LeapsInEra(era, yoe);
    if doy == 365 {
      LeapAtEndOfCycle(era, c, b);
    }
    assert YearStart(yoe) == 365 * yoe + yoe / 4 - yoe / 100;
    hide IsLeap, LeapsUpTo;
  }

  lemma ClosedFormIs(days: int) returns (y: int, doy: int)
    ensures DaysToDate(days) == MarchDate(y, doy)
    ensures InMarchYear(y, doy)
    ensures days == 365 * y + LeapsUpTo(y) - 719468 + doy
  {
    var era, doe := EraSplit(days);
    var yoe, r := YearPlaces(era, doe);
    doy := r;
    y := yoe + era * 400;
    assert 0 <= doy <= 365;
    MonthParts(doy);
    assert Quotient(5 * doy + 2, 153) == MonthIndex(doy);
    assert Quotient(153 * MonthIndex(doy) + 2, 5) == MonthFirst(MonthIndex(doy));
    hide YearOfEra, YearStart, MonthIndex, MonthFirst, LeapsUpTo, InMarchYear, Quotient;
  }

  // ---- the bijection ----

  /** Every day number has a date, and counting to that date gives the number back. */
  lemma DateOfDay(days: int)
    ensures IsDate(DaysToDate(days))
    ensures DayNumber(DaysToDate(days)) == days
  {
    var y, doy := ClosedFormIs(days);
    MarchDateCounts(y, doy);
  }

  lemma {:induction false} YearsIncrease(a: int, b: int)
    requires a < b
    ensures DaysBeforeYear(a + 1) <= DaysBeforeYear(b)
    decreases b - a
  {
    if a + 1 < b {
      YearsIncrease(a, b - 1);
      NextYear(b - 1);
    }
  }

  lemma {:induction false} MonthsIncrease(year: int, a: int, b: int)
    requires 1 <= a < b
    ensures DaysBeforeMonth(year, a) + DaysInMonth(year, a) <= DaysBeforeMonth(year, b)
    decreases b
  {
    if a + 1 < b {
      MonthsIncrease(year, a, b - 1);
    }
  }

  lemma WithinYear(date: Date)
    requires IsDate(date)
    ensures DaysBeforeYear(date.year) <= DayNumber(date) < DaysBeforeYear(date.year + 1)
  {
    MonthOffsets(date.year);
    NextYear(date.year);
    if date.month > 1 {
      MonthsIncrease(date.year, 1, date.month);
    }
    if date.month < 12 {
      MonthsIncrease(date.year, date.month, 12);
    }
  }

  predicate Before(a: Date, b: Date) {
    a.year < b.year || (a.year == b.year && (a.month < b.month || (a.month == b.month && a.day < b.day)))
  }

  /** Later dates have larger numbers. */
  lemma CountingIncreases(a: Date, b: Date)
    requires IsDate(a) && IsDate(b) && Before(a, b)
    ensures DayNumber(a) < DayNumber(b)
  {
    if a.year < b.year {
      WithinYear(a);
      WithinYear(b);
      YearsIncrease(a.year, b.year);
    } else if a.month < b.month {
      MonthsIncrease(a.year, a.month, b.month);
    }
  }

  lemma CountingIsInjective(a: Date, b: Date)
    requires IsDate(a) && IsDate(b) && DayNumber(a) == DayNumber(b)
    ensures a == b
  {
    hide DayNumber, IsDate;
    if Before(a, b) {
      CountingIncreases(a, b);
    } else if Before(b, a) {
      CountingIncreases(b, a);
    }
  }

  /** The closed form inverts the counting on every date. */
  lemma DayOfDate(date: Date)
    requires IsDate(date)
    ensures DaysToDate(DayNumber(date)) == date
  {
    DateOfDay(DayNumber(date));
    hide DaysToDate, DaysBeforeYear, DaysBeforeMonth;
    CountingIsInjective(DaysToDate(DayNumber(date)), date);
  }

  lemma NextDayCounts(date: Date)
    requires IsDate(date)
    ensures IsDate(NextDay(date)) && DayNumber(NextDay(date)) == DayNumber(date) + 1
  {
    NextYear(date.year);
    if date.month == 12 {
      MonthOffsets(date.year);
      MonthOffsets(date.year + 1);
    }
  }

  /** Consecutive days are consecutive dates. */
  lemma ConsecutiveDays(days: int)
    ensures DaysToDate(days + 1) == NextDay(DaysToDate(days))
  {
    DateOfDay(days);
    hide DaysToDate, DayNumber, IsDate, NextDay;
    NextDayCounts(DaysToDate(days));
    DayOfDate(NextDay(DaysToDate(days)));
  }

  // ---- the parser's date branch ----

  predicate Accepted(year: int, month: int, day: int) {
    1970 <= year <= 2100 && 1 <= month <= 12 && 1 <= day <= 31
  }

  /** The date branch of the time filter, from the three numbers on. */
  method ParseDate(year: nat, month: nat, day: nat) returns (r: Option<nat>)
    ensures r.Some? <==> Accepted(year, month, day)
    ensures r.Some? ==> r.value == DayNumber(Date(year, month, day)) * 86400
  {
    if !(1970 <= year <= 2100 && 1 <= month <= 12 && 1 <= day <= 31) {
      return None;
    }
    var ts := 0;
    var y := 1970;
    while y < year
      invariant 1970 <= y <= year
      invariant ts == DaysBeforeYear(y) * 86400
    {
      var daysInYear := if y % 4 == 0 && (y % 100 != 0 || y % 400 == 0) then 366 else 365;
      ts := ts + daysInYear * 86400;
      y := y + 1;
    }
    for m := 1 to month
      invariant ts == (DaysBeforeYear(year) + DaysBeforeMonth(year, m)) * 86400
    {
      ts := ts + DaysInMonth(year, m) * 86400;
    }
    ts := ts + (day - 1) * 86400;
    YearsNotNegative(year);
    MonthsNotNegative(year, month);
    r := Some(ts);
  }

  lemma {:induction false} YearsNotNegative(year: int)
    requires year >= 1970
    ensures DaysBeforeYear(year) >= 0
  {
    if year > 1970 {
      YearsIncrease(1970, year);
      NextYear(1970);
    }
  }

  lemma MonthsNotNegative(year: int, month: int)
    requires month >= 1
    ensures DaysBeforeMonth(year, month) >= 0
  {
    if month > 1 {
      MonthsIncrease(year, 1, month);
    }
  }

  /** Days from 1970 on have years from 1970 on; the parser reads their dates back until the year 2100. */
  lemma ParserReadsShownDate(days: nat)
    ensures var date := DaysToDate(days);
      && date.year >= 1970
      && (date.year <= 2100 <==> Accepted(date.year, date.month, date.day))
      && 1 <= date.month && DayNumber(date) * 86400 == days * 86400
  {
    DateOfDay(days);
    hide DaysToDate, DaysBeforeMonth;
    var date := DaysToDate(days);
    WithinYear(date);
    if date.year < 1970 {
      if date.year < 1969 {
        YearsIncrease(date.year, 1970);
      }
    }
  }

  /** An accepted date is shown back as written exactly when the month has that day; otherwise it has rolled over. */
  lemma AcceptedIsShownIff(year: nat, month: nat, day: nat)
    requires Accepted(year, month, day)
    ensures var shown := DaysToDate(DayNumber(Date(year, month, day)));
      && (shown == Date(year, month, day) <==> day <= DaysInMonth(year, month))
      && (day > DaysInMonth(year, month) ==> shown == Date(year, month + 1, day - DaysInMonth(year, month)))
  {
    var date := Date(year, month, day);
    if day <= DaysInMonth(year, month) {
      DayOfDate(date);
    } else {
      var rolled := Date(year, month + 1, day - DaysInMonth(year, month));
      assert DayNumber(rolled) == DayNumber(date);
      DayOfDate(rolled);
    }
  }

  /** The thirty-first of February 2023 is accepted and stands for the third of March. */
  lemma FebruaryThirtyFirst()
    ensures Accepted(2023, 2, 31)
    ensures DaysToDate(DayNumber(Date(2023, 2, 31))) == Date(2023, 3, 3)
  {
    AcceptedIsShownIff(2023, 2, 31);
    hide DaysToDate, DayNumber;
  }

  /** What is shown of a timestamp gives it back to the minute. */
  lemma ShownToTheMinute(secs: nat)
    ensures var s := FormatTimestamp(secs);
      && IsDate(s.date) && s.hours < 24 && s.minutes < 60
      && DayNumber(s.date) * 86400 + s.hours * 3600 + s.minutes * 60 == secs - secs % 60
  {
    DateOfDay(secs / 86400);
    hide DaysToDate, DayNumber, IsDate;
    var d, t := secs / 86400, secs % 86400;
    var h, rest := t / 3600, t % 3600;
    Sexagesimal(secs, 1440 * d + 60 * h + rest / 60, rest % 60);
  }

  lemma Sexagesimal(n: nat, q: nat, r: nat)
    requires n == 60 * q + r && r < 60
    ensures n % 60 == r
  {
  }
}
