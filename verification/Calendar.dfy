/** The year and month loops behind `calculate_monthly_sla_compliance`, against the
    closed form of section 4.16 of POSIX.1-2017 ("Seconds Since the Epoch"). */
module Calendar {
  import opened Ints

  const SECONDS_PER_DAY: int := 86400

  predicate IsLeap(year: int)
  {
    year % 4 == 0 && (year % 100 != 0 || year % 400 == 0)
  }

  function DaysInYear(year: int): (d: nat)
  {
    if IsLeap(year) then 366 else 365
  }

  function DaysInMonth(year: int, month: int): (d: nat)
  {
    if month == 2 then (if IsLeap(year) then 29 else 28)
    else if month == 4 || month == 6 || month == 9 || month == 11 then 30
    else if 1 <= month <= 12 then 31
    else 0
  }

  /** Days from 1 January 1970 to 1 January of `year`, as the year loop counts them. */
  function DaysBeforeYear(year: int): (d: nat)
    decreases year
  {
    if year <= 1970 then 0 else DaysBeforeYear(year - 1) + DaysInYear(year - 1)
  }

  /** Days from 1 January to the first of `month`, as the month loop counts them. */
  function DaysBeforeMonth(year: int, month: int): (d: nat)
    decreases month
  {
    if month <= 1 then 0 else DaysBeforeMonth(year, month - 1) + DaysInMonth(year, month - 1)
  }

  /** Day number of the first of a month. */
  function FirstDay(year: int, month: int): (d: nat)
  {
    DaysBeforeYear(year) + DaysBeforeMonth(year, month)
  }

  /** The day part of the POSIX formula, with tm_year = year - 1900 and tm_yday = yday. */
  function PosixDays(year: int, yday: int): int
  {
    var tmYear := year - 1900;
    yday + (tmYear - 70) * 365 + (tmYear - 69) / 4 - (tmYear - 1) / 100 + (tmYear + 299) / 400
  }

  lemma {:induction false} YearLoopIsClosedForm(year: int)
    requires year >= 1970
    ensures DaysBeforeYear(year) == PosixDays(year, 0)
    decreases year
  {
    if year > 1970 {
      YearLoopIsClosedForm(year - 1);
      PosixYearStep(year);
    }
  }

  lemma PosixYearStep(year: int)
    ensures PosixDays(year, 0) == PosixDays(year - 1, 0) + DaysInYear(year - 1)
  {
    QuarterStep(year - 1970);
    CenturyStep(year - 1902);
    FourCenturyStep(year - 1602);
    LeapBySieve(year - 1);
  }

  lemma LeapBySieve(y: int)
    ensures DaysInYear(y) ==
            365 + (if y % 4 == 0 then 1 else 0) - (if y % 100 == 0 then 1 else 0) + (if y % 400 == 0 then 1 else 0)
  {
    FourCenturiesAreCenturies(y);
    CenturiesAreQuarters(y);
  }

  lemma FourCenturiesAreCenturies(y: int)
    ensures y % 400 == 0 ==> y % 100 == 0
  {
    if y % 400 == 0 {
      MultipleLeavesNothing(4 * (y / 400), 100);
      assert y == 4 * (y / 400) * 100;
    }
  }

  lemma CenturiesAreQuarters(y: int)
    ensures y % 100 == 0 ==> y % 4 == 0
  {
    if y % 100 == 0 {
      MultipleLeavesNothing(25 * (y / 100), 4);
      assert y == 25 * (y / 100) * 4;
    }
  }

  lemma MultipleLeavesNothing(k: int, d: int)
    requires d == 4 || d == 100
    ensures k * d % d == 0
  {
  }

  lemma QuarterStep(a: int)
    ensures (a + 1) / 4 - a / 4 == (if (a + 1970 - 1) % 4 == 0 then 1 else 0)
  {
  }

  lemma CenturyStep(a: int)
    ensures (a + 1) / 100 - a / 100 == (if (a + 1902 - 1) % 100 == 0 then 1 else 0)
  {
  }

  lemma FourCenturyStep(a: int)
    ensures (a + 1) / 400 - a / 400 == (if (a + 1602 - 1) % 400 == 0 then 1 else 0)
  {
  }

  /** The two loops together are the POSIX formula, and a month always fits in its year. */
  lemma FirstDayIsPosix(year: int, month: int)
    requires year >= 1970 && 1 <= month <= 12
    ensures FirstDay(year, month) == PosixDays(year, DaysBeforeMonth(year, month))
    ensures DaysBeforeMonth(year, month) + DaysInMonth(year, month) <= DaysInYear(year)
  {
    YearLoopIsClosedForm(year);
    MonthTable(year);
  }

  lemma MonthTable(year: int)
    ensures var leap := if IsLeap(year) then 1 else 0;
            && DaysBeforeMonth(year, 1) == 0
            && DaysBeforeMonth(year, 2) == 31
            && DaysBeforeMonth(year, 3) == 59 + leap
            && DaysBeforeMonth(year, 4) == 90 + leap
            && DaysBeforeMonth(year, 5) == 120 + leap
            && DaysBeforeMonth(year, 6) == 151 + leap
            && DaysBeforeMonth(year, 7) == 181 + leap
            && DaysBeforeMonth(year, 8) == 212 + leap
            && DaysBeforeMonth(year, 9) == 243 + leap
            && DaysBeforeMonth(year, 10) == 273 + leap
            && DaysBeforeMonth(year, 11) == 304 + leap
            && DaysBeforeMonth(year, 12) == 334 + leap
            && DaysBeforeMonth(year, 13) == DaysInYear(year)
  {
    assert DaysBeforeMonth(year, 4) == 90 + if IsLeap(year) then 1 else 0;
    assert DaysBeforeMonth(year, 7) == 181 + if IsLeap(year) then 1 else 0;
    assert DaysBeforeMonth(year, 10) == 273 + if IsLeap(year) then 1 else 0;
  }

  // ---------------------------------------------------------------- month windows

  datatype Window = Window(start: u64, end: u64)

  predicate Inside(t: int, w: Window)
  {
    w.start <= t < w.end
  }

  /** The window the source computes. The day counter is an i32 (nothing else fixes
      its type), it is sign-extended to u64, and both products wrap. */
  function MonthWindow(year: u32, month: int): (w: Window)
  {
    var start := WrapU64(WrapU64(WrapI32(FirstDay(year, month))) * SECONDS_PER_DAY);
    Window(start, WrapU64(start + DaysInMonth(year, month) * SECONDS_PER_DAY))
  }

  /** The window the calendar asks for. */
  predicate InMonth(t: int, year: int, month: int)
  {
    FirstDay(year, month) * SECONDS_PER_DAY <= t < (FirstDay(year, month) + DaysInMonth(year, month)) * SECONDS_PER_DAY
  }

  /** Before 1970 the closed form is negative: the loops, which never run backwards, cannot
      reach it. */
  lemma {:induction false} EarlyYearsAreNegative(year: int)
    requires year < 1970
    ensures PosixDays(year, 0) + DaysInYear(year) <= 0
    decreases 1970 - year
  {
    PosixYearStep(year + 1);
    if year + 1 < 1970 {
      EarlyYearsAreNegative(year + 1);
    }
  }

  lemma EarlyDaysAreNegative(year: int, month: int)
    requires year < 1970 && 1 <= month <= 12
    ensures PosixDays(year, DaysBeforeMonth(year, month)) < 0
  {
    EarlyYearsAreNegative(year);
    MonthTable(year);
    assert PosixDays(year, DaysBeforeMonth(year, month)) == PosixDays(year, 0) + DaysBeforeMonth(year, month);
  }

  /** For every year and month that the entry point accepts, the computed window starts at
      the true midnight of the first, by the closed form, exactly when the year is 1970
      or later and the day number fits the i32 counter; it then ends where the month
      does. */
  lemma WindowExactlyFrom1970WhileDayFits(year: u32, month: int)
    requires 1 <= month <= 12
    ensures MonthWindow(year, month).start == PosixDays(year, DaysBeforeMonth(year, month)) * SECONDS_PER_DAY
            <==> 1970 <= year && FirstDay(year, month) <= I32_MAX
    ensures 1970 <= year && FirstDay(year, month) <= I32_MAX ==>
              MonthWindow(year, month).end
              == (PosixDays(year, DaysBeforeMonth(year, month)) + DaysInMonth(year, month)) * SECONDS_PER_DAY
  {
    if year < 1970 {
      EarlyDaysAreNegative(year, month);
    } else {
      FirstDayIsPosix(year, month);
      var days := PosixDays(year, DaysBeforeMonth(year, month));
      assert days == FirstDay(year, month);
      WindowExactlyWhenDayFits(year, month);
    }
  }

  /** Such a year: the window of May 1969 is that of May 1970. */
  lemma EarlyYearAnswersAs1970()
    ensures MonthWindow(1969, 5) == MonthWindow(1970, 5) && FirstDay(1969, 5) <= I32_MAX
    ensures MonthWindow(1969, 5).start != PosixDays(1969, DaysBeforeMonth(1969, 5)) * SECONDS_PER_DAY
  {
    MonthTable(1969);
    MonthTable(1970);
    WindowExactlyFrom1970WhileDayFits(1969, 5);
  }

  /** From 1970 on the i32 day counter is the only limit: the computed window is the
      calendar month exactly as long as the day number of its first day fits an i32. */
  lemma WindowExactlyWhenDayFits(year: u32, month: int)
    requires year >= 1970 && 1 <= month <= 12
    ensures MonthWindow(year, month).start == FirstDay(year, month) * SECONDS_PER_DAY
            <==> FirstDay(year, month) <= I32_MAX
    ensures FirstDay(year, month) <= I32_MAX ==>
              MonthWindow(year, month).end == (FirstDay(year, month) + DaysInMonth(year, month)) * SECONDS_PER_DAY
  {
    var d := FirstDay(year, month);
    FirstDayIsPosix(year, month);
    assert d <= 2 * U32_MAX * 366;
    if d > I32_MAX {
      var w := WrapI32(d);
      assert (d - w) % (U32_MAX + 1) == 0 && w < d;
      WrappedStartDiffers(d, w);
    }
  }

  lemma WrappedStartDiffers(d: nat, w: i32)
    requires d <= 2 * U32_MAX * 366 && w < d && (d - w) % (U32_MAX + 1) == 0
    ensures WrapU64(WrapU64(w) * SECONDS_PER_DAY) != d * SECONDS_PER_DAY
  {
    var k := (d - w) / (U32_MAX + 1);
    assert d - w == k * (U32_MAX + 1) && 1 <= k <= 1000;
    var v: int := WrapU64(w);
    assert v == w || v == w + U64_MAX + 1;
    var s: int := WrapU64(v * SECONDS_PER_DAY);
    assert (v * SECONDS_PER_DAY - s) % (U64_MAX + 1) == 0;
  }

  /** From year 5881581 on the day counter has wrapped: the window of that January
      does not start where the calendar says. */
  lemma WindowFailsLate()
    ensures MonthWindow(5881581, 1).start != FirstDay(5881581, 1) * SECONDS_PER_DAY
  {
    YearLoopIsClosedForm(5881581);
    WindowExactlyWhenDayFits(5881581, 1);
  }

  /** The month after a month. */
  function NextMonth(year: int, month: int): (int, int)
  {
    if month == 12 then (year + 1, 1) else (year, month + 1)
  }

  /** Consecutive windows abut: a month ends where the next one starts. */
  lemma MonthsAbut(year: int, month: int)
    requires year >= 1970 && 1 <= month <= 12
    ensures var (y, m) := NextMonth(year, month);
            FirstDay(y, m) == FirstDay(year, month) + DaysInMonth(year, month)
  {
    MonthTable(year);
  }

  predicate Before(y0: int, m0: int, y1: int, m1: int)
  {
    y0 < y1 || (y0 == y1 && m0 < m1)
  }

  /** A month ends no later than any later month starts. */
  lemma {:induction false} LaterMonthStartsLater(y0: int, m0: int, y1: int, m1: int)
    requires 1970 <= y0 && 1 <= m0 <= 12 && 1 <= m1 <= 12 && Before(y0, m0, y1, m1)
    ensures FirstDay(y0, m0) + DaysInMonth(y0, m0) <= FirstDay(y1, m1)
    decreases y1, m1
  {
    MonthsAbut(y0, m0);
    if NextMonth(y0, m0) != (y1, m1) {
      var (py, pm) := if m1 == 1 then (y1 - 1, 12) else (y1, m1 - 1);
      LaterMonthStartsLater(y0, m0, py, pm);
      MonthsAbut(py, pm);
    }
  }

  /** Every day number belongs to some month. */
  lemma {:induction false} MonthOfDay(day: nat) returns (year: int, month: int)
    ensures year >= 1970 && 1 <= month <= 12
    ensures FirstDay(year, month) <= day < FirstDay(year, month) + DaysInMonth(year, month)
    decreases day
  {
    if day == 0 {
      year, month := 1970, 1;
      MonthTable(1970);
    } else {
      year, month := MonthOfDay(day - 1);
      if day == FirstDay(year, month) + DaysInMonth(year, month) {
        MonthsAbut(year, month);
        var (y, m) := NextMonth(year, month);
        year, month := y, m;
      }
    }
  }

  lemma DayOfTimestamp(t: nat)
    ensures t / SECONDS_PER_DAY * SECONDS_PER_DAY <= t < (t / SECONDS_PER_DAY + 1) * SECONDS_PER_DAY
  {
  }

  /** Every timestamp lies in exactly one calendar month. */
  lemma ExactlyOneMonth(t: nat) returns (year: int, month: int)
    ensures year >= 1970 && 1 <= month <= 12 && InMonth(t, year, month)
    ensures forall y: int, m: int | y >= 1970 && 1 <= m <= 12 && InMonth(t, y, m) :: y == year && m == month
  {
    year, month := MonthOfDay(t / SECONDS_PER_DAY);
    DayOfTimestamp(t);
    forall y: int, m: int | y >= 1970 && 1 <= m <= 12 && InMonth(t, y, m)
      ensures y == year && m == month
    {
      if Before(y, m, year, month) {
        LaterMonthStartsLater(y, m, year, month);
      } else if Before(year, month, y, m) {
        LaterMonthStartsLater(year, month, y, m);
      }
    }
  }

  /** Which of all accepted years and months answer for a timestamp up to the last day of the
      counter: those whose wrapped first day is not negative and whose month, counted
      from there, contains the day. */
  lemma WindowAnswersExactly(t: nat, year: u32, month: int)
    requires t / SECONDS_PER_DAY <= I32_MAX && 1 <= month <= 12
    ensures Inside(t, MonthWindow(year, month)) <==>
            var first := WrapI32(FirstDay(year, month));
            0 <= first <= t / SECONDS_PER_DAY < first + DaysInMonth(year, month)
  {
    var first: int := WrapI32(FirstDay(year, month));
    var len: int := DaysInMonth(year, month) * SECONDS_PER_DAY;
    DayOfTimestamp(t);
    if first < 0 {
      var start: int := U64_MAX + 1 + first * SECONDS_PER_DAY;
      assert WrapU64(first) == U64_MAX + 1 + first;
      WrapShift(first);
      assert MonthWindow(year, month).start == start;
      assert t < start;
    }
  }

  lemma WrapShift(w: i32)
    requires w < 0
    ensures WrapU64((U64_MAX + 1 + w) * SECONDS_PER_DAY) == U64_MAX + 1 + w * SECONDS_PER_DAY
  {
    var x := (U64_MAX + 1 + w) * SECONDS_PER_DAY;
    var r := U64_MAX + 1 + w * SECONDS_PER_DAY;
    assert x == r + (SECONDS_PER_DAY - 1) * (U64_MAX + 1);
    assert 0 <= r <= U64_MAX;
  }

  /** Below 1970 the day counter holds the days of the year alone, so every such year answers
      for 1970, by its own month lengths. */
  lemma EarlyYearsAnswerExactly(t: nat, year: u32, month: int)
    requires t / SECONDS_PER_DAY <= I32_MAX && year < 1970 && 1 <= month <= 12
    ensures Inside(t, MonthWindow(year, month)) <==>
            DaysBeforeMonth(year, month) <= t / SECONDS_PER_DAY < DaysBeforeMonth(year, month)
                + DaysInMonth(year, month)
  {
    MonthTable(year);
    WindowAnswersExactly(t, year, month);
  }

  /** Every day of a year lies in one of its months. */
  lemma {:induction false} MonthOfYearDay(year: int, day: nat, last: int) returns (month: int)
    requires 1 <= last <= 12 && day < DaysBeforeMonth(year, last) + DaysInMonth(year, last)
    ensures 1 <= month <= 12
    ensures DaysBeforeMonth(year, month) <= day < DaysBeforeMonth(year, month) + DaysInMonth(year, month)
    decreases last
  {
    if last == 1 || DaysBeforeMonth(year, last) <= day {
      month := last;
    } else {
      month := MonthOfYearDay(year, day, last - 1);
    }
  }

  /** A timestamp is answered for by some year below 1970 as well exactly when it lies within
      the first 366 days, a leap year's worth; so the years that answer rightly are alone
      from 2 January 1971 on. */
  lemma EarlyYearsIntrudeExactly(t: nat)
    requires t / SECONDS_PER_DAY <= I32_MAX
    ensures (exists y: u32, m: int :: y < 1970 && 1 <= m <= 12 && Inside(t, MonthWindow(y, m)))
            <==> t / SECONDS_PER_DAY < 366
  {
    if t / SECONDS_PER_DAY < 366 {
      MonthTable(1968);
      var m := MonthOfYearDay(1968, t / SECONDS_PER_DAY, 12);
      EarlyYearsAnswerExactly(t, 1968, m);
      assert Inside(t, MonthWindow(1968, m));
    }
    forall y: u32, m: int | y < 1970 && 1 <= m <= 12 && Inside(t, MonthWindow(y, m))
      ensures t / SECONDS_PER_DAY < 366
    {
      EarlyYearsAnswerExactly(t, y, m);
      MonthTable(y);
    }
  }

  /** Every timestamp whose day number fits an i32 falls in exactly one of the windows
      computed for the years from 1970 on whose day numbers fit. */
  lemma ExactlyOneWindow(t: nat) returns (year: u32, month: int)
    requires t / SECONDS_PER_DAY <= I32_MAX
    ensures year >= 1970 && 1 <= month <= 12 && Inside(t, MonthWindow(year, month))
    ensures forall y: u32, m: int | y >= 1970 && 1 <= m <= 12 && FirstDay(y, m) <= I32_MAX ::
              Inside(t, MonthWindow(y, m)) ==> y == year && m == month
  {
    var y0, m0 := ExactlyOneMonth(t);
    DayOfTimestamp(t);
    assert FirstDay(y0, m0) <= I32_MAX;
    FirstDayIsPosix(y0, m0);
    assert y0 <= 1970 + I32_MAX;
    year, month := y0, m0;
    WindowExactlyWhenDayFits(year, month);
    forall y: u32, m: int | y >= 1970 && 1 <= m <= 12 && FirstDay(y, m) <= I32_MAX && Inside(t, MonthWindow(y, m))
      ensures y == year && m == month
    {
      WindowExactlyWhenDayFits(y, m);
      assert InMonth(t, y, m);
    }
  }

  /** One `days += k` on the i32 counter. */
  function AddDays(days: i32, k: nat): (r: i32)
  {
    WrapI32(days + k)
  }

  lemma AddDaysExact(exact: nat, k: nat)
    ensures AddDays(WrapI32(exact), k) == WrapI32(exact + k)
  {
    WrapI32Add(exact, k);
  }

  /** The year loop, `for y in 1970..year`. */
  method CountYearDays(year: u32) returns (days: i32)
    ensures days == WrapI32(DaysBeforeYear(year))
  {
    days := 0;
    var y := 1970;
    while y < year
      invariant 1970 <= y <= Max(1970, year)
      invariant days == WrapI32(DaysBeforeYear(y))
    {
      AddDaysExact(DaysBeforeYear(y), DaysInYear(y));
      days := AddDays(days, if IsLeap(y) then 366 else 365);
      y := y + 1;
    }
  }

  /** The month loop, `for m in 1..month`, continuing from the year loop's count. */
  method CountMonthDays(year: u32, month: int, yearDays: i32) returns (days: i32)
    requires 1 <= month <= 12 && yearDays == WrapI32(DaysBeforeYear(year))
    ensures days == WrapI32(FirstDay(year, month))
  {
    days := yearDays;
    var m := 1;
    while m < month
      invariant 1 <= m <= month
      invariant days == WrapI32(FirstDay(year, m))
    {
      AddDaysExact(FirstDay(year, m), DaysInMonth(year, m));
      days := AddDays(days, DaysInMonth(year, m));
      m := m + 1;
    }
  }

  method ComputeMonthWindow(year: u32, month: int) returns (w: Window)
    requires 1 <= month <= 12
    ensures w == MonthWindow(year, month)
  {
    var yearDays := CountYearDays(year);
    var days := CountMonthDays(year, month, yearDays);
    var start := WrapU64(WrapU64(days) * SECONDS_PER_DAY);
    w := Window(start, WrapU64(start + DaysInMonth(year, month) * SECONDS_PER_DAY));
  }
}
