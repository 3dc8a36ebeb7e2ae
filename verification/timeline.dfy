/**
 * The month arithmetic of the timeline page (page/timeline.py): the
 * number of months between two dates, the 48-month floor, the fallback
 * range of months around the current date with each month's length, the
 * total number of days and pixels, and the expanded/collapsed flag of
 * each milestone. Calendar days are counted as proleptic Gregorian
 * ordinals, the day numbering Python's `datetime` uses, so that adding a
 * month's length in days to its first day can be followed exactly.
 */
module Timeline {
  import opened Wrappers
  import opened ProjectView

  /** MIN_MONTH_COUNT. */
  const MinMonthCount: nat := 48

  /** The width in pixels of one day of the timeline. */
  const DayWidth: nat := 10

  datatype Date = Date(year: int, month: int, day: int)

  predicate ValidMonth(d: Date) {
    1 <= d.month <= 12
  }

  /** The first day of a date's month. */
  function FirstOfMonth(d: Date): Date {
    Date(d.year, d.month, 1)
  }

  /** Months counted from year 0: consecutive months have consecutive indices. */
  function MonthIndex(d: Date): int {
    d.year * 12 + (d.month - 1)
  }

  /** The step of count_month's loop: the first of the following month, December rolling into January. */
  function NextMonth(d: Date): (r: Date)
    requires ValidMonth(d)
    ensures ValidMonth(r) && r.day == 1
    ensures MonthIndex(r) == MonthIndex(d) + 1
  {
    Date(d.year + d.month / 12, d.month % 12 + 1, 1)
  }

  /** `datetime` order on first days of months: by year, then by month. */
  predicate MonthBefore(a: Date, b: Date) {
    a.year < b.year || (a.year == b.year && a.month < b.month)
  }

  lemma MonthBeforeIsIndexOrder(a: Date, b: Date)
    requires ValidMonth(a) && ValidMonth(b)
    ensures MonthBefore(a, b) <==> MonthIndex(a) < MonthIndex(b)
  {
  }

  // ---------------------------------------------------------------------
  // count_month
  // ---------------------------------------------------------------------

  /**
   * count_month: both dates are moved to the first of their month and the
   * earlier is advanced one month at a time until it is no longer before
   * the later; the number of steps is the month difference, or 0 when the
   * end is not after the start. The days of the month play no part.
   */
  method CountMonth(startDate: Date, endDate: Date) returns (count: nat)
    requires ValidMonth(startDate) && ValidMonth(endDate)
    ensures count == if MonthIndex(endDate) > MonthIndex(startDate) then MonthIndex(endDate) - MonthIndex(startDate) else 0
  {
    count := 0;
    var current := FirstOfMonth(startDate);
    var last := FirstOfMonth(endDate);
    while MonthBefore(current, last)
      invariant ValidMonth(current)
      invariant MonthIndex(current) == MonthIndex(startDate) + count
      invariant MonthIndex(endDate) > MonthIndex(startDate) ==> MonthIndex(current) <= MonthIndex(endDate)
      invariant MonthIndex(endDate) <= MonthIndex(startDate) ==> count == 0
      decreases MonthIndex(last) - MonthIndex(current)
    {
      MonthBeforeIsIndexOrder(current, last);
      count := count + 1;
      current := NextMonth(current);
    }
    MonthBeforeIsIndexOrder(current, last);
  }

  /** The month count after the floor: at least MIN_MONTH_COUNT, and the count itself when it is larger. */
  function ClampMonthCount(count: nat): (r: nat)
    ensures r >= MinMonthCount
    ensures count >= MinMonthCount ==> r == count
    ensures count < MinMonthCount ==> r == MinMonthCount
  {
    if count < MinMonthCount then MinMonthCount else count
  }

  /** The floored count is the smallest that is both at least MIN_MONTH_COUNT and at least the count. */
  lemma ClampIsLeastCover(count: nat, n: nat)
    requires n >= MinMonthCount && n >= count
    ensures count <= ClampMonthCount(count) <= n
  {
  }

  /**
   * The number of columns of the branch of all_month_ranges taken when
   * tasks have dates: count_month of the first and last task dates, then
   * the floor. The columns from the start's month reach the end's month,
   * there are at least MIN_MONTH_COUNT of them, and there are no more than
   * either bound needs.
   */
  method DatedMonthCount(startDate: Date, endDate: Date) returns (n: nat)
    requires ValidMonth(startDate) && ValidMonth(endDate)
    ensures n >= MinMonthCount
    ensures MonthIndex(startDate) + n >= MonthIndex(endDate)
    ensures n == MinMonthCount || MonthIndex(startDate) + n == MonthIndex(endDate)
  {
    var count := CountMonth(startDate, endDate);
    n := ClampMonthCount(count);
  }

  // ---------------------------------------------------------------------
  // The Gregorian calendar
  // ---------------------------------------------------------------------

  predicate IsLeap(year: int) {
    year % 4 == 0 && (year % 100 != 0 || year % 400 == 0)
  }

  /** `calendar.monthrange(year, month)[1]`. */
  function DaysInMonth(year: int, month: int): (r: nat)
    requires 1 <= month <= 12
    ensures 28 <= r <= 31
    ensures month == 2 ==> (r == 29 <==> IsLeap(year))
  {
    if month == 2 then (if IsLeap(year) then 29 else 28)
    else if month == 4 || month == 6 || month == 9 || month == 11 then 30
    else 31
  }

  /** Days in the months of `year` before `month`. */
  function DaysBeforeMonth(year: int, month: int): nat
    requires 1 <= month <= 12
  {
    if month == 1 then 0 else DaysBeforeMonth(year, month - 1) + DaysInMonth(year, month - 1)
  }

  /** Days in the years before `year`, counted from the proleptic year 1. */
  function DaysBeforeYear(year: int): int {
    var y := year - 1;
    y * 365 + y / 4 - y / 100 + y / 400
  }

  /** The day number of a date: 1 is 1 January of year 1. */
  function Ordinal(d: Date): int
    requires ValidMonth(d)
  {
    DaysBeforeYear(d.year) + DaysBeforeMonth(d.year, d.month) + d.day
  }

  /** A year has 366 days when it is a leap year and 365 otherwise. */
  lemma {:induction false} YearLength(year: int)
    ensures DaysBeforeYear(year + 1) - DaysBeforeYear(year) == if IsLeap(year) then 366 else 365
  {
    var y := year - 1;
    StepOfQuotient(y, 4);
    StepOfQuotient(y, 100);
    StepOfQuotient(y, 400);
  }

  /** The twelve months of a year add up to the year's length. */
  lemma {:induction false} MonthsOfYear(year: int)
    ensures DaysBeforeMonth(year, 12) + DaysInMonth(year, 12) == if IsLeap(year) then 366 else 365
  {
    var feb := DaysInMonth(year, 2);
    assert DaysBeforeMonth(year, 2) == 31;
    assert DaysBeforeMonth(year, 3) == 31 + feb;
    assert DaysBeforeMonth(year, 4) == 62 + feb;
    assert DaysBeforeMonth(year, 5) == 92 + feb;
    assert DaysBeforeMonth(year, 6) == 123 + feb;
    assert DaysBeforeMonth(year, 7) == 153 + feb;
    assert DaysBeforeMonth(year, 8) == 184 + feb;
    assert DaysBeforeMonth(year, 9) == 215 + feb;
    assert DaysBeforeMonth(year, 10) == 245 + feb;
    assert DaysBeforeMonth(year, 11) == 276 + feb;
    assert DaysBeforeMonth(year, 12) == 306 + feb;
  }

  /** Going from n to n + 1 the quotient by k grows by one exactly when k divides n + 1. */
  lemma {:induction false} StepOfQuotient(n: int, k: int)
    requires k == 4 || k == 100 || k == 400
    ensures (n + 1) / k - n / k == if (n + 1) % k == 0 then 1 else 0
  {
    if k == 4 {
      assert (n + 1) / 4 - n / 4 == if (n + 1) % 4 == 0 then 1 else 0;
    } else if k == 100 {
      assert (n + 1) / 100 - n / 100 == if (n + 1) % 100 == 0 then 1 else 0;
    } else {
      assert (n + 1) / 400 - n / 400 == if (n + 1) % 400 == 0 then 1 else 0;
    }
  }

  /**
   * Adding a month's length in days to its first day gives the first of
   * the next month: the step of the fallback loop, `current +=
   * timedelta(days=day_count)`, is NextMonth.
   */
  lemma {:induction false} MonthStep(d: Date)
    requires ValidMonth(d) && d.day == 1
    ensures Ordinal(d) + DaysInMonth(d.year, d.month) == Ordinal(NextMonth(d))
  {
    if d.month == 12 {
      YearLength(d.year);
      MonthsOfYear(d.year);
    }
  }

  /** First days of months are ordered as their months are. */
  lemma {:induction false} OrdinalFollowsMonths(a: Date, b: Date)
    requires ValidMonth(a) && ValidMonth(b) && a.day == 1 && b.day == 1
    requires MonthIndex(a) <= MonthIndex(b)
    ensures Ordinal(a) <= Ordinal(b)
    ensures MonthIndex(a) < MonthIndex(b) ==> Ordinal(a) < Ordinal(b)
    decreases MonthIndex(b) - MonthIndex(a)
  {
    if MonthIndex(a) < MonthIndex(b) {
      MonthStep(a);
      OrdinalFollowsMonths(NextMonth(a), b);
    }
  }

  // ---------------------------------------------------------------------
  // The fallback range
  // ---------------------------------------------------------------------

  /** One column of the timeline; the month's label is not part of this model. */
  datatype MonthRange = MonthRange(month: int, year: int, dayCount: nat)

  /** The first day of the month `i` months after the month of `d`. */
  function MonthsAfter(d: Date, i: nat): (r: Date)
    requires ValidMonth(d)
    ensures ValidMonth(r) && r.day == 1
    ensures MonthIndex(r) == MonthIndex(d) + i
  {
    if i == 0 then FirstOfMonth(d) else NextMonth(MonthsAfter(d, i - 1))
  }

  /** The column for the month of `d`, with that month's length. */
  function RangeOf(d: Date): MonthRange
    requires ValidMonth(d)
  {
    MonthRange(d.month, d.year, DaysInMonth(d.year, d.month))
  }

  function TotalDays(months: seq<MonthRange>): nat {
    if months == [] then 0 else TotalDays(months[..|months| - 1]) + months[|months| - 1].dayCount
  }

  /**
   * The branch of all_month_ranges taken when no task has a date: from
   * the first of the current month two years back, each month's column is
   * added and the date advanced by that month's length in days, while it
   * is before the first of the current month two years ahead. The result
   * is the 48 consecutive months from two years back, each with its
   * Gregorian length, and their days add up to the days between the two
   * bounds.
   */
  method FallbackMonthRanges(now: Date) returns (months: seq<MonthRange>)
    requires ValidMonth(now)
    ensures |months| == MinMonthCount
    ensures forall i :: 0 <= i < |months| ==> months[i] == RangeOf(MonthsAfter(Date(now.year - 2, now.month, 1), i))
    ensures TotalDays(months) == Ordinal(Date(now.year + 2, now.month, 1)) - Ordinal(Date(now.year - 2, now.month, 1))
  {
    var starting := Date(now.year - 2, now.month, 1);
    var ending := Date(now.year + 2, now.month, 1);
    var current := starting;
    var currentDay := Ordinal(starting);
    months := [];
    while currentDay < Ordinal(ending)
      invariant ValidMonth(current) && current.day == 1
      invariant current == MonthsAfter(starting, |months|)
      invariant currentDay == Ordinal(current)
      invariant |months| <= MinMonthCount
      invariant forall i :: 0 <= i < |months| ==> months[i] == RangeOf(MonthsAfter(starting, i))
      invariant TotalDays(months) == currentDay - Ordinal(starting)
      decreases MinMonthCount - |months|
    {
      SameMonthSameDay(current, ending);
      var dayCount := DaysInMonth(current.year, current.month);
      TotalDaysSnoc(months, RangeOf(current));
      RangesSnoc(starting, months);
      months := months + [RangeOf(current)];
      MonthStep(current);
      currentDay := currentDay + dayCount;
      current := NextMonth(current);
    }
    OrdinalFollowsMonths(current, ending);
  }

  /** First days of the same month are the same day. */
  lemma SameMonthSameDay(a: Date, b: Date)
    requires ValidMonth(a) && ValidMonth(b) && a.day == 1 && b.day == 1
    ensures MonthIndex(a) == MonthIndex(b) ==> Ordinal(a) == Ordinal(b)
  {
    if MonthIndex(a) == MonthIndex(b) {
      assert a == b;
    }
  }

  /** The next column of the fallback range is the one of the next month. */
  lemma RangesSnoc(starting: Date, months: seq<MonthRange>)
    requires ValidMonth(starting)
    requires forall i :: 0 <= i < |months| ==> months[i] == RangeOf(MonthsAfter(starting, i))
    ensures MonthsAfter(starting, |months| + 1) == NextMonth(MonthsAfter(starting, |months|))
    ensures var next := months + [RangeOf(MonthsAfter(starting, |months|))];
            forall i :: 0 <= i < |next| ==> next[i] == RangeOf(MonthsAfter(starting, i))
  {
  }

  lemma TotalDaysSnoc(months: seq<MonthRange>, m: MonthRange)
    ensures TotalDays(months + [m]) == TotalDays(months) + m.dayCount
  {
    assert (months + [m])[..|months|] == months;
  }

  /** total_width_pixels: ten pixels per day of the range. */
  function TotalWidthPixels(months: seq<MonthRange>): (r: nat)
    ensures r == DayWidth * TotalDays(months)
  {
    TotalDays(months) * DayWidth
  }

  /** The widths of the month headers, each `day_count * 10` pixels, added up from the first. */
  function HeaderWidths(months: seq<MonthRange>): nat {
    if months == [] then 0 else months[0].dayCount * DayWidth + HeaderWidths(months[1..])
  }

  /** The header row is exactly as wide as its month headers together. */
  lemma {:induction false} TotalWidthIsHeaderWidths(months: seq<MonthRange>)
    ensures TotalWidthPixels(months) == HeaderWidths(months)
    decreases |months|
  {
    if months != [] {
      TotalWidthIsHeaderWidths(months[1..]);
      TotalDaysAppend([months[0]], months[1..]);
      assert [months[0]] + months[1..] == months;
      assert TotalDays([months[0]]) == months[0].dayCount by {
        assert [months[0]][..0] == [];
      }
    }
  }

  /**
   * total_width_pixels when no task has dates: ten pixels for every day
   * from two years before the current month to two years after it.
   */
  method FallbackWidth(now: Date) returns (w: nat)
    requires ValidMonth(now)
    ensures w == DayWidth * (Ordinal(Date(now.year + 2, now.month, 1)) - Ordinal(Date(now.year - 2, now.month, 1)))
  {
    var months := FallbackMonthRanges(now);
    w := TotalWidthPixels(months);
  }

  /** Each column adds its days to the total. */
  lemma {:induction false} TotalDaysAppend(a: seq<MonthRange>, b: seq<MonthRange>)
    ensures TotalDays(a + b) == TotalDays(a) + TotalDays(b)
    decreases |b|
  {
    if b == [] {
      assert a + b == a;
    } else {
      var b' := b[..|b| - 1];
      assert (a + b)[..|a + b| - 1] == a + b';
      TotalDaysAppend(a, b');
    }
  }

  // ---------------------------------------------------------------------
  // Expanded milestones
  // ---------------------------------------------------------------------

  /** on_mount: with a loaded projection, every milestone starts collapsed; otherwise nothing changes. */
  function OnMount(expanded: map<int, bool>, data: Option<Data>): (r: map<int, bool>)
    ensures data.None? ==> r == expanded
    ensures data.Some? && WellKeyed(data.value) ==> r.Keys == data.value.milestones.Keys
    ensures data.Some? ==> forall k :: k in r ==> !r[k]
  {
    if data.None? then expanded
    else
      var ms := Milestones(data);
      var r := map m | m in ms :: m.id := false;
      CollapsedKeys(data.value, ms, r);
      r
  }

  /** The ids of the listed milestones are the projection's milestone keys. */
  lemma CollapsedKeys(d: Data, ms: seq<MilestoneView>, r: map<int, bool>)
    requires forall m :: m in ms <==> m in d.milestones.Values
    requires r == map m | m in ms :: m.id := false
    ensures WellKeyed(d) ==> r.Keys == d.milestones.Keys
  {
    if WellKeyed(d) {
      forall k | k in d.milestones ensures k in r {
        var m := d.milestones[k];
        assert m in d.milestones.Values;
        assert m in ms && m.id == k;
      }
      forall k | k in r ensures k in d.milestones {
        var m :| m in ms && m.id == k;
        assert m in d.milestones.Values;
        var j :| j in d.milestones && d.milestones[j] == m;
        assert j == k;
      }
    }
  }

  /** toggle_milestone: flips one milestone's flag, a missing one counting as collapsed. */
  function ToggleMilestone(expanded: map<int, bool>, milestoneId: int): (r: map<int, bool>)
    ensures r.Keys == expanded.Keys + {milestoneId}
    ensures r[milestoneId] == !(milestoneId in expanded && expanded[milestoneId])
    ensures forall k :: k in expanded && k != milestoneId ==> r[k] == expanded[k]
  {
    expanded[milestoneId := !(if milestoneId in expanded then expanded[milestoneId] else false)]
  }

  /**
   * Toggling twice gives back the flags exactly when the milestone had a
   * flag; a milestone without one is left collapsed with a flag of its own.
   */
  lemma ToggleTwice(expanded: map<int, bool>, milestoneId: int)
    ensures ToggleMilestone(ToggleMilestone(expanded, milestoneId), milestoneId) == expanded <==> milestoneId in expanded
    ensures milestoneId !in expanded ==>
              ToggleMilestone(ToggleMilestone(expanded, milestoneId), milestoneId) == expanded[milestoneId := false]
  {
    var twice := ToggleMilestone(ToggleMilestone(expanded, milestoneId), milestoneId);
    if milestoneId in expanded {
      assert twice.Keys == expanded.Keys;
    } else {
      assert milestoneId in twice;
    }
  }
}
