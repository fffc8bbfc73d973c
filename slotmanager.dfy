/**
 * SlotManager: the slot grid CalculateAvailableSlots builds from a weekly
 * schedule, the slots left once the busy ones are removed, and the week start
 * and URL date the availability request asks for.
 *
 * Times are DateTime tick counts (100 ns). The grid's DateTime values become
 * the slots' DateTimeOffset bounds through the implicit conversion, which
 * attaches the machine's local offset to a DateTime whose Kind is not Utc;
 * `offset` stands for that offset.
 */
module SlotManager {

  import opened Wrappers
  import opened DateTimes
  import opened Availability
  import opened Formatting

  /** The slot that starts at `appointment` and lasts `step` ticks. */
  function SlotAt(appointment: int, step: int, offset: int): Slot {
    Slot(DateTimeOffset(appointment, offset), DateTimeOffset(appointment + step, offset))
  }

  /**
   * One of the two for-loops: a slot for every appointment from `first` on,
   * `step` apart, while the appointment is still before `bound`.
   */
  function Run(first: int, bound: int, step: int, offset: int): seq<Slot>
    requires step > 0
    decreases bound - first
  {
    if first < bound then [SlotAt(first, step, offset)] + Run(first + step, bound, step, offset) else []
  }

  /** The slots of one day: the morning run up to lunch, then the afternoon run up to the end of work. */
  function DaySlots(wp: WorkPeriod, day: int, slotDuration: int, offset: int): seq<Slot>
    requires slotDuration > 0
  {
    var step := slotDuration * TicksPerMinute;
    Run(day + wp.startHour * TicksPerHour, day + wp.lunchStartHour * TicksPerHour, step, offset)
    + Run(day + wp.lunchEndHour * TicksPerHour, day + wp.endHour * TicksPerHour, step, offset)
  }

  /** The weekly schedule as the dictionary's values in enumeration order, each with its key. */
  type Schedule = seq<(string, DayInfo)>

  predicate AllWorking(schedule: Schedule) {
    forall i :: 0 <= i < |schedule| ==> schedule[i].1.workPeriod.Some?
  }

  /** What the loops build: the i-th entry's day slots, with the reference date moved on i days. */
  function Grid(schedule: Schedule, referenceDate: int, slotDuration: int, offset: int): seq<Slot>
    requires slotDuration > 0
    requires AllWorking(schedule)
  {
    if schedule == [] then []
    else
      var n := |schedule| - 1;
      Grid(schedule[..n], referenceDate, slotDuration, offset)
      + DaySlots(schedule[n].1.workPeriod.value, referenceDate + n * TicksPerDay, slotDuration, offset)
  }

  /** One for-loop of CalculateAvailableSlots: appends the run from `first` to `bound` to `slots`. */
  method AppendRun(slots: seq<Slot>, first: int, bound: int, step: int, offset: int) returns (r: seq<Slot>)
    requires step > 0
    ensures r == slots + Run(first, bound, step, offset)
  {
    r := slots;
    var appointment := first;
    while appointment < bound
      invariant r + Run(appointment, bound, step, offset) == slots + Run(first, bound, step, offset)
      decreases bound - appointment
    {
      r := r + [SlotAt(appointment, step, offset)];
      appointment := appointment + step;
    }
  }

  /**
   * CalculateAvailableSlots: the list the loops fill. Every entry must carry a
   * work period (a null one is dereferenced) and the duration must be positive
   * (with 0 the loops never end; with a negative one they run backwards until
   * AddMinutes throws).
   */
  method CalculateAvailableSlots(weeklySchedule: Schedule, referenceDate: int, slotDuration: int, offset: int)
    returns (slots: seq<Slot>)
    requires slotDuration > 0
    requires AllWorking(weeklySchedule)
    ensures slots == Grid(weeklySchedule, referenceDate, slotDuration, offset)
  {
    slots := [];
    var day := referenceDate;
    var step := slotDuration * TicksPerMinute;
    for i := 0 to |weeklySchedule|
      invariant day == referenceDate + i * TicksPerDay
      invariant slots == Grid(weeklySchedule[..i], referenceDate, slotDuration, offset)
    {
      var workPeriod := weeklySchedule[i].1.workPeriod.value;
      ghost var before := slots;
      slots := AppendRun(slots, day + workPeriod.startHour * TicksPerHour,
                         day + workPeriod.lunchStartHour * TicksPerHour, step, offset);
      slots := AppendRun(slots, day + workPeriod.lunchEndHour * TicksPerHour,
                         day + workPeriod.endHour * TicksPerHour, step, offset);
      assert slots == before + DaySlots(workPeriod, day, slotDuration, offset);
      assert weeklySchedule[..i + 1][..i] == weeklySchedule[..i];
      day := day + TicksPerDay;
    }
    assert weeklySchedule[..|weeklySchedule|] == weeklySchedule;
  }

  // ---------------------------------------------------------------------
  // What one run holds

  /** A run holds ceil((bound - first) / step) slots: the last start is before `bound`, one more step is not. */
  lemma {:induction false} RunCount(first: int, bound: int, step: int, offset: int)
    requires step > 0
    ensures first >= bound ==> |Run(first, bound, step, offset)| == 0
    ensures first < bound ==>
      (|Run(first, bound, step, offset)| - 1) * step < bound - first <= |Run(first, bound, step, offset)| * step
    decreases bound - first
  {
    if first < bound {
      var n := |Run(first + step, bound, step, offset)|;
      RunCount(first + step, bound, step, offset);
      assert (n + 1) * step == n * step + step;
      assert (n + 1 - 1) * step == n * step;
    }
  }

  /** The same count as the ceiling division written out. */
  lemma RunCountCeil(first: int, bound: int, step: int, offset: int)
    requires step > 0 && first < bound
    ensures |Run(first, bound, step, offset)| == (bound - first + step - 1) / step
  {
    var n := |Run(first, bound, step, offset)|;
    RunCount(first, bound, step, offset);
    var x := bound - first + step - 1;
    assert n * step <= x < n * step + step;
    DivModUnique(x, step, n, x - n * step);
  }

  /** The k-th slot of a run starts k steps after `first`, before `bound`, and lasts one step. */
  lemma {:induction false} RunAt(first: int, bound: int, step: int, offset: int, k: int)
    requires step > 0 && 0 <= k < |Run(first, bound, step, offset)|
    ensures Run(first, bound, step, offset)[k] == SlotAt(first + k * step, step, offset)
    ensures first + k * step < bound
    decreases k
  {
    if k > 0 {
      RunAt(first + step, bound, step, offset, k - 1);
      assert first + step + (k - 1) * step == first + k * step;
    }
  }

  /** Every appointment k steps after `first` and before `bound` is in the run. */
  lemma RunContains(first: int, bound: int, step: int, offset: int, k: int)
    requires step > 0 && 0 <= k && first + k * step < bound
    ensures SlotAt(first + k * step, step, offset) in Run(first, bound, step, offset)
  {
    var n := |Run(first, bound, step, offset)|;
    RunCount(first, bound, step, offset);
    if n <= k {
      MulLe(n, k, step);
      assert false;
    }
    RunAt(first, bound, step, offset, k);
  }

  /** The slots of a run in a form that needs no index: where they start, how long they last, which offset they carry. */
  predicate InRunRange(x: Slot, first: int, bound: int, step: int, offset: int) {
    first <= x.start.clockTicks < bound && x.end.clockTicks == x.start.clockTicks + step
    && x.start.offsetMinutes == offset && x.end.offsetMinutes == offset
  }

  lemma {:induction false} RunElements(first: int, bound: int, step: int, offset: int)
    requires step > 0
    ensures forall x :: x in Run(first, bound, step, offset) ==> InRunRange(x, first, bound, step, offset)
    decreases bound - first
  {
    if first < bound {
      RunElements(first + step, bound, step, offset);
    }
  }

  /** Slot starts strictly increase along a sequence. */
  predicate StartsIncreasing(xs: seq<Slot>) {
    forall i, j :: 0 <= i < j < |xs| ==> xs[i].start.clockTicks < xs[j].start.clockTicks
  }

  lemma {:induction false} RunIncreasing(first: int, bound: int, step: int, offset: int)
    requires step > 0
    ensures StartsIncreasing(Run(first, bound, step, offset))
    decreases bound - first
  {
    if first < bound {
      RunIncreasing(first + step, bound, step, offset);
      RunElements(first + step, bound, step, offset);
      var r := Run(first, bound, step, offset);
      assert forall j :: 1 <= j < |r| ==> r[j] in Run(first + step, bound, step, offset);
    }
  }

  /** Two increasing sequences, every start of the first before every start of the second, stay increasing joined. */
  lemma IncreasingAppend(a: seq<Slot>, b: seq<Slot>, middle: int)
    requires StartsIncreasing(a) && StartsIncreasing(b)
    requires forall x :: x in a ==> x.start.clockTicks < middle
    requires forall y :: y in b ==> middle <= y.start.clockTicks
    ensures StartsIncreasing(a + b)
  {
    var ab := a + b;
    forall i, j | 0 <= i < j < |ab|
      ensures ab[i].start.clockTicks < ab[j].start.clockTicks
    {
      if j < |a| {
        assert ab[i] == a[i] && ab[j] == a[j];
      } else if i < |a| {
        assert ab[i] == a[i] && ab[j] == b[j - |a|];
        assert a[i] in a && b[j - |a|] in b;
      } else {
        assert ab[i] == b[i - |a|] && ab[j] == b[j - |a|];
      }
    }
  }

  // ---------------------------------------------------------------------
  // What one day holds

  /**
   * Every slot of a day lasts the duration and starts in [StartHour, LunchStartHour)
   * or in [LunchEndHour, EndHour): none starts inside the lunch break.
   */
  lemma DayElements(wp: WorkPeriod, day: int, slotDuration: int, offset: int)
    requires slotDuration > 0
    ensures forall x :: x in DaySlots(wp, day, slotDuration, offset) ==>
      x.end.clockTicks == x.start.clockTicks + slotDuration * TicksPerMinute
      && x.start.offsetMinutes == offset && x.end.offsetMinutes == offset
      && ((day + wp.startHour * TicksPerHour <= x.start.clockTicks < day + wp.lunchStartHour * TicksPerHour)
          || (day + wp.lunchEndHour * TicksPerHour <= x.start.clockTicks < day + wp.endHour * TicksPerHour))
  {
    var step := slotDuration * TicksPerMinute;
    RunElements(day + wp.startHour * TicksPerHour, day + wp.lunchStartHour * TicksPerHour, step, offset);
    RunElements(day + wp.lunchEndHour * TicksPerHour, day + wp.endHour * TicksPerHour, step, offset);
  }

  /** Hours for which a day stays within its own 24 hours and lunch does not end before it starts. */
  predicate OrderedHours(wp: WorkPeriod) {
    0 <= wp.startHour && 0 <= wp.lunchEndHour && wp.lunchStartHour <= 24 && wp.endHour <= 24
    && wp.lunchStartHour <= wp.lunchEndHour
  }

  /** With lunch not ending before it starts, a day's starts increase: morning before afternoon, each run in order. */
  lemma DayIncreasing(wp: WorkPeriod, day: int, slotDuration: int, offset: int)
    requires slotDuration > 0 && wp.lunchStartHour <= wp.lunchEndHour
    ensures StartsIncreasing(DaySlots(wp, day, slotDuration, offset))
  {
    var step := slotDuration * TicksPerMinute;
    var lunchStart, lunchEnd := day + wp.lunchStartHour * TicksPerHour, day + wp.lunchEndHour * TicksPerHour;
    RunElements(day + wp.startHour * TicksPerHour, lunchStart, step, offset);
    RunElements(lunchEnd, day + wp.endHour * TicksPerHour, step, offset);
    RunIncreasing(day + wp.startHour * TicksPerHour, lunchStart, step, offset);
    RunIncreasing(lunchEnd, day + wp.endHour * TicksPerHour, step, offset);
    IncreasingAppend(Run(day + wp.startHour * TicksPerHour, lunchStart, step, offset),
                     Run(lunchEnd, day + wp.endHour * TicksPerHour, step, offset), lunchStart);
  }

  /** StartHour 9, LunchStartHour 13, LunchEndHour 14, EndHour 17 at 10 minutes: 24 + 18 = 42 slots. */
  lemma StandardDayCount(day: int, offset: int)
    ensures |DaySlots(WorkPeriod(9, 17, 13, 14), day, 10, offset)| == 42
  {
    RunCount(day + 9 * TicksPerHour, day + 13 * TicksPerHour, 10 * TicksPerMinute, offset);
    RunCount(day + 14 * TicksPerHour, day + 17 * TicksPerHour, 10 * TicksPerMinute, offset);
  }

  // ---------------------------------------------------------------------
  // What the whole grid holds

  /** Entries are placed by position: the entries after a prefix start |prefix| days later. */
  lemma {:induction false} GridAppend(a: Schedule, b: Schedule, referenceDate: int, slotDuration: int, offset: int)
    requires slotDuration > 0 && AllWorking(a) && AllWorking(b)
    ensures AllWorking(a + b)
    ensures Grid(a + b, referenceDate, slotDuration, offset)
            == Grid(a, referenceDate, slotDuration, offset)
               + Grid(b, referenceDate + |a| * TicksPerDay, slotDuration, offset)
    decreases |b|
  {
    assert AllWorking(a + b) by {
      forall i | 0 <= i < |a + b| ensures (a + b)[i].1.workPeriod.Some? {
        if i >= |a| { assert (a + b)[i] == b[i - |a|]; }
      }
    }
    if b == [] {
      assert a + b == a;
    } else {
      var n := |b| - 1;
      assert (a + b)[..|a + b| - 1] == a + b[..n];
      assert (a + b)[|a + b| - 1] == b[n];
      assert AllWorking(b[..n]);
      GridAppend(a, b[..n], referenceDate, slotDuration, offset);
      assert referenceDate + (|a| + n) * TicksPerDay == referenceDate + |a| * TicksPerDay + n * TicksPerDay;
    }
  }

  /** The keys (weekday names) are never consulted: only the days, in order, matter. */
  lemma {:induction false} GridIgnoresKeys(s: Schedule, t: Schedule, referenceDate: int, slotDuration: int, offset: int)
    requires slotDuration > 0 && AllWorking(s)
    requires |s| == |t| && forall i :: 0 <= i < |s| ==> s[i].1 == t[i].1
    ensures AllWorking(t)
    ensures Grid(s, referenceDate, slotDuration, offset) == Grid(t, referenceDate, slotDuration, offset)
    decreases |s|
  {
    assert forall i :: 0 <= i < |t| ==> t[i].1 == s[i].1;
    if s != [] {
      var n := |s| - 1;
      assert AllWorking(s[..n]);
      GridIgnoresKeys(s[..n], t[..n], referenceDate, slotDuration, offset);
    }
  }

  predicate AllOrdered(schedule: Schedule)
    requires AllWorking(schedule)
  {
    forall i :: 0 <= i < |schedule| ==> OrderedHours(schedule[i].1.workPeriod.value)
  }

  /** With ordered hours every slot of the grid carries the offset and starts within the |schedule| days from the reference date. */
  lemma {:induction false} GridElements(schedule: Schedule, referenceDate: int, slotDuration: int, offset: int)
    requires slotDuration > 0 && AllWorking(schedule) && AllOrdered(schedule)
    ensures forall x :: x in Grid(schedule, referenceDate, slotDuration, offset) ==>
      x.start.offsetMinutes == offset && x.end.offsetMinutes == offset
      && x.end.clockTicks == x.start.clockTicks + slotDuration * TicksPerMinute
      && referenceDate <= x.start.clockTicks < referenceDate + |schedule| * TicksPerDay
    decreases |schedule|
  {
    if schedule != [] {
      var n := |schedule| - 1;
      assert AllWorking(schedule[..n]) && AllOrdered(schedule[..n]);
      GridElements(schedule[..n], referenceDate, slotDuration, offset);
      DayElements(schedule[n].1.workPeriod.value, referenceDate + n * TicksPerDay, slotDuration, offset);
    }
  }

  /** With ordered hours the grid's starts strictly increase: entry by entry, morning before afternoon. */
  lemma {:induction false} GridIncreasing(schedule: Schedule, referenceDate: int, slotDuration: int, offset: int)
    requires slotDuration > 0 && AllWorking(schedule) && AllOrdered(schedule)
    ensures StartsIncreasing(Grid(schedule, referenceDate, slotDuration, offset))
    decreases |schedule|
  {
    if schedule != [] {
      var n := |schedule| - 1;
      var wp := schedule[n].1.workPeriod.value;
      var day := referenceDate + n * TicksPerDay;
      assert AllWorking(schedule[..n]) && AllOrdered(schedule[..n]);
      GridIncreasing(schedule[..n], referenceDate, slotDuration, offset);
      GridElements(schedule[..n], referenceDate, slotDuration, offset);
      DayIncreasing(wp, day, slotDuration, offset);
      DayElements(wp, day, slotDuration, offset);
      IncreasingAppend(Grid(schedule[..n], referenceDate, slotDuration, offset),
                       DaySlots(wp, day, slotDuration, offset), day);
    }
  }

  /** With ordered hours no two grid slots are equal under the comparer, so Except keeps them all apart from the busy ones. */
  lemma GridDistinct(schedule: Schedule, referenceDate: int, slotDuration: int, offset: int)
    requires slotDuration > 0 && AllWorking(schedule) && AllOrdered(schedule)
    ensures Distinct(Grid(schedule, referenceDate, slotDuration, offset))
  {
    var g := Grid(schedule, referenceDate, slotDuration, offset);
    GridIncreasing(schedule, referenceDate, slotDuration, offset);
    GridElements(schedule, referenceDate, slotDuration, offset);
    forall i, j | 0 <= i < j < |g| ensures !SlotEquals(g[i], g[j]) {
      assert g[i] in g && g[j] in g;
    }
  }

  // ---------------------------------------------------------------------
  // Available slots

  /** The busy slots of every entry, in order; an entry whose list is null adds none. */
  function BusySlots(schedule: Schedule): seq<Slot> {
    if schedule == [] then []
    else
      var n := |schedule| - 1;
      BusySlots(schedule[..n]) + (match schedule[n].1.busySlots case None => [] case Some(b) => b)
  }

  /**
   * The availability query: the grid less every slot the comparer finds among
   * the busy ones. A failed upstream fetch (None) gives no slots at all.
   */
  function AvailableSlots(fetched: Option<Schedule>, referenceDate: int, slotDuration: int, offset: int): seq<Slot>
    requires slotDuration > 0
    requires fetched.Some? ==> AllWorking(fetched.value)
  {
    match fetched
    case None => []
    case Some(schedule) => Except(Grid(schedule, referenceDate, slotDuration, offset), BusySlots(schedule))
  }

  /**
   * What the query yields: no slot at all when the fetch failed; otherwise only
   * grid slots no busy slot equals, no two of them equal, and every such grid
   * slot represented.
   */
  lemma AvailableSlotsSpec(fetched: Option<Schedule>, referenceDate: int, slotDuration: int, offset: int)
    requires slotDuration > 0
    requires fetched.Some? ==> AllWorking(fetched.value)
    ensures fetched.None? ==> AvailableSlots(fetched, referenceDate, slotDuration, offset) == []
    ensures fetched.Some? ==>
      var grid, busy := Grid(fetched.value, referenceDate, slotDuration, offset), BusySlots(fetched.value);
      var available := AvailableSlots(fetched, referenceDate, slotDuration, offset);
      Distinct(available)
      && (forall x :: x in available ==> x in grid && !Matches(busy, x))
      && (forall x :: x in grid && !Matches(busy, x) ==> Matches(available, x))
  {
    if fetched.Some? {
      var grid, busy := Grid(fetched.value, referenceDate, slotDuration, offset), BusySlots(fetched.value);
      ExceptSound(grid, busy);
      forall x | x in grid && !Matches(busy, x) ensures Matches(Except(grid, busy), x) {
        ExceptComplete(grid, busy, x);
      }
    }
  }

  // ---------------------------------------------------------------------
  // The week the availability request asks for

  /**
   * RetrieveAvailabilityAsync's week start as written: the target date moved by
   * Monday minus today's weekday (Sunday = 0). None where AddDays would throw.
   */
  function MondayDateAsWritten(targetDate: int, today: int): Option<int>
    requires ValidTicks(targetDate) && ValidTicks(today)
  {
    AddDays(targetDate, -DayOfWeek(today) + Monday)
  }

  /** The week start the comment describes: the target date moved by Monday minus its own weekday. */
  function MondayDate(targetDate: int): Option<int>
    requires ValidTicks(targetDate)
  {
    AddDays(targetDate, -DayOfWeek(targetDate) + Monday)
  }

  /** Moving by whole days moves the weekday by as many days and keeps the time of day. */
  lemma DayOfWeekShift(ticks: int, days: int)
    requires ticks >= 0 && ticks + days * TicksPerDay >= 0
    ensures DayOfWeek(ticks + days * TicksPerDay) == (DayOfWeek(ticks) + days) % 7
    ensures (ticks + days * TicksPerDay) % TicksPerDay == ticks % TicksPerDay
  {
    DivModUnique(ticks + days * TicksPerDay, TicksPerDay, ticks / TicksPerDay + days, ticks % TicksPerDay);
    var q := ticks / TicksPerDay + 1;
    DivModUnique(q + days, 7, (q % 7 + days - (q % 7 + days) % 7) / 7 + q / 7, (q % 7 + days) % 7);
  }

  /** Either way the week start is between five days before and one day after the target, at its time of day. */
  lemma MondayShiftRange(targetDate: int, today: int)
    requires ValidTicks(targetDate) && ValidTicks(today)
    ensures MondayDateAsWritten(targetDate, today).Some? ==>
      exists k :: -5 <= k <= 1 && MondayDateAsWritten(targetDate, today).value == targetDate + k * TicksPerDay
    ensures MondayDate(targetDate).Some? ==>
      exists k :: -5 <= k <= 1 && MondayDate(targetDate).value == targetDate + k * TicksPerDay
  {
    var k, k' := Monday - DayOfWeek(today), Monday - DayOfWeek(targetDate);
    assert -5 <= k <= 1 && -5 <= k' <= 1;
  }

  /** The corrected week start is a Monday, at the target's time of day; Sunday counts as the first day of its week. */
  lemma MondayDateIsMonday(targetDate: int)
    requires ValidTicks(targetDate)
    ensures MondayDate(targetDate).Some? ==>
      DayOfWeek(MondayDate(targetDate).value) == Monday
      && MondayDate(targetDate).value % TicksPerDay == targetDate % TicksPerDay
  {
    var days := Monday - DayOfWeek(targetDate);
    if MondayDate(targetDate).Some? {
      DayOfWeekShift(targetDate, days);
    }
  }

  /** The line as written agrees with the corrected one exactly when today falls on the target's weekday. */
  lemma MondayAsWrittenAgreesIff(targetDate: int, today: int)
    requires ValidTicks(targetDate) && ValidTicks(today)
    requires MondayDateAsWritten(targetDate, today).Some? && MondayDate(targetDate).Some?
    ensures MondayDateAsWritten(targetDate, today) == MondayDate(targetDate) <==> DayOfWeek(today) == DayOfWeek(targetDate)
  {
    var k, k' := Monday - DayOfWeek(today), Monday - DayOfWeek(targetDate);
    assert ValidTicks(targetDate + k * TicksPerDay) && ValidTicks(targetDate + k' * TicksPerDay);
    if DayOfWeek(today) != DayOfWeek(targetDate) {
      assert k * TicksPerDay != k' * TicksPerDay;
    }
  }

  /** Midnight of 18 June 2024 (a Tuesday) and of 19 June 2024 (a Wednesday). */
  const Tuesday20240618: int := 638542656000000000
  const Wednesday20240619: int := 638543520000000000

  /** Requested for Tuesday 18 June 2024 on a Wednesday, the line as written asks for Sunday 16 June. */
  lemma MondayDateAsWrittenMissesMonday()
    ensures ValidTicks(Tuesday20240618) && ValidTicks(Wednesday20240619)
    ensures DayOfWeek(Tuesday20240618) == 2 && DayOfWeek(Wednesday20240619) == 3
    ensures MondayDateAsWritten(Tuesday20240618, Wednesday20240619) == Some(Tuesday20240618 - 2 * TicksPerDay)
    ensures DayOfWeek(Tuesday20240618 - 2 * TicksPerDay) == Sunday
    ensures MondayDate(Tuesday20240618) == Some(Tuesday20240618 - TicksPerDay)
    ensures DayOfWeek(Tuesday20240618 - TicksPerDay) == Monday
  {
  }

  /** The two constants are the midnights of those calendar dates; two days and one day before the Tuesday are 16 and 17 June. */
  lemma CalendarAnchors()
    ensures Tuesday20240618 == MidnightOf(Date(2024, 6, 18))
    ensures Wednesday20240619 == MidnightOf(Date(2024, 6, 19))
    ensures Tuesday20240618 - 2 * TicksPerDay == MidnightOf(Date(2024, 6, 16))
    ensures Tuesday20240618 - TicksPerDay == MidnightOf(Date(2024, 6, 17))
  {
  }

  /** Day 739052 since 0001-01-01 is day 167 (0-based) of 2024, i.e. 16 June. */
  lemma June16YearAndDay()
    ensures YearAndDayOf(739052) == (2024, 167)
  {
  }

  /** Day 739053 is day 168 of 2024, i.e. 17 June. */
  lemma June17YearAndDay()
    ensures YearAndDayOf(739053) == (2024, 168)
  {
  }

  /** The calendar dates two days and one day before the Tuesday's midnight. */
  lemma June16And17()
    ensures DateOf((Tuesday20240618 - 2 * TicksPerDay) / TicksPerDay) == Date(2024, 6, 16)
    ensures DateOf((Tuesday20240618 - TicksPerDay) / TicksPerDay) == Date(2024, 6, 17)
  {
    June16YearAndDay();
    June17YearAndDay();
    assert DaysBeforeMonth(2024, 6) == 152 && DaysBeforeMonth(2024, 7) == 182;
    DateOfInMonth(739052, 2024, 167, 6);
    DateOfInMonth(739053, 2024, 168, 6);
  }

  // ---------------------------------------------------------------------
  // The week start in the availability URL

  /** mondayDate.ToString("yyyyMMdd"): the date in eight zero-padded digits. */
  function UrlDate(ticks: int): (s: string)
    requires ValidTicks(ticks)
    ensures |s| == 8 && AllDigits(s)
  {
    var f := FieldsOf(ticks);
    Pad(f.year, 4) + Pad(f.month, 2) + Pad(f.day, 2)
  }

  /** Eight digits read as yyyyMMdd. */
  function ReadUrlDate(s: string): Date
    requires |s| == 8 && AllDigits(s)
  {
    Date(DigitsValue(s[..4]), DigitsValue(s[4..6]), DigitsValue(s[6..]))
  }

  /** The eight digits read back name the calendar date of the ticks. */
  lemma UrlDateReadsBack(ticks: int)
    requires ValidTicks(ticks)
    ensures ReadUrlDate(UrlDate(ticks)) == DateOf(ticks / TicksPerDay)
  {
    var f := FieldsOf(ticks);
    var s := UrlDate(ticks);
    assert s[..4] == Pad(f.year, 4) && s[4..6] == Pad(f.month, 2) && s[6..] == Pad(f.day, 2);
    PadRoundTrip(f.year, 4);
    PadRoundTrip(f.month, 2);
    PadRoundTrip(f.day, 2);
  }

  /**
   * The date SlotManager.cs puts in the availability URL, as written: the week
   * start of line 84, computed from today's weekday, as yyyyMMdd; None where
   * AddDays would throw.
   */
  function WeekUrlDateAsWritten(targetDate: int, today: int): (r: Option<string>)
    requires ValidTicks(targetDate) && ValidTicks(today)
    ensures r.Some? <==> MondayDateAsWritten(targetDate, today).Some?
    ensures r.Some? ==> |r.value| == 8 && AllDigits(r.value)
    ensures r.Some? ==> ReadUrlDate(r.value) == DateOf(MondayDateAsWritten(targetDate, today).value / TicksPerDay)
    ensures DayOfWeek(today) == DayOfWeek(targetDate) ==> r == WeekUrlDate(targetDate)
  {
    match MondayDateAsWritten(targetDate, today)
    case None => None
    case Some(monday) =>
      UrlDateReadsBack(monday);
      Some(UrlDate(monday))
  }

  /** Requested for Tuesday 18 June 2024 on Wednesday 19 June, the URL as written names 16 June, a Sunday; the corrected one names 17 June. */
  lemma WeekUrlDateAsWrittenNamesSunday()
    ensures WeekUrlDateAsWritten(Tuesday20240618, Wednesday20240619).Some?
    ensures ReadUrlDate(WeekUrlDateAsWritten(Tuesday20240618, Wednesday20240619).value) == Date(2024, 6, 16)
    ensures (DayNumber(Date(2024, 6, 16)) + 1) % 7 == Sunday
    ensures WeekUrlDate(Tuesday20240618).Some?
    ensures ReadUrlDate(WeekUrlDate(Tuesday20240618).value) == Date(2024, 6, 17)
  {
    MondayDateAsWrittenMissesMonday();
    CalendarAnchors();
    June16And17();
    UrlDateReadsBack(Tuesday20240618 - TicksPerDay);
  }

  /** The date the availability URL carries for a requested date with the week start corrected: its week's Monday as yyyyMMdd; None where the shift leaves the calendar. */
  function WeekUrlDate(targetDate: int): (r: Option<string>)
    requires ValidTicks(targetDate)
    ensures r.Some? <==> MondayDate(targetDate).Some?
    ensures r.Some? ==> |r.value| == 8 && AllDigits(r.value)
  {
    match MondayDate(targetDate)
    case None => None
    case Some(monday) => Some(UrlDate(monday))
  }

  /** With the week start corrected, the URL date names a Monday between five days before and one day after the requested date. */
  lemma WeekUrlDateIsMonday(targetDate: int)
    requires ValidTicks(targetDate)
    ensures WeekUrlDate(targetDate).Some? ==>
      var d := ReadUrlDate(WeekUrlDate(targetDate).value);
      ValidDate(d) && (DayNumber(d) + 1) % 7 == Monday
      && targetDate / TicksPerDay - 5 <= DayNumber(d) <= targetDate / TicksPerDay + 1
  {
    if MondayDate(targetDate).Some? {
      var monday := MondayDate(targetDate).value;
      var k := Monday - DayOfWeek(targetDate);
      assert monday == targetDate + k * TicksPerDay;
      DivModUnique(monday, TicksPerDay, targetDate / TicksPerDay + k, targetDate % TicksPerDay);
      MondayDateIsMonday(targetDate);
      UrlDateReadsBack(monday);
    }
  }
}
