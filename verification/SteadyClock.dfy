/** Zones whose clocks change. The laws of a fixed clock hold wherever no change falls between a submission
    and its deadline; and rare changes never keep the day walk from finding a day. */
module SteadyClock {
  import opened WallClock
  import opened WorkingCalendar
  import opened WorkingDeadlines

  /** The offset does not change from one instant to another. */
  ghost predicate Steady(zone: Zone, offset: int, from: int, to: int) {
    forall at :: from <= at <= to ==> zone(at) == offset
  }

  /** The same calendar on a clock that never changes. */
  function OnFixedClock(cal: Calendar, offset: int): Calendar {
    cal.(zone := _ => offset)
  }

  function Min(a: int, b: int): int {
    if a < b then a else b
  }

  function Max(a: int, b: int): int {
    if a < b then b else a
  }

  /** The clock is steady from the earlier to the later of two instants and their readings. */
  ghost predicate SteadyBetween(cal: Calendar, offset: int, from: int, to: int) {
    Steady(cal.zone, offset, Min(from, from + offset), Max(to, to + offset))
  }

  // ----- A walk sees no further than what it finds ---------------------------------------------------

  lemma {:induction false} WalkAgrees(cal: Calendar, offset: int, from: int, wall: int, last: int, to: int)
    requires Walk(OnFixedClock(cal, offset), wall, last).Found?
    requires Walk(OnFixedClock(cal, offset), wall, last).at <= to
    requires SteadyBetween(cal, offset, from, to) && from + offset <= wall + DAY_MS
    ensures Walk(cal, wall, last) == Walk(OnFixedClock(cal, offset), wall, last)
    ensures wall + DAY_MS <= Walk(cal, wall, last).at + offset
    decreases last - wall
  {
    var fixed := OnFixedClock(cal, offset);
    var next := wall + DAY_MS;
    FixedIsExact(fixed.zone, offset, next);
    if !IsWorkingDay(fixed, next - offset) {
      WalkAgrees(cal, offset, from, next, last, to);
    }
    assert next - offset <= to;
    assert cal.zone(next) == offset && cal.zone(next - offset) == offset;
  }

  lemma MidnightIsBefore(cal: Calendar, at: int)
    ensures Midnight(cal, at) <= WallTime(cal.zone, at) < Midnight(cal, at) + DAY_MS
  {
  }

  lemma StartOfNextAgrees(cal: Calendar, offset: int, from: int, at: int, to: int)
    requires cal.zone(at) == offset
    requires StartOfNext(OnFixedClock(cal, offset), at).Found?
    requires from <= at && StartOfNext(OnFixedClock(cal, offset), at).at <= to
    requires SteadyBetween(cal, offset, from, to)
    ensures StartOfNext(cal, at) == StartOfNext(OnFixedClock(cal, offset), at)
  {
    var midnight := Midnight(cal, at);
    MidnightIsBefore(cal, at);
    WalkAgrees(cal, offset, from, midnight, LastTried(midnight), to);
  }

  lemma FixedAdjustGoesOn(cal: Calendar, offset: int, at: int)
    requires Adjust(OnFixedClock(cal, offset), at).Found?
    ensures at <= Adjust(OnFixedClock(cal, offset), at).at
  {
    FixedAdjust(OnFixedClock(cal, offset), offset, at);
  }

  lemma AdjustAgrees(cal: Calendar, offset: int, from: int, at: int, to: int)
    requires Adjust(OnFixedClock(cal, offset), at).Found?
    requires from <= at && Adjust(OnFixedClock(cal, offset), at).at <= to
    requires SteadyBetween(cal, offset, from, to)
    ensures Adjust(cal, at) == Adjust(OnFixedClock(cal, offset), at)
    ensures at <= Adjust(cal, at).at
  {
    FixedAdjustGoesOn(cal, offset, at);
    assert cal.zone(at) == offset;
    assert IsWorkingDay(cal, at) <==> IsWorkingDay(OnFixedClock(cal, offset), at);
    if !IsWorkingDay(cal, at) {
      StartOfNextAgrees(cal, offset, from, at, to);
    }
  }

  lemma NextAgrees(cal: Calendar, offset: int, from: int, at: int, to: int)
    requires NextAtSameTime(OnFixedClock(cal, offset), at).Found?
    requires from <= at && NextAtSameTime(OnFixedClock(cal, offset), at).at <= to
    requires SteadyBetween(cal, offset, from, to)
    ensures NextAtSameTime(cal, at) == NextAtSameTime(OnFixedClock(cal, offset), at)
    ensures at <= NextAtSameTime(cal, at).at
  {
    var fixed := OnFixedClock(cal, offset);
    FixedNext(fixed, offset, at);
    assert cal.zone(at) == offset;
    WalkAgrees(cal, offset, from, at + offset, LastTried(at + offset), to);
  }

  /** Two steps that agree up to an instant agree over every number of turns that ends by then. */
  lemma {:induction false} IterateAgrees(step: int -> Outcome, other: int -> Outcome, from: int, times: nat, to: int)
    requires Iterate(other, from, times).Found? && Iterate(other, from, times).at <= to
    requires forall at :: from <= at && other(at).Found? && other(at).at <= to ==>
                            step(at) == other(at) && at <= other(at).at
    requires forall at :: other(at).Found? ==> at <= other(at).at
    ensures Iterate(step, from, times) == Iterate(other, from, times)
    ensures from <= Iterate(step, from, times).at
    decreases times
  {
    if times > 0 {
      var before := Iterate(other, from, times - 1);
      assert other(before.at).Found? && before.at <= other(before.at).at;
      IterateAgrees(step, other, from, times - 1, to);
    }
  }

  lemma DaysAgree(cal: Calendar, offset: int, from: int, start: int, days: nat, to: int)
    requires AddDays(OnFixedClock(cal, offset), start, days).Found?
    requires from <= start && AddDays(OnFixedClock(cal, offset), start, days).at <= to
    requires SteadyBetween(cal, offset, from, to)
    ensures AddDays(cal, start, days) == AddDays(OnFixedClock(cal, offset), start, days)
    ensures start <= AddDays(cal, start, days).at
  {
    var fixed := OnFixedClock(cal, offset);
    var step, other := DayStep(cal), DayStep(fixed);
    forall at | start <= at && other(at).Found? && other(at).at <= to
      ensures step(at) == other(at) && at <= other(at).at
    {
      NextAgrees(cal, offset, from, at, to);
    }
    forall at | other(at).Found?
      ensures at <= other(at).at
    {
      FixedNext(fixed, offset, at);
    }
    IterateAgrees(step, other, start, days, to);
  }

  lemma HourStepAgrees(cal: Calendar, offset: int, from: int, at: int, to: int)
    requires HourStep(OnFixedClock(cal, offset))(at).Found?
    requires from <= at && HourStep(OnFixedClock(cal, offset))(at).at <= to
    requires SteadyBetween(cal, offset, from, to)
    ensures HourStep(cal)(at) == HourStep(OnFixedClock(cal, offset))(at)
    ensures at <= HourStep(cal)(at).at
  {
    AdjustAgrees(cal, offset, from, at + HOUR_MS, to);
  }

  lemma HoursAgree(cal: Calendar, offset: int, from: int, start: int, hours: nat, to: int)
    requires AddHours(OnFixedClock(cal, offset), start, hours).Found?
    requires from <= start && AddHours(OnFixedClock(cal, offset), start, hours).at <= to
    requires SteadyBetween(cal, offset, from, to)
    ensures AddHours(cal, start, hours) == AddHours(OnFixedClock(cal, offset), start, hours)
    ensures start <= AddHours(cal, start, hours).at
  {
    var fixed := OnFixedClock(cal, offset);
    var step, other := HourStep(cal), HourStep(fixed);
    forall at | start <= at && other(at).Found? && other(at).at <= to
      ensures step(at) == other(at) && at <= other(at).at
    {
      HourStepAgrees(cal, offset, from, at, to);
    }
    forall at | other(at).Found?
      ensures at <= other(at).at
    {
      FixedAdjustGoesOn(cal, offset, at + HOUR_MS);
    }
    IterateAgrees(step, other, start, hours, to);
  }

  /** A deadline depends on the clock only up to the deadline: if the offset does not change before then, it
      is the deadline of a clock that never changes. */
  lemma DeadlineSeesNoFurther(cal: Calendar, offset: int, from: int, d: Duration, kind: Kind)
    requires Deadline(OnFixedClock(cal, offset), from, d, kind).Found?
    requires SteadyBetween(cal, offset, from, Deadline(OnFixedClock(cal, offset), from, d, kind).at)
    ensures Deadline(cal, from, d, kind) == Deadline(OnFixedClock(cal, offset), from, d, kind)
    ensures from <= Deadline(cal, from, d, kind).at
  {
    if kind == WorkingDays {
      var fixed := OnFixedClock(cal, offset);
      var to := Deadline(fixed, from, d, kind).at;
      var start := Adjust(fixed, from).at;
      var day := AddDays(fixed, start, d.days).at;
      FixedAdjust(fixed, offset, from);
      DaysTakeAtLeast(fixed, offset, start, d.days);
      HoursTakeAtLeast(fixed, offset, day, d.hours);
      AdjustAgrees(cal, offset, from, from, to);
      DaysAgree(cal, offset, from, start, d.days, to);
      HoursAgree(cal, offset, from, day, d.hours, to);
    }
  }

  // ----- The laws, wherever no change falls in between ------------------------------------------------

  /** No clock change from the earlier submission to the later one's deadline: the deadlines keep the order. */
  lemma SteadyDeadlineIsMonotone(cal: Calendar, offset: int, earlier: int, later: int, d: Duration, kind: Kind)
    requires earlier <= later
    requires Deadline(OnFixedClock(cal, offset), earlier, d, kind).Found?
    requires Deadline(OnFixedClock(cal, offset), later, d, kind).Found?
    requires SteadyBetween(cal, offset, earlier, Deadline(OnFixedClock(cal, offset), later, d, kind).at)
    ensures Deadline(cal, earlier, d, kind).Found? && Deadline(cal, later, d, kind).Found?
    ensures Deadline(cal, earlier, d, kind).at <= Deadline(cal, later, d, kind).at
  {
    DeadlineIsMonotone(OnFixedClock(cal, offset), offset, earlier, later, d, kind);
    DeadlineSeesNoFurther(cal, offset, earlier, d, kind);
    DeadlineSeesNoFurther(cal, offset, later, d, kind);
  }

  /** No clock change before it: a working deadline is never earlier than the contractual one. */
  lemma SteadyWorkingIsNoEarlier(cal: Calendar, offset: int, from: int, d: Duration)
    requires Deadline(OnFixedClock(cal, offset), from, d, WorkingDays).Found?
    requires SteadyBetween(cal, offset, from, Deadline(OnFixedClock(cal, offset), from, d, WorkingDays).at)
    ensures Deadline(cal, from, d, WorkingDays).Found?
    ensures Deadline(cal, from, d, CalendarDays).at <= Deadline(cal, from, d, WorkingDays).at
  {
    WorkingIsNoEarlierThanCalendar(OnFixedClock(cal, offset), offset, from, d);
    DeadlineSeesNoFurther(cal, offset, from, d, WorkingDays);
  }

  /** No clock change before it: the hours spent are the hours asked for exactly when the start is on the hour
      or every hour's end by the plain clock is worked. */
  lemma SteadyHoursAreExact(cal: Calendar, offset: int, from: int, hours: nat)
    requires IsWorkingDay(cal, from)
    requires AddHours(OnFixedClock(cal, offset), from, hours).Found?
    requires SteadyBetween(cal, offset, from, AddHours(OnFixedClock(cal, offset), from, hours).at)
    ensures AddHours(cal, from, hours).Found?
    ensures WorkedTime(cal, from + offset, AddHours(cal, from, hours).at + offset) == hours * HOUR_MS
       <==> (from + offset) % HOUR_MS == 0 || EveryHourWorked(cal, from + offset, hours)
  {
    var fixed := OnFixedClock(cal, offset);
    var to := AddHours(fixed, from, hours).at;
    HoursTakeAtLeast(fixed, offset, from, hours);
    assert cal.zone(from) == offset;
    HoursAgree(cal, offset, from, from, hours, to);
    WholeHoursAreExact(fixed, offset, from, hours, to);
    SameDaysSameTime(cal, fixed, from + offset, to + offset);
    SameDaysSameHours(cal, fixed, from + offset, hours);
  }

  /** No clock change before the end: the worked time spent is the hours asked for, less the start's minutes past the
      hour, plus the end's. */
  lemma SteadyHoursAreConserved(cal: Calendar, offset: int, from: int, hours: nat)
    requires IsWorkingDay(cal, from)
    requires AddHours(OnFixedClock(cal, offset), from, hours).Found?
    requires SteadyBetween(cal, offset, from, AddHours(OnFixedClock(cal, offset), from, hours).at)
    ensures AddHours(cal, from, hours).Found?
    ensures SpendsHours(cal, from + offset, AddHours(cal, from, hours).at + offset, hours)
  {
    var fixed := OnFixedClock(cal, offset);
    var to := AddHours(fixed, from, hours).at;
    HoursTakeAtLeast(fixed, offset, from, hours);
    assert cal.zone(from) == offset;
    HoursAgree(cal, offset, from, from, hours, to);
    HoursAreConserved(fixed, offset, from, hours, to);
    SameDaysSameTime(cal, fixed, from + offset, to + offset);
  }

  lemma SameDaysSameHours(cal: Calendar, other: Calendar, wall: int, hours: nat)
    requires other == cal.(zone := other.zone)
    ensures EveryHourWorked(other, wall, hours) <==> EveryHourWorked(cal, wall, hours)
  {
    forall k: nat ensures WorkedAfter(other, wall, k) <==> WorkedAfter(cal, wall, k) {
    }
  }

  lemma SameDaysSameTime(cal: Calendar, other: Calendar, from: int, to: int)
    requires other == cal.(zone := other.zone)
    ensures WorkedTime(other, from, to) == WorkedTime(cal, from, to)
  {
    SameDaysSameCount(cal, other, DayOf(from) - 1, DayOf(to) - 1);
  }

  lemma {:induction false} SameDaysSameCount(cal: Calendar, other: Calendar, after: int, upTo: int)
    requires other == cal.(zone := other.zone)
    ensures CountWorked(other, after, upTo) == CountWorked(cal, after, upTo)
    decreases upTo - after
  {
    if after < upTo {
      SameDaysSameCount(cal, other, after, upTo - 1);
    }
  }

  // ----- Rare changes ---------------------------------------------------------------------------------

  /** Offsets stay under a day, and over a span of time the offset changes at these instants only. */
  ghost predicate ChangesOnlyAt(zone: Zone, changes: set<int>, from: int, to: int) {
    && (forall at :: -DAY_MS < zone(at) < DAY_MS)
    && forall at, later :: from <= at <= later <= to && NoneBetween(changes, at, later) ==> zone(at) == zone(later)
  }

  ghost predicate NoneBetween(changes: set<int>, at: int, later: int) {
    forall c :: c in changes ==> !(at < c <= later)
  }

  /** Within a day of the reading no change falls, so it is found exactly. */
  lemma FarFromChanges(zone: Zone, changes: set<int>, from: int, to: int, wanted: int)
    requires ChangesOnlyAt(zone, changes, from, to) && from <= wanted - DAY_MS && wanted + DAY_MS <= to
    requires forall c :: c in changes ==> !(wanted - DAY_MS < c < wanted + DAY_MS)
    ensures Exact(zone, wanted)
  {
    forall at | wanted - DAY_MS < at < wanted + DAY_MS
      ensures zone(at) == zone(wanted)
    {
      assert at <= wanted ==> NoneBetween(changes, at, wanted);
      assert wanted <= at ==> NoneBetween(changes, wanted, at);
    }
    var offset := zone(wanted);
    assert zone(wanted - offset) == offset;
  }

  /** The two days on which a change can lie within a day of one time of day. */
  ghost function Spoiled(change: int, time: int): set<int> {
    {DayOf(change - time), DayOf(change - time) + 1}
  }

  lemma NearMeansSpoiled(change: int, day: int, time: int)
    requires day * DAY_MS + time - DAY_MS < change < day * DAY_MS + time + DAY_MS
    ensures day in Spoiled(change, time)
  {
    var q := DayOf(change - time);
    assert q * DAY_MS <= change - time < (q + 1) * DAY_MS;
    assert (day - 1) * DAY_MS < (q + 1) * DAY_MS && q * DAY_MS < (day + 1) * DAY_MS;
  }

  /** Each change spoils at most two days for one time of day. */
  lemma {:induction false} AllSpoiled(changes: set<int>, time: int) returns (days: set<int>)
    ensures |days| <= 2 * |changes|
    ensures forall c :: c in changes ==> Spoiled(c, time) <= days
  {
    days := {};
    if c :| c in changes {
      var rest := AllSpoiled(changes - {c}, time);
      days := rest + Spoiled(c, time);
      assert forall c' :: c' in changes ==> c' == c || c' in changes - {c};
    }
  }

  const MAX_CHANGES := 60

  /** In any ten years the clock changes at most sixty times: six times a year. */
  ghost predicate ChangesSeldom(zone: Zone) {
    forall wall :: ChangesSeldomAfter(zone, wall)
  }

  ghost predicate ChangesSeldomAfter(zone: Zone, wall: int) {
    exists changes: set<int> ::
      ChangesOnlyAt(zone, changes, wall - DAY_MS, LastTried(wall) + DAY_MS) && |changes| <= MAX_CHANGES
  }

  lemma FewChangesSkipFewDays(zone: Zone, wall: int, changes: set<int>)
    requires ChangesOnlyAt(zone, changes, wall - DAY_MS, LastTried(wall) + DAY_MS) && |changes| <= MAX_CHANGES
    ensures SkipsSeldomAfter(zone, wall)
  {
    var time := TimeOfDay(wall);
    var spoiled := AllSpoiled(changes, time);
    forall day | DayOf(wall) < day <= DayOf(wall) + MAX_WALK_DAYS && day !in spoiled
      ensures Exact(zone, day * DAY_MS + time)
    {
      UnspoiledIsExact(zone, wall, changes, day, spoiled);
    }
    assert SkipsOnly(zone, wall, spoiled);
  }

  lemma UnspoiledIsExact(zone: Zone, wall: int, changes: set<int>, day: int, spoiled: set<int>)
    requires ChangesOnlyAt(zone, changes, wall - DAY_MS, LastTried(wall) + DAY_MS)
    requires DayOf(wall) < day <= DayOf(wall) + MAX_WALK_DAYS
    requires forall c :: c in changes ==> Spoiled(c, TimeOfDay(wall)) <= spoiled
    requires day !in spoiled
    ensures Exact(zone, day * DAY_MS + TimeOfDay(wall))
  {
    var time := TimeOfDay(wall);
    var wanted := day * DAY_MS + time;
    forall c | c in changes ensures !(wanted - DAY_MS < c < wanted + DAY_MS) {
      if wanted - DAY_MS < c < wanted + DAY_MS {
        NearMeansSpoiled(c, day, time);
      }
    }
    FarFromChanges(zone, changes, wall - DAY_MS, LastTried(wall) + DAY_MS, wanted);
  }

  /** A zone whose clock changes seldom never keeps a deadline from being found: for every calendar the
      contract admits, every duration and every start. */
  lemma SeldomChangingNeverThrows(cal: Calendar, from: int, d: Duration, kind: Kind)
    requires Admitted(cal) && ChangesSeldom(cal.zone)
    ensures Deadline(cal, from, d, kind).Found?
  {
    forall wall: int
      ensures SkipsSeldomAfter(cal.zone, wall)
    {
      assert ChangesSeldomAfter(cal.zone, wall);
      var changes: set<int> :|
        ChangesOnlyAt(cal.zone, changes, wall - DAY_MS, LastTried(wall) + DAY_MS) && |changes| <= MAX_CHANGES;
      FewChangesSkipFewDays(cal.zone, wall, changes);
    }
    DeadlineNeverThrows(cal, from, d, kind);
  }
}
