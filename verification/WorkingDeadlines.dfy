/** What the deadline arithmetic promises over whole calendars: it always finds a day, it never puts a
    later submission ahead of an earlier one, and it spends the hours it was asked to spend. */
module WorkingDeadlines {
  import opened WallClock
  import opened WorkingCalendar

  // ----- The walk never fails -------------------------------------------------------------------

  const MAX_WEEKEND_DAYS := 6
  const MAX_HOLIDAYS := 400

  /** The calendars packages/contracts/src/admin/approval-routing.ts admits. */
  predicate Admitted(cal: Calendar) {
    && |cal.weekendDays| <= MAX_WEEKEND_DAYS
    && (forall w :: w in cal.weekendDays ==> 1 <= w <= 7)
    && |cal.holidays| <= MAX_HOLIDAYS
  }

  /** 3650 days hold 521 whole weeks, so at least this many of any one weekday. */
  const WEEKS_IN_WALK := 521

  /** The days from `first` on, one week apart. */
  ghost function Weekly(first: int, weeks: nat): set<int> {
    set week | 0 <= week < weeks :: first + 7 * week
  }

  lemma {:induction false} WeeklySize(first: int, weeks: nat)
    ensures |Weekly(first, weeks)| == weeks
  {
    if weeks > 0 {
      WeeklySize(first, weeks - 1);
      var day := first + 7 * (weeks - 1);
      assert Weekly(first, weeks) == Weekly(first, weeks - 1) + {day};
      assert day !in Weekly(first, weeks - 1);
    }
  }

  ghost function SeqSet(s: seq<int>): (r: set<int>)
    ensures |r| <= |s|
    ensures forall x :: x in s <==> x in r
  {
    if s == [] then {} else SeqSet(s[..|s| - 1]) + {s[|s| - 1]}
  }

  ghost function FirstDays(n: nat): (days: set<int>)
    ensures |days| == n
    ensures forall day :: day in days <==> 1 <= day <= n
  {
    if n == 0 then {} else FirstDays(n - 1) + {n}
  }

  /** Six weekend days leave a weekday that is worked. */
  lemma SomeWeekdayIsWorked(cal: Calendar) returns (weekday: int)
    requires |cal.weekendDays| <= MAX_WEEKEND_DAYS
    ensures 1 <= weekday <= 7 && weekday !in cal.weekendDays
  {
    var week, off := FirstDays(7), SeqSet(cal.weekendDays);
    if week <= off {
      SubsetSize(week, off);
    }
    weekday :| weekday in week && weekday !in off;
  }

  lemma SubsetSize(a: set<int>, b: set<int>)
    requires a <= b
    ensures |a| <= |b|
  {
    assert b == a + (b - a);
  }

  lemma WeekdayComesRound(day: int, weekday: int) returns (first: int)
    requires 1 <= weekday <= 7
    ensures day < first <= day + 7
    ensures forall later :: (later - first) % 7 == 0 ==> IsoWeekday(later) == weekday
  {
    first := day + 1 + (weekday - 4 - day - 1) % 7;
  }

  /** A failed walk rejected every day it tried. */
  lemma {:induction false} FailedWalk(cal: Calendar, wall: int, last: int, k: nat)
    requires Walk(cal, wall, last).NoWorkingDay?
    requires 1 <= k && wall + k * DAY_MS <= last
    ensures !IsWorkingDay(cal, Resolve(cal.zone, wall + k * DAY_MS))
    decreases last - wall
  {
    if k > 1 {
      FailedWalk(cal, wall + DAY_MS, last, k - 1);
      assert wall + DAY_MS + (k - 1) * DAY_MS == wall + k * DAY_MS;
    }
  }

  /** `skipped` holds every day in reach of the walk on which this time of day is not found exactly. */
  ghost predicate SkipsOnly(zone: Zone, wall: int, skipped: set<int>) {
    forall day :: DayOf(wall) < day <= DayOf(wall) + MAX_WALK_DAYS && day !in skipped ==>
                    Exact(zone, day * DAY_MS + TimeOfDay(wall))
  }

  /** Of the 521 occurrences of a worked weekday, holidays and clock changes cannot take them all. */
  lemma WalkSucceeds(cal: Calendar, wall: int, skipped: set<int>)
    requires |cal.weekendDays| <= MAX_WEEKEND_DAYS
    requires SkipsOnly(cal.zone, wall, skipped)
    requires |cal.holidays| + |skipped| < WEEKS_IN_WALK
    ensures Walk(cal, wall, LastTried(wall)).Found?
  {
    if Walk(cal, wall, LastTried(wall)).NoWorkingDay? {
      var weekday := SomeWeekdayIsWorked(cal);
      var first := WeekdayComesRound(DayOf(wall), weekday);
      var candidates := Weekly(first, WEEKS_IN_WALK);
      forall day | day in candidates
        ensures day in cal.holidays + skipped
      {
        assert IsoWeekday(day) == weekday;
        if day !in skipped {
          FailedOnExactDay(cal, wall, day);
        }
      }
      WeeklySize(first, WEEKS_IN_WALK);
      SubsetSize(candidates, cal.holidays + skipped);
    }
  }

  lemma FailedOnExactDay(cal: Calendar, wall: int, day: int)
    requires Walk(cal, wall, LastTried(wall)).NoWorkingDay?
    requires DayOf(wall) < day <= DayOf(wall) + MAX_WALK_DAYS
    requires Exact(cal.zone, day * DAY_MS + TimeOfDay(wall))
    ensures !Worked(cal, day)
  {
    var k := day - DayOf(wall);
    assert wall + k * DAY_MS == day * DAY_MS + TimeOfDay(wall);
    FailedWalk(cal, wall, LastTried(wall), k);
    ADayLater(wall, k);
  }

  /** In any ten years a zone's clock changes spoil at most this many days for one time of day. */
  const MAX_SKIPPED := 120

  /** A zone whose changes are as rare as real ones: 120 skipped readings in any ten years at most. */
  ghost predicate SkipsSeldom(zone: Zone) {
    forall wall :: SkipsSeldomAfter(zone, wall)
  }

  ghost predicate SkipsSeldomAfter(zone: Zone, wall: int) {
    exists skipped: set<int> :: SkipsOnly(zone, wall, skipped) && |skipped| <= MAX_SKIPPED
  }

  lemma AdmittedWalkSucceeds(cal: Calendar, wall: int)
    requires Admitted(cal) && SkipsSeldom(cal.zone)
    ensures Walk(cal, wall, LastTried(wall)).Found?
  {
    assert SkipsSeldomAfter(cal.zone, wall);
    var skipped: set<int> :| SkipsOnly(cal.zone, wall, skipped) && |skipped| <= MAX_SKIPPED;
    WalkSucceeds(cal, wall, skipped);
  }

  lemma {:induction false} IterateSucceeds(step: int -> Outcome, from: int, times: nat)
    requires forall at :: step(at).Found?
    ensures Iterate(step, from, times).Found?
  {
    if times > 0 {
      IterateSucceeds(step, from, times - 1);
    }
  }

  lemma AdmittedAdjustSucceeds(cal: Calendar, at: int)
    requires Admitted(cal) && SkipsSeldom(cal.zone)
    ensures Adjust(cal, at).Found?
  {
    AdmittedWalkSucceeds(cal, Midnight(cal, at));
  }

  /** For every calendar the contract admits, every duration and every start, the walk never throws. */
  lemma DeadlineNeverThrows(cal: Calendar, from: int, d: Duration, kind: Kind)
    requires Admitted(cal) && SkipsSeldom(cal.zone)
    ensures Deadline(cal, from, d, kind).Found?
  {
    AdmittedAdjustSucceeds(cal, from);
    forall at: int
      ensures DayStep(cal)(at).Found?
    {
      AdmittedWalkSucceeds(cal, WallTime(cal.zone, at));
    }
    IterateSucceeds(DayStep(cal), Adjust(cal, from).at, d.days);
    forall at: int
      ensures HourStep(cal)(at).Found?
    {
      AdmittedAdjustSucceeds(cal, at + HOUR_MS);
    }
    IterateSucceeds(HourStep(cal), AddDays(cal, Adjust(cal, from).at, d.days).at, d.hours);
  }

  // ----- A fixed offset: order ------------------------------------------------------------------

  /** Both walks, read on a clock that never changes. */
  lemma FixedWalk(cal: Calendar, offset: int, wall: int)
    requires Fixed(cal.zone, offset)
    ensures var r := Walk(cal, wall, LastTried(wall));
            r.Found? ==> && IsNextWorked(cal, DayOf(wall), DayOf(r.at + offset))
                         && TimeOfDay(r.at + offset) == TimeOfDay(wall)
  {
    FixedVisitsExactly(cal, offset, wall, LastTried(wall));
    WalkFindsNextWorked(cal, wall, LastTried(wall));
    var r := Walk(cal, wall, LastTried(wall));
    if r.Found? {
      assert cal.zone(r.at) == offset;
    }
  }

  lemma FixedReading(cal: Calendar, offset: int, at: int)
    requires Fixed(cal.zone, offset)
    ensures WallTime(cal.zone, at) == at + offset
    ensures IsWorkingDay(cal, at) <==> Worked(cal, DayOf(at + offset))
  {
    assert cal.zone(at) == offset;
  }

  /** The start adjustment moves forward, to midnight of the next worked day or not at all. */
  lemma FixedAdjust(cal: Calendar, offset: int, at: int)
    requires Fixed(cal.zone, offset)
    requires Adjust(cal, at).Found?
    ensures var r := Adjust(cal, at).at;
            && at <= r
            && Worked(cal, DayOf(r + offset))
            && if Worked(cal, DayOf(at + offset)) then r == at
               else IsNextWorked(cal, DayOf(at + offset), DayOf(r + offset)) && TimeOfDay(r + offset) == 0
  {
    FixedReading(cal, offset, at);
    if !IsWorkingDay(cal, at) {
      FixedWalk(cal, offset, Midnight(cal, at));
      ADayLater(0, DayOf(at + offset));
    }
  }

  lemma AdjustIsMonotone(cal: Calendar, offset: int, earlier: int, later: int)
    requires Fixed(cal.zone, offset) && earlier <= later
    requires Adjust(cal, earlier).Found? && Adjust(cal, later).Found?
    ensures Adjust(cal, earlier).at <= Adjust(cal, later).at
  {
    FixedAdjust(cal, offset, earlier);
    FixedAdjust(cal, offset, later);
  }

  lemma FixedNext(cal: Calendar, offset: int, at: int)
    requires Fixed(cal.zone, offset)
    requires NextAtSameTime(cal, at).Found?
    ensures var r := NextAtSameTime(cal, at).at;
            && at + DAY_MS <= r
            && IsNextWorked(cal, DayOf(at + offset), DayOf(r + offset))
            && TimeOfDay(r + offset) == TimeOfDay(at + offset)
  {
    FixedReading(cal, offset, at);
    FixedWalk(cal, offset, at + offset);
  }

  /** Two starts keep their order over a day step exactly when a worked day lies between them or the
      earlier one's time of day comes first; otherwise both land on one day. */
  lemma DayStepKeepsOrderExactlyWhen(cal: Calendar, offset: int, earlier: int, later: int)
    requires Fixed(cal.zone, offset) && earlier <= later
    requires NextAtSameTime(cal, earlier).Found? && NextAtSameTime(cal, later).Found?
    ensures NextAtSameTime(cal, earlier).at <= NextAtSameTime(cal, later).at
       <==> || (exists day :: DayOf(earlier + offset) < day <= DayOf(later + offset) && Worked(cal, day))
            || TimeOfDay(earlier + offset) <= TimeOfDay(later + offset)
  {
    FixedNext(cal, offset, earlier);
    FixedNext(cal, offset, later);
  }

  /** Saturday 23:00 and Sunday 01:00: both go to Monday, and the later one arrives first. */
  lemma DayStepReversesWeekendStarts()
    ensures var saturday, sunday := 3 * DAY_MS - HOUR_MS, 3 * DAY_MS + HOUR_MS;
            && saturday < sunday
            && NextAtSameTime(OFFICE, saturday) == Found(5 * DAY_MS - HOUR_MS)
            && NextAtSameTime(OFFICE, sunday) == Found(4 * DAY_MS + HOUR_MS)
  {
    var saturday, sunday := 3 * DAY_MS - HOUR_MS, 3 * DAY_MS + HOUR_MS;
    var last := LastTried(saturday);
    assert Walk(OFFICE, saturday, last) == Walk(OFFICE, saturday + DAY_MS, last) == Found(5 * DAY_MS - HOUR_MS);
  }

  /** Between working days the day step keeps order. */
  lemma NextIsMonotone(cal: Calendar, offset: int, earlier: int, later: int)
    requires Fixed(cal.zone, offset) && earlier <= later
    requires IsWorkingDay(cal, earlier) && IsWorkingDay(cal, later)
    requires NextAtSameTime(cal, earlier).Found? && NextAtSameTime(cal, later).Found?
    ensures NextAtSameTime(cal, earlier).at <= NextAtSameTime(cal, later).at
  {
    FixedReading(cal, offset, earlier);
    FixedReading(cal, offset, later);
    DayStepKeepsOrderExactlyWhen(cal, offset, earlier, later);
  }

  /** A step that keeps order between the instants it is taken from keeps order however often it is
      taken. */
  lemma {:induction false} IterateIsMonotone(step: int -> Outcome, P: int -> bool, earlier: int, later: int, times: nat)
    requires earlier <= later && P(earlier) && P(later)
    requires forall at :: P(at) && step(at).Found? ==> P(step(at).at)
    requires forall x, y :: P(x) && P(y) && x <= y && step(x).Found? && step(y).Found? ==>
                              step(x).at <= step(y).at
    requires Iterate(step, earlier, times).Found? && Iterate(step, later, times).Found?
    ensures Iterate(step, earlier, times).at <= Iterate(step, later, times).at
    ensures P(Iterate(step, earlier, times).at) && P(Iterate(step, later, times).at)
    decreases times
  {
    if times > 0 {
      IterateIsMonotone(step, P, earlier, later, times - 1);
    }
  }

  lemma DaysAreMonotone(cal: Calendar, offset: int, earlier: int, later: int, days: nat)
    requires Fixed(cal.zone, offset) && earlier <= later
    requires IsWorkingDay(cal, earlier) && IsWorkingDay(cal, later)
    requires AddDays(cal, earlier, days).Found? && AddDays(cal, later, days).Found?
    ensures AddDays(cal, earlier, days).at <= AddDays(cal, later, days).at
  {
    var step, P := DayStep(cal), (at: int) => IsWorkingDay(cal, at);
    forall at | P(at) && step(at).Found?
      ensures P(step(at).at)
    {
      DaysStayWorked(cal, at, 1);
      assert Iterate(step, at, 0) == Found(at);
    }
    forall x, y | P(x) && P(y) && x <= y && step(x).Found? && step(y).Found?
      ensures step(x).at <= step(y).at
    {
      NextIsMonotone(cal, offset, x, y);
    }
    IterateIsMonotone(step, P, earlier, later, days);
  }

  lemma HoursAreMonotone(cal: Calendar, offset: int, earlier: int, later: int, hours: nat)
    requires Fixed(cal.zone, offset) && earlier <= later
    requires AddHours(cal, earlier, hours).Found? && AddHours(cal, later, hours).Found?
    ensures AddHours(cal, earlier, hours).at <= AddHours(cal, later, hours).at
  {
    var step := HourStep(cal);
    forall x, y | x <= y && step(x).Found? && step(y).Found?
      ensures step(x).at <= step(y).at
    {
      HourStepIsMonotone(cal, offset, x, y);
    }
    IterateIsMonotone(step, at => true, earlier, later, hours);
  }

  lemma HourStepIsMonotone(cal: Calendar, offset: int, earlier: int, later: int)
    requires Fixed(cal.zone, offset) && earlier <= later
    requires HourStep(cal)(earlier).Found? && HourStep(cal)(later).Found?
    ensures HourStep(cal)(earlier).at <= HourStep(cal)(later).at
  {
    AdjustIsMonotone(cal, offset, earlier + HOUR_MS, later + HOUR_MS);
  }

  /** A later submission never gets an earlier deadline: through the start adjustment, the day loop
      and the hour loop, for any calendar and duration on a clock of fixed offset. */
  lemma DeadlineIsMonotone(cal: Calendar, offset: int, earlier: int, later: int, d: Duration, kind: Kind)
    requires Fixed(cal.zone, offset) && earlier <= later
    requires Deadline(cal, earlier, d, kind).Found? && Deadline(cal, later, d, kind).Found?
    ensures Deadline(cal, earlier, d, kind).at <= Deadline(cal, later, d, kind).at
  {
    if kind == WorkingDays {
      var one, other := Adjust(cal, earlier).at, Adjust(cal, later).at;
      AdjustIsMonotone(cal, offset, earlier, later);
      AdjustIsWorked(cal, earlier);
      AdjustIsWorked(cal, later);
      DaysAreMonotone(cal, offset, one, other, d.days);
      HoursAreMonotone(cal, offset, AddDays(cal, one, d.days).at, AddDays(cal, other, d.days).at, d.hours);
    }
  }

  lemma DaysTakeAtLeast(cal: Calendar, offset: int, from: int, days: nat)
    requires Fixed(cal.zone, offset)
    requires AddDays(cal, from, days).Found?
    ensures from + days * DAY_MS <= AddDays(cal, from, days).at
  {
    forall at: int | DayStep(cal)(at).Found?
      ensures at + DAY_MS <= DayStep(cal)(at).at
    {
      FixedNext(cal, offset, at);
    }
    IterateKeeps(DayStep(cal), (k, at) => from + k * DAY_MS <= at, from, days);
  }

  lemma HoursTakeAtLeast(cal: Calendar, offset: int, from: int, hours: nat)
    requires Fixed(cal.zone, offset)
    requires AddHours(cal, from, hours).Found?
    ensures from + hours * HOUR_MS <= AddHours(cal, from, hours).at
  {
    forall at: int | HourStep(cal)(at).Found?
      ensures at + HOUR_MS <= HourStep(cal)(at).at
    {
      FixedAdjust(cal, offset, at + HOUR_MS);
    }
    IterateKeeps(HourStep(cal), (k, at) => from + k * HOUR_MS <= at, from, hours);
  }

  /** A working deadline is never earlier than the contractual one for the same start and duration. */
  lemma WorkingIsNoEarlierThanCalendar(cal: Calendar, offset: int, from: int, d: Duration)
    requires Fixed(cal.zone, offset)
    requires Deadline(cal, from, d, WorkingDays).Found?
    ensures Deadline(cal, from, d, CalendarDays).at <= Deadline(cal, from, d, WorkingDays).at
  {
    var start := Adjust(cal, from).at;
    FixedAdjust(cal, offset, from);
    DaysTakeAtLeast(cal, offset, start, d.days);
    HoursTakeAtLeast(cal, offset, AddDays(cal, start, d.days).at, d.hours);
  }

  // ----- Where every day is worked --------------------------------------------------------------------

  /** Every day from one reading's to another's is worked. */
  ghost predicate AllWorked(cal: Calendar, from: int, to: int) {
    forall day :: DayOf(from) <= day <= DayOf(to) ==> Worked(cal, day)
  }

  lemma LaterDay(wall: int, later: int)
    requires wall <= later
    ensures DayOf(wall) <= DayOf(later)
  {
  }

  lemma {:induction false} PlainDays(cal: Calendar, offset: int, from: int, days: nat, to: int)
    requires Fixed(cal.zone, offset) && from + days * DAY_MS <= to && AllWorked(cal, from + offset, to + offset)
    ensures AddDays(cal, from, days) == Found(from + days * DAY_MS)
  {
    if days > 0 {
      PlainDays(cal, offset, from, days - 1, to);
      var at := from + (days - 1) * DAY_MS;
      var next := at + offset + DAY_MS;
      FixedIsExact(cal.zone, offset, next);
      LaterDay(from + offset, next);
      LaterDay(next, to + offset);
      assert cal.zone(at) == offset && cal.zone(at + DAY_MS) == offset;
      assert NextAtSameTime(cal, at) == Found(at + DAY_MS);
    }
  }

  lemma {:induction false} PlainHours(cal: Calendar, offset: int, from: int, hours: nat, to: int)
    requires Fixed(cal.zone, offset) && from + hours * HOUR_MS <= to && AllWorked(cal, from + offset, to + offset)
    ensures AddHours(cal, from, hours) == Found(from + hours * HOUR_MS)
  {
    if hours > 0 {
      PlainHours(cal, offset, from, hours - 1, to);
      var at := from + (hours - 1) * HOUR_MS + HOUR_MS;
      LaterDay(from + offset, at + offset);
      LaterDay(at + offset, to + offset);
      assert cal.zone(at) == offset;
      assert Adjust(cal, at) == Found(at);
    }
  }

  /** Where every day up to the elapsed-time deadline is worked, the two deadlines are one and the same: days of
      86 400 seconds, and hours of 3600. */
  lemma EverydayWorkIsElapsedTime(cal: Calendar, offset: int, from: int, d: Duration)
    requires Fixed(cal.zone, offset) && Deadline(cal, from, d, CalendarDays).Found?
    requires AllWorked(cal, from + offset, Deadline(cal, from, d, CalendarDays).at + offset)
    ensures Deadline(cal, from, d, WorkingDays) == Deadline(cal, from, d, CalendarDays)
    ensures forall other: Calendar :: Deadline(other, from, d, CalendarDays) == Deadline(cal, from, d, WorkingDays)
    ensures Deadline(cal, from, d, WorkingDays) == Found(from + d.days * 86_400_000 + d.hours * 3_600_000)
  {
    var day := from + d.days * DAY_MS;
    var to := day + d.hours * HOUR_MS;
    assert cal.zone(from) == offset;
    LaterDay(from + offset, day + offset);
    LaterDay(from + offset, to + offset);
    PlainDays(cal, offset, from, d.days, to);
    PlainHours(cal, offset, day, d.hours, to);
  }

  // ----- A fixed offset: hours are conserved ----------------------------------------------------

  /** The part of a reading's own day that has elapsed, if the day is worked. */
  function PartOfDay(cal: Calendar, wall: int): int {
    if Worked(cal, DayOf(wall)) then TimeOfDay(wall) else 0
  }

  /** Time on worked days between two readings. */
  function WorkedTime(cal: Calendar, from: int, to: int): int {
    CountWorked(cal, DayOf(from) - 1, DayOf(to) - 1) * DAY_MS + PartOfDay(cal, to) - PartOfDay(cal, from)
  }

  lemma WorkedTimeAdds(cal: Calendar, a: int, b: int, c: int)
    requires a <= b <= c
    ensures WorkedTime(cal, a, c) == WorkedTime(cal, a, b) + WorkedTime(cal, b, c)
  {
    CountSplits(cal, DayOf(a) - 1, DayOf(b) - 1, DayOf(c) - 1);
  }

  /** The clock's turn from one reading to another spends an hour of worked time, up to the minutes
      past the hour each reading carries; a reading on the hour is followed by one on the hour. */
  predicate SpendsAnHour(cal: Calendar, wall: int, read: int) {
    && WorkedTime(cal, wall, read) + wall % HOUR_MS == HOUR_MS + read % HOUR_MS
    && (wall % HOUR_MS == 0 ==> read % HOUR_MS == 0)
  }

  /** Crossing no midnight, or crossing into a worked day, an hour of the clock is an hour worked. */
  lemma HourWithinWork(cal: Calendar, wall: int)
    requires Worked(cal, DayOf(wall)) && Worked(cal, DayOf(wall + HOUR_MS))
    ensures SpendsAnHour(cal, wall, wall + HOUR_MS)
  {
    AnHourOnTheClock(wall);
    if DayOf(wall + HOUR_MS) != DayOf(wall) {
      CountToday(cal, DayOf(wall));
    }
  }

  /** An hour later it is as many minutes past, on the same day or just into the next. */
  lemma AnHourOnTheClock(wall: int)
    ensures (wall + HOUR_MS) % HOUR_MS == wall % HOUR_MS
    ensures DayOf(wall + HOUR_MS) == DayOf(wall) || DayOf(wall + HOUR_MS) == DayOf(wall) + 1
    ensures TimeOfDay(wall + HOUR_MS) - TimeOfDay(wall)
         == HOUR_MS - (DayOf(wall + HOUR_MS) - DayOf(wall)) * DAY_MS
  {
  }

  /** Rolled to a later midnight, the turn works only to the end of the day it started on. */
  lemma HourRolledOver(cal: Calendar, wall: int, read: int)
    requires Worked(cal, DayOf(wall)) && !Worked(cal, DayOf(wall + HOUR_MS))
    requires IsNextWorked(cal, DayOf(wall + HOUR_MS), DayOf(read)) && TimeOfDay(read) == 0
    ensures SpendsAnHour(cal, wall, read)
  {
    assert DayOf(wall + HOUR_MS) == DayOf(wall) + 1;
    assert WorkedTime(cal, wall, read) == DAY_MS - TimeOfDay(wall) by {
      CountToday(cal, DayOf(wall));
      CountGap(cal, DayOf(wall), DayOf(read) - 1);
      CountSplits(cal, DayOf(wall) - 1, DayOf(wall), DayOf(read) - 1);
    }
    LastHourOfDay(wall);
    OnTheHour(read);
  }

  lemma LastHourOfDay(wall: int)
    requires DayOf(wall + HOUR_MS) == DayOf(wall) + 1
    ensures wall % HOUR_MS == TimeOfDay(wall) + HOUR_MS - DAY_MS
  {
    assert wall == (DayOf(wall) * 24) * HOUR_MS + TimeOfDay(wall);
  }

  lemma OnTheHour(wall: int)
    requires TimeOfDay(wall) == 0
    ensures wall % HOUR_MS == 0
  {
    assert wall == (DayOf(wall) * 24) * HOUR_MS;
  }

  lemma OneHour(cal: Calendar, offset: int, at: int, after: int)
    requires Fixed(cal.zone, offset)
    requires IsWorkingDay(cal, at)
    requires Adjust(cal, at + HOUR_MS) == Found(after)
    ensures at <= after
    ensures SpendsAnHour(cal, at + offset, after + offset)
  {
    FixedReading(cal, offset, at);
    FixedAdjust(cal, offset, at + HOUR_MS);
    if Worked(cal, DayOf(at + HOUR_MS + offset)) {
      HourWithinWork(cal, at + offset);
    } else {
      HourRolledOver(cal, at + offset, after + offset);
    }
  }

  lemma CountToday(cal: Calendar, day: int)
    requires Worked(cal, day)
    ensures CountWorked(cal, day - 1, day) == 1
  {
    assert CountWorked(cal, day - 1, day - 1) == 0;
  }

  predicate SpendsHours(cal: Calendar, wall: int, read: int, hours: nat) {
    && wall <= read
    && WorkedTime(cal, wall, read) + wall % HOUR_MS == hours * HOUR_MS + read % HOUR_MS
    && (wall % HOUR_MS == 0 ==> read % HOUR_MS == 0)
  }

  lemma AnHourMore(cal: Calendar, wall: int, mid: int, read: int, hours: nat)
    requires SpendsHours(cal, wall, mid, hours) && mid <= read && SpendsAnHour(cal, mid, read)
    ensures SpendsHours(cal, wall, read, hours + 1)
  {
    WorkedTimeAdds(cal, wall, mid, read);
  }

  /** The hour loop's invariant after `hours` turns. */
  predicate Conserved(cal: Calendar, offset: int, from: int, hours: nat, at: int) {
    IsWorkingDay(cal, at) && SpendsHours(cal, from + offset, at + offset, hours)
  }

  lemma AnotherTurn(cal: Calendar, offset: int, from: int, hours: nat, at: int, after: int)
    requires Fixed(cal.zone, offset)
    requires Conserved(cal, offset, from, hours, at)
    requires HourStep(cal)(at) == Found(after)
    ensures Conserved(cal, offset, from, hours + 1, after)
  {
    AdjustIsWorked(cal, at + HOUR_MS);
    OneHour(cal, offset, at, after);
    AnHourMore(cal, from + offset, at + offset, after + offset, hours);
  }

  /** The worked time spent by the hour loop: exactly the hours asked for, less the minutes past the
      hour that the start carried and a roll-over dropped. */
  lemma HoursAreConserved(cal: Calendar, offset: int, from: int, hours: nat, to: int)
    requires Fixed(cal.zone, offset)
    requires IsWorkingDay(cal, from)
    requires AddHours(cal, from, hours) == Found(to)
    ensures SpendsHours(cal, from + offset, to + offset, hours)
  {
    var step := HourStep(cal);
    var P := (k: nat, at: int) => Conserved(cal, offset, from, k, at);
    forall k: nat, at: int {:trigger P(k, at), step(at)} | P(k, at) && step(at).Found?
      ensures P(k + 1, step(at).at)
    {
      AnotherTurn(cal, offset, from, k, at, step(at).at);
    }
    NoTimeElapsed(cal, from + offset);
    IterateKeeps(step, P, from, hours);
    assert P(hours, to);
  }

  lemma NoTimeElapsed(cal: Calendar, wall: int)
    ensures SpendsHours(cal, wall, wall, 0)
  {
    assert CountWorked(cal, DayOf(wall) - 1, DayOf(wall) - 1) == 0;
  }

  /** The reading so many hours on falls on a worked day. */
  predicate WorkedAfter(cal: Calendar, wall: int, hours: nat) {
    Worked(cal, DayOf(wall + hours * HOUR_MS))
  }

  /** Every hour's end, by the plain clock, falls on a worked day. */
  predicate EveryHourWorked(cal: Calendar, wall: int, hours: nat) {
    forall k :: 1 <= k <= hours ==> WorkedAfter(cal, wall, k)
  }

  /** Where the loop stands after `hours` turns: where the plain clock does if every hour so far was worked;
      otherwise it was rolled over to a midnight, and stands on the hour. */
  predicate RolledOrPlain(cal: Calendar, offset: int, from: int, hours: nat, at: int) {
    if EveryHourWorked(cal, from + offset, hours) then at == from + hours * HOUR_MS
    else (at + offset) % HOUR_MS == 0
  }

  lemma OneHourMoreWorked(cal: Calendar, wall: int, hours: nat)
    ensures EveryHourWorked(cal, wall, hours + 1)
       <==> EveryHourWorked(cal, wall, hours) && WorkedAfter(cal, wall, hours + 1)
  {
  }

  lemma AnotherTurnRolls(cal: Calendar, offset: int, from: int, hours: nat, at: int, after: int)
    requires Fixed(cal.zone, offset)
    requires RolledOrPlain(cal, offset, from, hours, at)
    requires HourStep(cal)(at) == Found(after)
    ensures RolledOrPlain(cal, offset, from, hours + 1, after)
  {
    TurnEnds(cal, offset, at, after);
    OneHourMoreWorked(cal, from + offset, hours);
    if EveryHourWorked(cal, from + offset, hours) {
      assert at + HOUR_MS + offset == from + offset + (hours + 1) * HOUR_MS;
    } else {
      SameRemainder(at + offset);
    }
  }

  lemma SameRemainder(wall: int)
    ensures (wall + HOUR_MS) % HOUR_MS == wall % HOUR_MS
  {
  }

  /** One turn: an hour on where that is worked, and else a midnight. */
  lemma TurnEnds(cal: Calendar, offset: int, at: int, after: int)
    requires Fixed(cal.zone, offset) && HourStep(cal)(at) == Found(after)
    ensures if Worked(cal, DayOf(at + HOUR_MS + offset)) then after == at + HOUR_MS else (after + offset) % HOUR_MS == 0
  {
    FixedAdjust(cal, offset, at + HOUR_MS);
    if !Worked(cal, DayOf(at + HOUR_MS + offset)) {
      OnTheHour(after + offset);
    }
  }

  lemma HoursRollOrNot(cal: Calendar, offset: int, from: int, hours: nat, to: int)
    requires Fixed(cal.zone, offset)
    requires AddHours(cal, from, hours) == Found(to)
    ensures RolledOrPlain(cal, offset, from, hours, to)
  {
    var step := HourStep(cal);
    var P := (k: nat, at: int) => RolledOrPlain(cal, offset, from, k, at);
    forall k: nat, at: int {:trigger P(k, at), step(at)} | P(k, at) && step(at).Found?
      ensures P(k + 1, step(at).at)
    {
      AnotherTurnRolls(cal, offset, from, k, at, step(at).at);
    }
    IterateKeeps(step, P, from, hours);
    assert P(hours, to);
  }

  lemma {:induction false} HoursKeepTheMinutes(wall: int, hours: nat)
    ensures (wall + hours * HOUR_MS) % HOUR_MS == wall % HOUR_MS
  {
    if hours > 0 {
      HoursKeepTheMinutes(wall, hours - 1);
      AnHourOnTheClock(wall + (hours - 1) * HOUR_MS);
    }
  }

  /** "An hour is an hour" holds exactly when the start is on the hour, or every hour's end by the plain clock
      falls on a worked day. */
  lemma WholeHoursAreExact(cal: Calendar, offset: int, from: int, hours: nat, to: int)
    requires Fixed(cal.zone, offset)
    requires IsWorkingDay(cal, from)
    requires AddHours(cal, from, hours) == Found(to)
    ensures WorkedTime(cal, from + offset, to + offset) == hours * HOUR_MS
       <==> (from + offset) % HOUR_MS == 0 || EveryHourWorked(cal, from + offset, hours)
  {
    HoursAreConserved(cal, offset, from, hours, to);
    HoursRollOrNot(cal, offset, from, hours, to);
    HoursKeepTheMinutes(from + offset, hours);
  }

  // ----- Where the documented rule does not hold ---------------------------------------------------

  /** A fixed clock at UTC, Saturday and Sunday off. */
  const OFFICE := Calendar([6, 7], {}, _ => 0)

  /** Friday 2 January 1970, 23:30, one hour: the loop stops at Monday's midnight after half an hour of
      work, so off the hour the conservation law above is the most there is. */
  lemma HalfAnHourIsDropped()
    ensures var from := 2 * DAY_MS - HOUR_MS / 2;
            var to := AddHours(OFFICE, from, 1);
            to == Found(4 * DAY_MS) && WorkedTime(OFFICE, from, to.at) == HOUR_MS / 2
  {
    var from := 2 * DAY_MS - HOUR_MS / 2;
    assert Iterate(HourStep(OFFICE), from, 0) == Found(from);
    var late := from + HOUR_MS;
    assert AddHours(OFFICE, from, 1) == HourStep(OFFICE)(from) == Adjust(OFFICE, late) == StartOfNext(OFFICE, late);
    assert Midnight(OFFICE, late) == 2 * DAY_MS;
    var last := LastTried(2 * DAY_MS);
    assert Walk(OFFICE, 2 * DAY_MS, last) == Walk(OFFICE, 3 * DAY_MS, last) == Found(4 * DAY_MS);
    assert CountWorked(OFFICE, 0, 3) == CountWorked(OFFICE, 0, 2) == CountWorked(OFFICE, 0, 1) == 1;
  }
}
