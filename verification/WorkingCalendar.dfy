/** The day and hour walks of packages/domain/src/working-calendar.ts, as the loops they are, each
    proved against the function that names its result. */
module WorkingCalendar {
  import opened WallClock

  const MAX_WALK_DAYS := 3_650

  /** Days are numbered from 1 January 1970; `holidays` holds day numbers in the calendar's own zone. */
  datatype Calendar = Calendar(weekendDays: seq<int>, holidays: set<int>, zone: Zone)

  datatype Duration = Duration(days: nat, hours: nat)

  datatype Kind = CalendarDays | WorkingDays

  /** An instant, or the "no working day within ten years" failure. */
  datatype Outcome = Found(at: int) | NoWorkingDay

  /** 1 January 1970 was a Thursday; `getUTCDay` counts from Sunday as 0. */
  function IsoWeekday(day: int): (w: int)
    ensures 1 <= w <= 7
  {
    var weekday := (day + 4) % 7;
    if weekday == 0 then 7 else weekday
  }

  predicate Worked(cal: Calendar, day: int) {
    IsoWeekday(day) !in cal.weekendDays && day !in cal.holidays
  }

  /** The weekdays follow one another from that Thursday on, and before it. */
  lemma WeekdaysFollow(day: int)
    ensures IsoWeekday(0) == 4
    ensures IsoWeekday(day + 1) == if IsoWeekday(day) == 7 then 1 else IsoWeekday(day) + 1
  {
  }

  /** Declaring a holiday, or a weekday off, closes exactly the days it names, whatever was closed before. */
  lemma DaysOffAddUp(cal: Calendar, day: int, holiday: int, weekday: int)
    ensures Worked(cal.(holidays := cal.holidays + {holiday}), day) <==> Worked(cal, day) && day != holiday
    ensures Worked(cal.(weekendDays := cal.weekendDays + [weekday]), day)
       <==> Worked(cal, day) && IsoWeekday(day) != weekday
    ensures Worked(Calendar([], {}, cal.zone), day)
  {
  }

  predicate IsWorkingDay(cal: Calendar, at: int) {
    Worked(cal, DayOf(WallTime(cal.zone, at)))
  }

  // ----- The walk over days ---------------------------------------------------------------------

  /** Steps a reading forward a day at a time, while it is short of `last`, until it resolves to an
      instant on a working day. */
  function Walk(cal: Calendar, wall: int, last: int): Outcome
    decreases last - wall
  {
    if last <= wall then NoWorkingDay
    else
      var next := wall + DAY_MS;
      var candidate := Resolve(cal.zone, next);
      if IsWorkingDay(cal, candidate) then Found(candidate) else Walk(cal, next, last)
  }

  /** The last reading a walk from `wall` tries. */
  function LastTried(wall: int): int {
    wall + MAX_WALK_DAYS * DAY_MS
  }

  function NextAtSameTime(cal: Calendar, at: int): Outcome {
    var wall := WallTime(cal.zone, at);
    Walk(cal, wall, LastTried(wall))
  }

  /** Midnight at the beginning of an instant's day. */
  function Midnight(cal: Calendar, at: int): int {
    DayOf(WallTime(cal.zone, at)) * DAY_MS
  }

  function StartOfNext(cal: Calendar, at: int): Outcome {
    Walk(cal, Midnight(cal, at), LastTried(Midnight(cal, at)))
  }

  method WalkDays(cal: Calendar, start: int) returns (r: Outcome)
    ensures r == Walk(cal, start, LastTried(start))
  {
    var wall := start;
    for step := 0 to MAX_WALK_DAYS
      invariant wall == start + step * DAY_MS
      invariant Walk(cal, start, LastTried(start)) == Walk(cal, wall, LastTried(start))
    {
      wall := wall + DAY_MS;
      var candidate := FromWallTime(cal.zone, wall);
      if IsWorkingDay(cal, candidate) {
        return Found(candidate);
      }
    }
    return NoWorkingDay;
  }

  method StartOfNextWorkingDay(cal: Calendar, at: int) returns (r: Outcome)
    ensures r == StartOfNext(cal, at)
  {
    var wall := WallTime(cal.zone, at);
    r := WalkDays(cal, wall - TimeOfDay(wall));
  }

  method NextWorkingDayAtSameTime(cal: Calendar, at: int) returns (r: Outcome)
    ensures r == NextAtSameTime(cal, at)
  {
    r := WalkDays(cal, WallTime(cal.zone, at));
  }

  // ----- Durations ------------------------------------------------------------------------------

  /** The instant itself when it is worked, else the start of the next working day. */
  function Adjust(cal: Calendar, at: int): Outcome {
    if IsWorkingDay(cal, at) then Found(at) else StartOfNext(cal, at)
  }

  /** A step taken a number of times, until it fails. */
  function Iterate(step: int -> Outcome, from: int, times: nat): Outcome {
    if times == 0 then Found(from)
    else
      match Iterate(step, from, times - 1)
      case Found(cursor) => step(cursor)
      case NoWorkingDay => NoWorkingDay
  }

  function DayStep(cal: Calendar): int -> Outcome {
    cursor => NextAtSameTime(cal, cursor)
  }

  function HourStep(cal: Calendar): int -> Outcome {
    cursor => Adjust(cal, cursor + HOUR_MS)
  }

  function AddDays(cal: Calendar, from: int, days: nat): Outcome {
    Iterate(DayStep(cal), from, days)
  }

  function AddHours(cal: Calendar, from: int, hours: nat): Outcome {
    Iterate(HourStep(cal), from, hours)
  }

  function DurationMs(d: Duration): nat {
    d.days * DAY_MS + d.hours * HOUR_MS
  }

  /** The days and then the hours, from a start that needs no adjustment. */
  function Counted(cal: Calendar, from: int, d: Duration): Outcome {
    match AddDays(cal, from, d.days)
    case NoWorkingDay => NoWorkingDay
    case Found(day) => AddHours(cal, day, d.hours)
  }

  function Deadline(cal: Calendar, from: int, d: Duration, kind: Kind): Outcome {
    if kind == CalendarDays then Found(from + DurationMs(d))
    else
      match Adjust(cal, from)
      case NoWorkingDay => NoWorkingDay
      case Found(start) => Counted(cal, start, d)
  }

  lemma {:induction false} FailureStays(step: int -> Outcome, from: int, times: nat, more: nat)
    requires times <= more
    requires Iterate(step, from, times).NoWorkingDay?
    ensures Iterate(step, from, more).NoWorkingDay?
  {
    if times < more {
      FailureStays(step, from, times, more - 1);
    }
  }

  /** What every step keeps, the whole loop keeps. */
  lemma {:induction false} IterateKeeps(step: int -> Outcome, P: (nat, int) -> bool, from: int, times: nat)
    requires P(0, from)
    requires forall k: nat, at: int {:trigger P(k, at), step(at)} ::
               P(k, at) && step(at).Found? ==> P(k + 1, step(at).at)
    ensures Iterate(step, from, times).Found? ==> P(times, Iterate(step, from, times).at)
  {
    if times > 0 {
      IterateKeeps(step, P, from, times - 1);
    }
  }

  method AddWorkingDays(cal: Calendar, from: int, days: nat) returns (r: Outcome)
    ensures r == AddDays(cal, from, days)
  {
    var cursor := from;
    for counted := 0 to days
      invariant AddDays(cal, from, counted) == Found(cursor)
    {
      var next := NextWorkingDayAtSameTime(cal, cursor);
      if next.NoWorkingDay? {
        FailureStays(DayStep(cal), from, counted + 1, days);
        return NoWorkingDay;
      }
      cursor := next.at;
    }
    return Found(cursor);
  }

  method AddWorkingHours(cal: Calendar, from: int, hours: nat) returns (r: Outcome)
    ensures r == AddHours(cal, from, hours)
  {
    var cursor := from;
    for counted := 0 to hours
      invariant AddHours(cal, from, counted) == Found(cursor)
    {
      assert HourStep(cal)(cursor) == Adjust(cal, cursor + HOUR_MS);
      cursor := cursor + HOUR_MS;
      if !IsWorkingDay(cal, cursor) {
        var next := StartOfNextWorkingDay(cal, cursor);
        if next.NoWorkingDay? {
          FailureStays(HourStep(cal), from, counted + 1, hours);
          return NoWorkingDay;
        }
        cursor := next.at;
      }
    }
    return Found(cursor);
  }

  method DeadlineFor(cal: Calendar, from: int, d: Duration, kind: Kind) returns (r: Outcome)
    ensures r == Deadline(cal, from, d, kind)
  {
    if kind == CalendarDays {
      return Found(from + DurationMs(d));
    }
    var cursor := Found(from);
    if !IsWorkingDay(cal, from) {
      cursor := StartOfNextWorkingDay(cal, from);
    }
    if cursor.NoWorkingDay? { return NoWorkingDay; }
    cursor := AddWorkingDays(cal, cursor.at, d.days);
    if cursor.NoWorkingDay? { return NoWorkingDay; }
    r := AddWorkingHours(cal, cursor.at, d.hours);
  }

  // ----- Every zone: where the walk stops -------------------------------------------------------

  lemma {:induction false} FoundIsWorked(cal: Calendar, wall: int, last: int)
    ensures Walk(cal, wall, last).Found? ==> IsWorkingDay(cal, Walk(cal, wall, last).at)
    decreases last - wall
  {
    if wall < last {
      FoundIsWorked(cal, wall + DAY_MS, last);
    }
  }

  lemma AdjustIsWorked(cal: Calendar, at: int)
    ensures Adjust(cal, at).Found? ==> IsWorkingDay(cal, Adjust(cal, at).at)
  {
    FoundIsWorked(cal, Midnight(cal, at), LastTried(Midnight(cal, at)));
  }

  /** In every zone, every cursor the day loop passes through lies on a working day. */
  lemma DaysStayWorked(cal: Calendar, from: int, days: nat)
    requires IsWorkingDay(cal, from)
    ensures AddDays(cal, from, days).Found? ==> IsWorkingDay(cal, AddDays(cal, from, days).at)
  {
    forall at: int | DayStep(cal)(at).Found?
      ensures IsWorkingDay(cal, DayStep(cal)(at).at)
    {
      FoundIsWorked(cal, WallTime(cal.zone, at), LastTried(WallTime(cal.zone, at)));
    }
    IterateKeeps(DayStep(cal), (k, at) => IsWorkingDay(cal, at), from, days);
  }

  /** And so does every cursor the hour loop passes through. */
  lemma HoursStayWorked(cal: Calendar, from: int, hours: nat)
    requires IsWorkingDay(cal, from)
    ensures AddHours(cal, from, hours).Found? ==> IsWorkingDay(cal, AddHours(cal, from, hours).at)
  {
    forall at: int | HourStep(cal)(at).Found?
      ensures IsWorkingDay(cal, HourStep(cal)(at).at)
    {
      AdjustIsWorked(cal, at + HOUR_MS);
    }
    IterateKeeps(HourStep(cal), (k, at) => IsWorkingDay(cal, at), from, hours);
  }

  /** In every zone, a deadline counted in working days falls on a working day: on no holiday and no weekend day, as
      the calendar's own clock reads it. */
  lemma DeadlineIsWorked(cal: Calendar, from: int, d: Duration)
    ensures Deadline(cal, from, d, WorkingDays).Found? ==>
              IsWorkingDay(cal, Deadline(cal, from, d, WorkingDays).at)
    ensures Deadline(cal, from, d, WorkingDays).Found? ==>
              var at := Deadline(cal, from, d, WorkingDays).at;
              var day := (at + cal.zone(at)) / DAY_MS;
              day !in cal.holidays && IsoWeekday(day) !in cal.weekendDays
  {
    var start := Adjust(cal, from);
    AdjustIsWorked(cal, from);
    if start.Found? {
      DaysStayWorked(cal, start.at, d.days);
      var day := AddDays(cal, start.at, d.days);
      if day.Found? {
        HoursStayWorked(cal, day.at, d.hours);
      }
    }
  }

  // ----- Every zone: which candidate the walk takes -----------------------------------------------

  /** The instant the clock's reading, moved on by whole days, stands for. */
  function Candidate(cal: Calendar, wall: int, days: int): int {
    Resolve(cal.zone, wall + days * DAY_MS)
  }

  /** The first worked candidate of the first `steps`, or none of them is worked. */
  ghost predicate IsFirstWorked(cal: Calendar, wall: int, steps: nat, r: Outcome) {
    match r
    case Found(at) =>
      exists k :: && 1 <= k <= steps && at == Candidate(cal, wall, k) && IsWorkingDay(cal, at)
                  && forall j :: 1 <= j < k ==> !IsWorkingDay(cal, Candidate(cal, wall, j))
    case NoWorkingDay =>
      forall k :: 1 <= k <= steps ==> !IsWorkingDay(cal, Candidate(cal, wall, k))
  }

  lemma {:induction false} WalkTakesTheFirst(cal: Calendar, wall: int, passed: nat, steps: nat)
    requires passed <= steps
    requires forall j :: 1 <= j <= passed ==> !IsWorkingDay(cal, Candidate(cal, wall, j))
    ensures IsFirstWorked(cal, wall, steps, Walk(cal, wall + passed * DAY_MS, wall + steps * DAY_MS))
    decreases steps - passed
  {
    if passed < steps {
      assert wall + passed * DAY_MS + DAY_MS == wall + (passed + 1) * DAY_MS;
      var candidate := Candidate(cal, wall, passed + 1);
      if !IsWorkingDay(cal, candidate) {
        WalkTakesTheFirst(cal, wall, passed + 1, steps);
      }
    }
  }

  /** In every zone and calendar, each walk takes the first worked candidate of the ten years after it, the one at
      the same reading of the clock, the other at midnight, and fails exactly when there is none. */
  lemma WalksTakeTheFirst(cal: Calendar, at: int)
    ensures IsFirstWorked(cal, at + cal.zone(at), 3650, NextAtSameTime(cal, at))
    ensures IsFirstWorked(cal, (at + cal.zone(at)) / DAY_MS * DAY_MS, 3650, StartOfNext(cal, at))
  {
    WalkOfTenYears(cal, WallTime(cal.zone, at));
    WalkOfTenYears(cal, Midnight(cal, at));
  }

  lemma WalkOfTenYears(cal: Calendar, wall: int)
    ensures IsFirstWorked(cal, wall, 3650, Walk(cal, wall, LastTried(wall)))
  {
    WalkTakesTheFirst(cal, wall, 0, MAX_WALK_DAYS);
  }

  // ----- Every zone: durations add up -------------------------------------------------------------

  lemma {:induction false} IterateAddsUp(step: int -> Outcome, from: int, one: nat, other: nat)
    ensures Iterate(step, from, one + other)
         == match Iterate(step, from, one)
            case Found(cursor) => Iterate(step, cursor, other)
            case NoWorkingDay => NoWorkingDay
  {
    if other > 0 {
      IterateAddsUp(step, from, one, other - 1);
    }
  }

  /** A deadline's deadline, or the failure of the first. */
  function Then(cal: Calendar, first: Outcome, d: Duration, kind: Kind): Outcome {
    match first
    case Found(at) => Deadline(cal, at, d, kind)
    case NoWorkingDay => NoWorkingDay
  }

  /** In every zone and calendar and of either kind, a duration is its days and then its hours, and it may be waited
      out in parts: days before days, and hours after hours. */
  lemma DeadlinesAddUp(cal: Calendar, from: int, days: nat, d: Duration, hours: nat, kind: Kind)
    ensures Deadline(cal, from, Duration(days + d.days, d.hours + hours), kind)
         == Then(cal, Then(cal, Deadline(cal, from, Duration(days, 0), kind), d, kind), Duration(0, hours), kind)
  {
    if kind == WorkingDays {
      var start := Adjust(cal, from);
      AdjustIsWorked(cal, from);
      if start.Found? {
        WorkingDaysAddUp(cal, start.at, days, d, hours);
      }
    }
  }

  lemma WorkedStart(cal: Calendar, from: int, d: Duration)
    requires IsWorkingDay(cal, from)
    ensures Deadline(cal, from, d, WorkingDays) == Counted(cal, from, d)
  {
  }

  lemma WorkingDaysAddUp(cal: Calendar, start: int, days: nat, d: Duration, hours: nat)
    requires IsWorkingDay(cal, start)
    ensures Counted(cal, start, Duration(days + d.days, d.hours + hours))
         == Then(cal, Then(cal, Counted(cal, start, Duration(days, 0)), d, WorkingDays), Duration(0, hours), WorkingDays)
  {
    var first := AddDays(cal, start, days);
    IterateAddsUp(DayStep(cal), start, days, d.days);
    if first.Found? {
      DaysStayWorked(cal, start, days);
      WorkedStart(cal, first.at, d);
      WorkingHoursAddUp(cal, first.at, d, hours);
    }
  }

  lemma WorkingHoursAddUp(cal: Calendar, start: int, d: Duration, hours: nat)
    requires IsWorkingDay(cal, start)
    ensures Counted(cal, start, Duration(d.days, d.hours + hours))
         == Then(cal, Counted(cal, start, d), Duration(0, hours), WorkingDays)
  {
    var day := AddDays(cal, start, d.days);
    if day.Found? {
      DaysStayWorked(cal, start, d.days);
      IterateAddsUp(HourStep(cal), day.at, d.hours, hours);
      HoursStayWorked(cal, day.at, d.hours);
      var last := AddHours(cal, day.at, d.hours);
      if last.Found? {
        WorkedStart(cal, last.at, Duration(0, hours));
      }
    }
  }

  // ----- Readings that exist: the walk finds the next worked day ---------------------------------

  /** Every reading the walk visits, up to the one it stops at, is found exactly. */
  predicate VisitsExactly(cal: Calendar, wall: int, last: int)
    decreases last - wall
  {
    wall < last ==>
      var next := wall + DAY_MS;
      Exact(cal.zone, next) &&
      (!IsWorkingDay(cal, Resolve(cal.zone, next)) ==> VisitsExactly(cal, next, last))
  }

  /** `found` is the first worked day after `day`. */
  ghost predicate IsNextWorked(cal: Calendar, day: int, found: int) {
    && day < found && Worked(cal, found)
    && forall between :: day < between < found ==> !Worked(cal, between)
  }

  lemma ADayLater(wall: int, k: int)
    ensures DayOf(wall + k * DAY_MS) == DayOf(wall) + k
    ensures TimeOfDay(wall + k * DAY_MS) == TimeOfDay(wall)
  {
  }

  /** The walk keeps the time of day and stops on the first worked day, or finds none in reach. */
  lemma {:induction false} WalkFindsNextWorked(cal: Calendar, wall: int, last: int)
    requires VisitsExactly(cal, wall, last)
    ensures match Walk(cal, wall, last)
            case Found(at) =>
              var read := WallTime(cal.zone, at);
              && IsNextWorked(cal, DayOf(wall), DayOf(read))
              && TimeOfDay(read) == TimeOfDay(wall)
              && at == Resolve(cal.zone, read)
            case NoWorkingDay =>
              forall day :: DayOf(wall) < day && day * DAY_MS + TimeOfDay(wall) <= last ==> !Worked(cal, day)
    decreases last - wall
  {
    if wall < last {
      var next := wall + DAY_MS;
      ADayLater(wall, 1);
      var candidate := Resolve(cal.zone, next);
      if !IsWorkingDay(cal, candidate) {
        assert !Worked(cal, DayOf(wall) + 1);
        WalkFindsNextWorked(cal, next, last);
      }
    }
  }

  lemma {:induction false} FixedVisitsExactly(cal: Calendar, offset: int, wall: int, last: int)
    requires Fixed(cal.zone, offset)
    ensures VisitsExactly(cal, wall, last)
    decreases last - wall
  {
    if wall < last {
      FixedIsExact(cal.zone, offset, wall + DAY_MS);
      FixedVisitsExactly(cal, offset, wall + DAY_MS, last);
    }
  }

  // ----- Counting working days ------------------------------------------------------------------

  /** How many worked days d satisfy after < d <= upTo. */
  function CountWorked(cal: Calendar, after: int, upTo: int): nat
    decreases upTo - after
  {
    if upTo <= after then 0
    else CountWorked(cal, after, upTo - 1) + if Worked(cal, upTo) then 1 else 0
  }

  lemma {:induction false} CountSplits(cal: Calendar, after: int, mid: int, upTo: int)
    requires after <= mid <= upTo
    ensures CountWorked(cal, after, upTo) == CountWorked(cal, after, mid) + CountWorked(cal, mid, upTo)
    decreases upTo - mid
  {
    if mid < upTo {
      CountSplits(cal, after, mid, upTo - 1);
    }
  }

  lemma {:induction false} CountGap(cal: Calendar, after: int, upTo: int)
    requires forall day :: after < day <= upTo ==> !Worked(cal, day)
    ensures CountWorked(cal, after, upTo) == 0
    decreases upTo - after
  {
    if after < upTo {
      CountGap(cal, after, upTo - 1);
    }
  }

  lemma CountToNextWorked(cal: Calendar, day: int, found: int)
    requires IsNextWorked(cal, day, found)
    ensures CountWorked(cal, day, found) == 1
  {
    CountGap(cal, day, found - 1);
  }

  /** Every reading the day loop visits, over all its days, is found exactly. */
  predicate DaysVisitExactly(cal: Calendar, from: int, days: nat) {
    days > 0 ==>
      && DaysVisitExactly(cal, from, days - 1)
      && var cursor := AddDays(cal, from, days - 1);
         (cursor.Found? ==>
            var wall := WallTime(cal.zone, cursor.at);
            VisitsExactly(cal, wall, LastTried(wall)))
  }

  /** Adding n working days keeps the clock's time of day and passes exactly n worked days,
      the last of them the day it lands on. */
  lemma {:induction false} AddDaysCountsWorkedDays(cal: Calendar, from: int, days: nat)
    requires DaysVisitExactly(cal, from, days)
    requires AddDays(cal, from, days).Found?
    ensures var wall := WallTime(cal.zone, from);
            var read := WallTime(cal.zone, AddDays(cal, from, days).at);
            && TimeOfDay(read) == TimeOfDay(wall)
            && DayOf(wall) + days <= DayOf(read)
            && CountWorked(cal, DayOf(wall), DayOf(read)) == days
            && (days > 0 ==> Worked(cal, DayOf(read)))
  {
    if days > 0 {
      AddDaysCountsWorkedDays(cal, from, days - 1);
      var cursor := AddDays(cal, from, days - 1).at;
      WalkFindsNextWorked(cal, WallTime(cal.zone, cursor), LastTried(WallTime(cal.zone, cursor)));
      var wall := DayOf(WallTime(cal.zone, from));
      var mid := DayOf(WallTime(cal.zone, cursor));
      var read := DayOf(WallTime(cal.zone, AddDays(cal, from, days).at));
      CountToNextWorked(cal, mid, read);
      CountSplits(cal, wall, mid, read);
    }
  }

  /** Those three facts leave one day: the count fixes where the deadline may fall. */
  lemma NthWorkedDayIsUnique(cal: Calendar, after: int, one: int, other: int)
    requires after < one && after < other
    requires Worked(cal, one) && Worked(cal, other)
    requires CountWorked(cal, after, one) == CountWorked(cal, after, other)
    ensures one == other
  {
    if one < other {
      CountSplits(cal, after, one, other);
      CountSplits(cal, one, other - 1, other);
    } else if other < one {
      CountSplits(cal, after, other, one);
      CountSplits(cal, other, one - 1, one);
    }
  }
}
