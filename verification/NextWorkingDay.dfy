/** "The first working day strictly after": exactly when the day walk of
    packages/domain/src/working-calendar.ts lands there, in a zone whose clock changes. */
module NextWorkingDay {
  import opened WallClock
  import opened WorkingCalendar

  /** What the clock reads at the instant a wanted reading resolves to. */
  function ReadBack(zone: Zone, wanted: int): int {
    WallTime(zone, Resolve(zone, wanted))
  }

  /** A resolved reading misses the wanted one by less than a day. */
  ghost predicate MissesUnderADay(zone: Zone) {
    forall wanted :: -DAY_MS < ReadBack(zone, wanted) - wanted < DAY_MS
  }

  /** Every zone whose offsets lie within a day of each other is such a zone. */
  lemma CloseOffsetsMissUnderADay(zone: Zone)
    requires forall at, other :: zone(at) - zone(other) < DAY_MS
    ensures MissesUnderADay(zone)
  {
    forall wanted
      ensures -DAY_MS < ReadBack(zone, wanted) - wanted < DAY_MS
    {
      var first := wanted - zone(wanted);
      var second := wanted - zone(first);
      assert ReadBack(zone, wanted) - wanted == zone(second) - zone(first);
    }
  }

  // ----- Where a walk can stop --------------------------------------------------------------------

  /** The reading tried at the k-th step is taken for a working day. */
  predicate Taken(cal: Calendar, wall: int, k: nat) {
    IsWorkingDay(cal, Resolve(cal.zone, wall + k * DAY_MS))
  }

  /** Steps that are not taken are passed over. */
  lemma {:induction false} PassesOver(cal: Calendar, wall: int, last: int, steps: nat)
    requires forall k :: 1 <= k <= steps ==> !Taken(cal, wall, k)
    requires wall + steps * DAY_MS <= last
    ensures Walk(cal, wall, last) == Walk(cal, wall + steps * DAY_MS, last)
    decreases steps
  {
    if steps > 0 {
      PassesOver(cal, wall, last, steps - 1);
      assert !Taken(cal, wall, steps);
      assert wall + (steps - 1) * DAY_MS + DAY_MS == wall + steps * DAY_MS;
    }
  }

  /** What a walk finds is read after the reading it started from. */
  lemma {:induction false} FoundLater(cal: Calendar, wall: int, last: int)
    requires MissesUnderADay(cal.zone)
    ensures Walk(cal, wall, last).Found? ==> wall < WallTime(cal.zone, Walk(cal, wall, last).at)
    decreases last - wall
  {
    if wall < last {
      assert -DAY_MS < ReadBack(cal.zone, wall + DAY_MS) - (wall + DAY_MS);
      FoundLater(cal, wall + DAY_MS, last);
    }
  }

  /** A step that is taken ends the walk there or before. */
  lemma {:induction false} FoundByThen(cal: Calendar, wall: int, last: int, k: nat)
    requires MissesUnderADay(cal.zone)
    requires 1 <= k && Taken(cal, wall, k) && wall + k * DAY_MS <= last
    ensures Walk(cal, wall, last).Found?
    ensures WallTime(cal.zone, Walk(cal, wall, last).at) < wall + (k + 1) * DAY_MS
    decreases k
  {
    var next := wall + DAY_MS;
    assert ReadBack(cal.zone, next) - next < DAY_MS;
    if k > 1 && !Taken(cal, wall, 1) {
      assert next + (k - 1) * DAY_MS == wall + k * DAY_MS;
      assert Taken(cal, next, k - 1);
      FoundByThen(cal, next, last, k - 1);
    }
  }

  // ----- The first worked day after ----------------------------------------------------------------

  /** The walk from this reading lands on the wanted day at the same time of day. */
  predicate Lands(cal: Calendar, wall: int, day: int) {
    var r := Walk(cal, wall, LastTried(wall));
    r.Found? && WallTime(cal.zone, r.at) == day * DAY_MS + TimeOfDay(wall)
  }

  /** A reading tried before its day counts for one that is worked: the first falls back onto the worked day
      of the start, or the last falls forward onto the worked day ahead. */
  predicate Strays(cal: Calendar, wall: int, found: int) {
    var day, time := DayOf(wall), TimeOfDay(wall);
    && day + 1 < found
    && (|| (Worked(cal, day) && DayOf(ReadBack(cal.zone, (day + 1) * DAY_MS + time)) == day)
        || DayOf(ReadBack(cal.zone, (found - 1) * DAY_MS + time)) == found)
  }

  lemma OneDayOff(cal: Calendar, wall: int, k: nat)
    requires MissesUnderADay(cal.zone)
    ensures DayOf(wall) + k - 1 <= DayOf(ReadBack(cal.zone, wall + k * DAY_MS)) <= DayOf(wall) + k + 1
  {
    assert -DAY_MS < ReadBack(cal.zone, wall + k * DAY_MS) - (wall + k * DAY_MS) < DAY_MS;
    ADayLater(wall, k);
  }

  /** Before the first worked day a step is taken only by straying. */
  lemma TakenEarlyIsAStray(cal: Calendar, wall: int, found: int, k: nat)
    requires MissesUnderADay(cal.zone) && IsNextWorked(cal, DayOf(wall), found)
    requires 1 <= k < found - DayOf(wall)
    ensures Taken(cal, wall, k) ==> Strays(cal, wall, found)
  {
    OneDayOff(cal, wall, k);
    var day := DayOf(wall);
    assert wall + k * DAY_MS == (day + k) * DAY_MS + TimeOfDay(wall);
    if Taken(cal, wall, k) {
      var read := DayOf(ReadBack(cal.zone, wall + k * DAY_MS));
      assert Worked(cal, read) && (read <= day || found <= read);
    }
  }

  lemma StrayIsTakenEarly(cal: Calendar, wall: int, found: int) returns (k: nat)
    requires IsNextWorked(cal, DayOf(wall), found) && Strays(cal, wall, found)
    ensures 1 <= k < found - DayOf(wall) && Taken(cal, wall, k)
  {
    var day := DayOf(wall);
    var first, last := 1, found - 1 - day;
    assert wall + first * DAY_MS == (day + 1) * DAY_MS + TimeOfDay(wall);
    assert wall + last * DAY_MS == (found - 1) * DAY_MS + TimeOfDay(wall);
    k := if Worked(cal, day) && DayOf(ReadBack(cal.zone, (day + 1) * DAY_MS + TimeOfDay(wall))) == day
         then first else last;
  }

  /** "The same time of day on the first working day strictly after": the walk lands there exactly when that
      reading is found exactly and none tried before it strays onto a worked day. */
  lemma LandsExactlyWhen(cal: Calendar, wall: int, found: int)
    requires MissesUnderADay(cal.zone)
    requires IsNextWorked(cal, DayOf(wall), found) && found <= DayOf(wall) + MAX_WALK_DAYS
    ensures Lands(cal, wall, found)
       <==> Exact(cal.zone, found * DAY_MS + TimeOfDay(wall)) && !Strays(cal, wall, found)
  {
    if Strays(cal, wall, found) {
      StrayingMisses(cal, wall, found);
    } else {
      NotStrayingLands(cal, wall, found);
    }
  }

  lemma StrayingMisses(cal: Calendar, wall: int, found: int)
    requires MissesUnderADay(cal.zone)
    requires IsNextWorked(cal, DayOf(wall), found) && found <= DayOf(wall) + MAX_WALK_DAYS
    requires Strays(cal, wall, found)
    ensures !Lands(cal, wall, found)
  {
    var k := StrayIsTakenEarly(cal, wall, found);
    FoundByThen(cal, wall, LastTried(wall), k);
    assert (k + 1) * DAY_MS <= (found - DayOf(wall)) * DAY_MS;
    assert found * DAY_MS + TimeOfDay(wall) == wall + (found - DayOf(wall)) * DAY_MS;
  }

  lemma NotStrayingLands(cal: Calendar, wall: int, found: int)
    requires MissesUnderADay(cal.zone)
    requires IsNextWorked(cal, DayOf(wall), found) && found <= DayOf(wall) + MAX_WALK_DAYS
    requires !Strays(cal, wall, found)
    ensures Lands(cal, wall, found) <==> Exact(cal.zone, found * DAY_MS + TimeOfDay(wall))
  {
    var last, steps := LastTried(wall), found - 1 - DayOf(wall);
    forall k | 1 <= k <= steps ensures !Taken(cal, wall, k) {
      TakenEarlyIsAStray(cal, wall, found, k);
    }
    PassesOver(cal, wall, last, steps);
    ADayLater(wall, steps + 1);
    assert found * DAY_MS + TimeOfDay(wall) == wall + steps * DAY_MS + DAY_MS;
    StopsThereWhenExact(cal, wall + steps * DAY_MS, last);
  }

  /** The step onto a worked day: exact, it stops there; inexact, it stops at another reading or goes on. */
  lemma StopsThereWhenExact(cal: Calendar, wall: int, last: int)
    requires MissesUnderADay(cal.zone) && wall < last && Worked(cal, DayOf(wall + DAY_MS))
    ensures var r := Walk(cal, wall, last);
            (r.Found? && WallTime(cal.zone, r.at) == wall + DAY_MS) == Exact(cal.zone, wall + DAY_MS)
  {
    FoundLater(cal, wall + DAY_MS, last);
  }

  /** Midnight never falls forward off its day, so from a day nobody works the start of the next working day is
      found exactly when its midnight exists. */
  lemma StartOfNextIsMidnightExactlyWhen(cal: Calendar, at: int, found: int)
    requires MissesUnderADay(cal.zone) && !IsWorkingDay(cal, at)
    requires var day := DayOf(WallTime(cal.zone, at));
             IsNextWorked(cal, day, found) && found <= day + MAX_WALK_DAYS
    ensures (StartOfNext(cal, at).Found? && WallTime(cal.zone, StartOfNext(cal, at).at) == found * DAY_MS)
       <==> Exact(cal.zone, found * DAY_MS)
  {
    var midnight := Midnight(cal, at);
    ADayLater(0, DayOf(WallTime(cal.zone, at)));
    LandsExactlyWhen(cal, midnight, found);
    var before := (found - 1) * DAY_MS;
    assert ReadBack(cal.zone, before) - before < DAY_MS;
    assert !Strays(cal, midnight, found);
  }

  /** And the day step, from any start. */
  lemma NextAtSameTimeExactlyWhen(cal: Calendar, at: int, found: int)
    requires MissesUnderADay(cal.zone)
    requires var day := DayOf(WallTime(cal.zone, at));
             IsNextWorked(cal, day, found) && found <= day + MAX_WALK_DAYS
    ensures var wall := WallTime(cal.zone, at);
            (NextAtSameTime(cal, at).Found?
             && WallTime(cal.zone, NextAtSameTime(cal, at).at) == found * DAY_MS + TimeOfDay(wall))
              == (Exact(cal.zone, found * DAY_MS + TimeOfDay(wall)) && !Strays(cal, wall, found))
  {
    LandsExactlyWhen(cal, WallTime(cal.zone, at), found);
  }

  /** In any zone, of two day steps that land, the readings keep the order of the starts exactly when a worked day lies
      between the starts or the earlier one's time of day comes first. */
  lemma LandingsKeepOrderExactlyWhen(cal: Calendar, earlier: int, later: int, first: int, second: int)
    requires DayOf(earlier) <= DayOf(later)
    requires IsNextWorked(cal, DayOf(earlier), first) && IsNextWorked(cal, DayOf(later), second)
    requires Lands(cal, earlier, first) && Lands(cal, later, second)
    ensures WallTime(cal.zone, Walk(cal, earlier, LastTried(earlier)).at)
         <= WallTime(cal.zone, Walk(cal, later, LastTried(later)).at)
       <==> || (exists day :: DayOf(earlier) < day <= DayOf(later) && Worked(cal, day))
            || TimeOfDay(earlier) <= TimeOfDay(later)
  {
    if day :| DayOf(earlier) < day <= DayOf(later) && Worked(cal, day) {
      assert first <= day < second;
    } else {
      assert first == second;
    }
  }

  // ----- Where a clock change moves the day ----------------------------------------------------------

  /** Clocks three hours behind UTC that go forward an hour at the midnight opening day 11. */
  const WEST: Zone := at => if at < 11 * DAY_MS + 3 * HOUR_MS then -3 * HOUR_MS else -2 * HOUR_MS

  lemma WestMissesUnderADay()
    ensures MissesUnderADay(WEST)
  {
    CloseOffsetsMissUnderADay(WEST);
  }

  /** With only day 10 off, the next working day after day 10 is day 11; its midnight is skipped, reads
      as 23:00 the day before, and the walk passes over it to day 12. */
  lemma SkippedMidnightLosesADay()
    ensures var cal := Calendar([], {10}, WEST);
            var noon := 10 * DAY_MS + 15 * HOUR_MS;
            && MissesUnderADay(WEST) && !IsWorkingDay(cal, noon)
            && IsNextWorked(cal, DayOf(WallTime(WEST, noon)), 11)
            && StartOfNext(cal, noon).Found?
            && DayOf(WallTime(WEST, StartOfNext(cal, noon).at)) == 12
  {
    WestMissesUnderADay();
    var cal := Calendar([], {10}, WEST);
    var noon := 10 * DAY_MS + 15 * HOUR_MS;
    assert Midnight(cal, noon) == 10 * DAY_MS;
    var last := LastTried(10 * DAY_MS);
    assert !IsWorkingDay(cal, Resolve(WEST, 11 * DAY_MS));
    assert Walk(cal, 10 * DAY_MS, last) == Walk(cal, 11 * DAY_MS, last);
    var found := 12 * DAY_MS + 2 * HOUR_MS;
    assert Resolve(WEST, 12 * DAY_MS) == found;
    assert WallTime(WEST, found) == 12 * DAY_MS;
    assert Walk(cal, 11 * DAY_MS, last) == Found(found);
    assert StartOfNext(cal, noon) == Walk(cal, 10 * DAY_MS, last);
  }

  /** With every day worked, from 00:30 on day 10 the day step stays on day 10: the reading 00:30 on day 11 is
      skipped and reads as 23:30 the day before. */
  lemma SkippedReadingStaysOnTheDay()
    ensures var cal := Calendar([], {}, WEST);
            var start := 10 * DAY_MS + 3 * HOUR_MS + HOUR_MS / 2;
            && MissesUnderADay(WEST) && IsNextWorked(cal, 10, 11)
            && WallTime(WEST, start) == 10 * DAY_MS + HOUR_MS / 2
            && NextAtSameTime(cal, start).Found?
            && WallTime(WEST, NextAtSameTime(cal, start).at) == 11 * DAY_MS - HOUR_MS / 2
  {
    WestMissesUnderADay();
    var cal := Calendar([], {}, WEST);
    var start := 10 * DAY_MS + 3 * HOUR_MS + HOUR_MS / 2;
    var wall := 10 * DAY_MS + HOUR_MS / 2;
    assert WallTime(WEST, start) == wall;
    assert IsWorkingDay(cal, Resolve(WEST, wall + DAY_MS));
    assert Walk(cal, wall, LastTried(wall)) == Found(Resolve(WEST, wall + DAY_MS));
  }
}
