/** Wall-clock readings in a time zone: what a clock reads at an instant, and the two-pass search
    for the instant at which it reads a wanted time (packages/domain/src/working-calendar.ts).

    Instants and readings are milliseconds. A zone is its offset from UTC at each instant, so a clock
    reads `at + zone(at)`; a reading is the number `Date.UTC` gives for the fields it shows. */
module WallClock {
  const HOUR_MS := 3_600_000
  const DAY_MS := 86_400_000

  type Zone = int -> int

  /** What a clock in the zone reads at an instant. */
  function WallTime(zone: Zone, at: int): int {
    at + zone(at)
  }

  /** The calendar day a reading falls on, counted from 1 January 1970. */
  function DayOf(wall: int): int {
    wall / DAY_MS
  }

  function TimeOfDay(wall: int): (t: int)
    ensures 0 <= t < DAY_MS
    ensures wall == DayOf(wall) * DAY_MS + t
  {
    wall % DAY_MS
  }

  /** The instant the two offset measurements settle on. */
  function Resolve(zone: Zone, wanted: int): int {
    wanted - zone(wanted - zone(wanted))
  }

  method FromWallTime(zone: Zone, wanted: int) returns (instant: int)
    ensures instant == Resolve(zone, wanted)
  {
    instant := wanted - zone(wanted);
    instant := wanted - zone(instant);
  }

  /** Some instant reads the wanted time. */
  ghost predicate Exists(zone: Zone, wanted: int) {
    exists at :: WallTime(zone, at) == wanted
  }

  /** The instant found reads exactly the wanted time. */
  predicate Exact(zone: Zone, wanted: int) {
    WallTime(zone, Resolve(zone, wanted)) == wanted
  }

  /** Offsets never exceed `bound`, and within `bound` of the wanted reading the zone changes its
      offset at most once: from `before` to `after`, at `change`. */
  ghost predicate ChangesOnceNear(zone: Zone, wanted: int, bound: int, change: int, before: int, after: int) {
    && (forall at :: -bound <= zone(at) <= bound)
    && -bound <= before <= bound && -bound <= after <= bound
    && (forall at :: wanted - bound <= at <= wanted + bound ==>
                       zone(at) == if at < change then before else after)
  }

  /** The two passes invert the clock: whatever the signs of the offsets, the search lands on the
      wanted reading exactly when any instant has it. */
  lemma ResolveInvertsTheClock(zone: Zone, wanted: int, bound: int, change: int, before: int, after: int)
    requires ChangesOnceNear(zone, wanted, bound, change, before, after)
    ensures Exists(zone, wanted) <==> Exact(zone, wanted)
  {
    if Exists(zone, wanted) {
      var at :| WallTime(zone, at) == wanted;
      assert at == wanted - zone(at) && -bound <= zone(at) <= bound;
      var first := wanted - zone(wanted);
      assert -bound <= zone(wanted) <= bound;
      assert zone(first) == if first < change then before else after;
      var second := wanted - zone(first);
      assert zone(second) == if second < change then before else after;
    }
  }

  /** A reading the clock shows twice (the offset drops) resolves to the earlier instant exactly when
      the reading, taken as an instant, precedes the change. East of UTC it is the later one. */
  lemma RepeatedReading(zone: Zone, wanted: int, bound: int, change: int, before: int, after: int)
    requires ChangesOnceNear(zone, wanted, bound, change, before, after)
    requires change + after <= wanted < change + before
    ensures WallTime(zone, wanted - before) == wanted == WallTime(zone, wanted - after)
    ensures wanted - before < change <= wanted - after
    ensures Resolve(zone, wanted) == wanted - before <==> wanted < change
    ensures Resolve(zone, wanted) == wanted - after <==> change <= wanted
  {
    assert zone(wanted - before) == before && zone(wanted - after) == after;
    assert zone(wanted) == if wanted < change then before else after;
  }

  /** A reading the clock skips (the offset rises) has no instant. It resolves to the instant of the
      change exactly when it is the first skipped reading and the change is not read before UTC; otherwise
      the result reads later than wanted by the size of the jump, or earlier by it. */
  lemma SkippedReading(zone: Zone, wanted: int, bound: int, change: int, before: int, after: int)
    requires ChangesOnceNear(zone, wanted, bound, change, before, after)
    requires change + before <= wanted < change + after
    ensures !Exists(zone, wanted)
    ensures WallTime(zone, Resolve(zone, wanted)) - wanted
         == if wanted < change then before - after else after - before
    ensures Resolve(zone, wanted) == change <==> wanted == change + before && change <= wanted
  {
    assert zone(wanted) == if wanted < change then before else after;
    assert zone(wanted - before) == after && zone(wanted - after) == before;
    ResolveInvertsTheClock(zone, wanted, bound, change, before, after);
  }

  /** A clock that never changes is inverted everywhere. */
  ghost predicate Fixed(zone: Zone, offset: int) {
    forall at :: zone(at) == offset
  }

  lemma FixedIsExact(zone: Zone, offset: int, wanted: int)
    requires Fixed(zone, offset)
    ensures Exact(zone, wanted)
    ensures Resolve(zone, wanted) == wanted - offset
  {
    assert zone(wanted) == offset;
    assert zone(wanted - offset) == offset;
  }
}
