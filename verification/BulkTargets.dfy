/** Bulk operations (packages/domain/src/bulk.ts): the identifiers a request names, put in one order,
    and the tally its outcomes add up to. */
module BulkTargets {
  import opened Text

  /** `[...new Set(ids)]`: first occurrences, in the order they came. */
  function Distinct(ids: seq<string>): seq<string> {
    if ids == [] then []
    else
      var front := Distinct(ids[..|ids| - 1]);
      if ids[|ids| - 1] in front then front else front + [ids[|ids| - 1]]
  }

  function Insert(id: string, sorted: seq<string>): seq<string> {
    if sorted == [] || Less(id, sorted[0]) then [id] + sorted
    else [sorted[0]] + Insert(id, sorted[1..])
  }

  function Sort(ids: seq<string>): seq<string> {
    if ids == [] then [] else Insert(ids[0], Sort(ids[1..]))
  }

  function NormaliseTargets(ids: seq<string>): seq<string> {
    Sort(Distinct(ids))
  }

  /** Each identifier comes before every later one, so none comes twice. */
  ghost predicate Increasing(s: seq<string>) {
    forall i, j :: 0 <= i < j < |s| ==> Less(s[i], s[j])
  }

  ghost predicate SameElements(s: seq<string>, t: seq<string>) {
    forall x :: x in s <==> x in t
  }

  ghost predicate NoRepeats(s: seq<string>) {
    forall i, j :: 0 <= i < j < |s| ==> s[i] != s[j]
  }

  lemma {:induction false} DistinctKeepsElements(ids: seq<string>)
    ensures SameElements(Distinct(ids), ids) && NoRepeats(Distinct(ids))
  {
    if ids != [] {
      DistinctKeepsElements(ids[..|ids| - 1]);
      assert ids == ids[..|ids| - 1] + [ids[|ids| - 1]];
    }
  }

  lemma {:induction false} InsertKeepsOrder(id: string, sorted: seq<string>)
    requires Increasing(sorted) && id !in sorted
    ensures Increasing(Insert(id, sorted))
    ensures forall x :: x in Insert(id, sorted) <==> x == id || x in sorted
  {
    if sorted == [] {
    } else if Less(id, sorted[0]) {
      forall j | 1 <= j < |sorted|
        ensures Less(id, sorted[j])
      {
        LessTransitive(id, sorted[0], sorted[j]);
      }
    } else {
      var rest := Insert(id, sorted[1..]);
      assert sorted == [sorted[0]] + sorted[1..];
      InsertKeepsOrder(id, sorted[1..]);
      LessTotal(id, sorted[0]);
      forall j | 0 <= j < |rest|
        ensures Less(sorted[0], rest[j])
      {
        assert rest[j] in rest;
      }
    }
  }

  lemma {:induction false} SortOrders(ids: seq<string>)
    requires NoRepeats(ids)
    ensures Increasing(Sort(ids)) && SameElements(Sort(ids), ids)
  {
    if ids != [] {
      assert ids == [ids[0]] + ids[1..];
      SortOrders(ids[1..]);
      InsertKeepsOrder(ids[0], Sort(ids[1..]));
    }
  }

  /** Strictly increasing, and naming exactly what the request named. */
  lemma NormalisedInOrder(ids: seq<string>)
    ensures Increasing(NormaliseTargets(ids)) && SameElements(NormaliseTargets(ids), ids)
  {
    DistinctKeepsElements(ids);
    SortOrders(Distinct(ids));
  }

  lemma LeastComesFirst(s: seq<string>, t: seq<string>)
    requires Increasing(s) && Increasing(t) && SameElements(s, t) && s != [] && t != []
    ensures !Less(t[0], s[0])
  {
    assert t[0] in s && s[0] in t;
    var i :| 0 <= i < |s| && s[i] == t[0];
    LessIrreflexive(s[0]);
    if Less(t[0], s[0]) {
      if i > 0 {
        LessTransitive(s[0], s[i], s[0]);
      }
    }
  }

  lemma BothOrNeitherEmpty(s: seq<string>, t: seq<string>)
    requires SameElements(s, t)
    ensures s == [] <==> t == []
  {
    if s != [] {
      assert s[0] in t;
    }
    if t != [] {
      assert t[0] in s;
    }
  }

  /** One set of identifiers has one strictly increasing list. */
  lemma {:induction false} OneOrderPerSet(s: seq<string>, t: seq<string>)
    requires Increasing(s) && Increasing(t) && SameElements(s, t)
    ensures s == t
  {
    BothOrNeitherEmpty(s, t);
    if s != [] {
      LeastComesFirst(s, t);
      LeastComesFirst(t, s);
      LessTotal(s[0], t[0]);
      LessIrreflexive(s[0]);
      assert s[0] == t[0];
      assert s == [s[0]] + s[1..] && t == [t[0]] + t[1..];
      assert s[0] !in s[1..] && t[0] !in t[1..];
      forall x
        ensures x in s[1..] <==> x in t[1..]
      {
        assert x in s <==> x == s[0] || x in s[1..];
        assert x in t <==> x == t[0] || x in t[1..];
      }
      OneOrderPerSet(s[1..], t[1..]);
    }
  }

  /** The list depends only on which identifiers were named: not on their order, nor on repeats. */
  lemma NormalisedDependsOnTheSet(ids: seq<string>, other: seq<string>)
    ensures NormaliseTargets(ids) == NormaliseTargets(other) <==> SameElements(ids, other)
  {
    NormalisedInOrder(ids);
    NormalisedInOrder(other);
    if SameElements(ids, other) {
      OneOrderPerSet(NormaliseTargets(ids), NormaliseTargets(other));
    }
  }

  // ----- The tally ------------------------------------------------------------------------------

  datatype Outcome = Applied | Refused | Blocked | Failed

  datatype Tally = Tally(requested: nat, applied: nat, refused: nat, blocked: nat, failed: nat)

  const EMPTY_TALLY := Tally(0, 0, 0, 0, 0)

  function CountOutcome(t: Tally, o: Outcome): Tally {
    Tally(t.requested + 1,
          t.applied + if o == Applied then 1 else 0,
          t.refused + if o == Refused then 1 else 0,
          t.blocked + if o == Blocked then 1 else 0,
          t.failed + if o == Failed then 1 else 0)
  }

  predicate TallyIsConsistent(t: Tally) {
    t.requested == t.applied + t.refused + t.blocked + t.failed
  }

  function CountAll(outcomes: seq<Outcome>): Tally {
    if outcomes == [] then EMPTY_TALLY
    else CountOutcome(CountAll(outcomes[..|outcomes| - 1]), outcomes[|outcomes| - 1])
  }

  /** The tally's count of one outcome. */
  function Counted(t: Tally, o: Outcome): nat {
    match o
    case Applied => t.applied
    case Refused => t.refused
    case Blocked => t.blocked
    case Failed => t.failed
  }

  lemma {:induction false} EachIsCounted(outcomes: seq<Outcome>, o: Outcome)
    ensures Counted(CountAll(outcomes), o) == multiset(outcomes)[o]
  {
    if outcomes != [] {
      var front, last := outcomes[..|outcomes| - 1], outcomes[|outcomes| - 1];
      EachIsCounted(front, o);
      assert outcomes == front + [last];
      assert multiset(outcomes) == multiset(front) + multiset{last};
    }
  }

  lemma {:induction false} AllAreCounted(outcomes: seq<Outcome>)
    ensures CountAll(outcomes).requested == |outcomes| && TallyIsConsistent(CountAll(outcomes))
  {
    if outcomes != [] {
      AllAreCounted(outcomes[..|outcomes| - 1]);
    }
  }

  /** No object is dropped: the tally of a run counts every outcome, each under its own name. */
  lemma NothingIsDropped(outcomes: seq<Outcome>)
    ensures var t := CountAll(outcomes);
            && t.requested == |outcomes| && TallyIsConsistent(t)
            && forall o :: Counted(t, o) == multiset(outcomes)[o]
  {
    AllAreCounted(outcomes);
    forall o ensures Counted(CountAll(outcomes), o) == multiset(outcomes)[o] {
      EachIsCounted(outcomes, o);
    }
  }
}
