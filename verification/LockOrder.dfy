/** Concurrent bulk operations: each caller locks the rows of its target list in the list's order and
    releases them all when it commits. The order of the lists is what keeps them from deadlocking. */
module LockOrder {
  import opened Text
  import opened BulkTargets

  /** A caller holds the first `held` of its targets until it is done. */
  datatype Caller = Caller(targets: seq<string>, held: nat, done: bool)

  type State = seq<Caller>

  predicate Holds(c: Caller, id: string) {
    !c.done && c.held <= |c.targets| && id in c.targets[..c.held]
  }

  predicate Free(s: State, id: string) {
    forall j :: 0 <= j < |s| ==> !Holds(s[j], id)
  }

  /** A caller may take its next lock when nobody holds it, and may commit when it holds them all. */
  predicate Enabled(s: State, i: nat) {
    && i < |s| && !s[i].done
    && (s[i].held < |s[i].targets| ==> Free(s, s[i].targets[s[i].held]))
  }

  function Next(s: State, i: nat): State {
    if !Enabled(s, i) then s
    else if s[i].held < |s[i].targets| then s[i := s[i].(held := s[i].held + 1)] else s[i := s[i].(done := true)]
  }

  function Initial(lists: seq<seq<string>>): State {
    seq(|lists|, i requires 0 <= i < |lists| => Caller(lists[i], 0, false))
  }

  /** The callers of a set of requests: every list normalised. */
  function Callers(requests: seq<seq<string>>): State {
    Initial(seq(|requests|, i requires 0 <= i < |requests| => NormaliseTargets(requests[i])))
  }

  /** A schedule names who steps next. */
  function After(s: State, schedule: seq<nat>): State {
    if schedule == [] then s
    else Next(After(s, schedule[..|schedule| - 1]), schedule[|schedule| - 1])
  }

  /** Every step the schedule takes is enabled. */
  predicate IsRun(s: State, schedule: seq<nat>) {
    schedule != [] ==>
      IsRun(s, schedule[..|schedule| - 1]) &&
      Enabled(After(s, schedule[..|schedule| - 1]), schedule[|schedule| - 1])
  }

  // ----- What every step keeps --------------------------------------------------------------------

  ghost predicate WellOrdered(c: Caller) {
    Increasing(c.targets) && c.held <= |c.targets|
  }

  /** Lists in order, and no row locked twice. */
  ghost predicate Valid(s: State) {
    && (forall i :: 0 <= i < |s| ==> WellOrdered(s[i]))
    && (forall i, j, id :: 0 <= i < j < |s| ==> !(Holds(s[i], id) && Holds(s[j], id)))
  }

  lemma CallersAreValid(requests: seq<seq<string>>)
    ensures Valid(Callers(requests))
  {
    forall i | 0 <= i < |requests|
      ensures WellOrdered(Callers(requests)[i])
    {
      NormalisedInOrder(requests[i]);
    }
  }

  lemma NextIsValid(s: State, i: nat)
    requires Valid(s) && Enabled(s, i)
    ensures Valid(Next(s, i))
  {
    var s' := Next(s, i);
    forall id
      ensures Holds(s'[i], id) ==> Holds(s[i], id) || (s[i].held < |s[i].targets| && id == s[i].targets[s[i].held])
    {
      if Holds(s'[i], id) {
        assert s'[i].targets[..s[i].held + 1] == s[i].targets[..s[i].held] + [s[i].targets[s[i].held]];
      }
    }
  }

  lemma {:induction false} RunsAreValid(s: State, schedule: seq<nat>)
    requires Valid(s) && IsRun(s, schedule)
    ensures Valid(After(s, schedule))
  {
    if schedule != [] {
      RunsAreValid(s, schedule[..|schedule| - 1]);
      NextIsValid(After(s, schedule[..|schedule| - 1]), schedule[|schedule| - 1]);
    }
  }

  /** What a step does to the locks: the one the caller waited for is taken and the ones it has are kept; a commit
      releases them all; and nobody else's locks change. */
  lemma StepTakesOneLock(s: State, i: nat, j: nat, id: string)
    requires Valid(s) && Enabled(s, i) && j < |s|
    ensures Holds(Next(s, i)[j], id) <==>
              if j != i then Holds(s[j], id)
              else s[i].held < |s[i].targets| && (Holds(s[i], id) || id == s[i].targets[s[i].held])
  {
    if j == i && s[i].held < |s[i].targets| {
      assert s[i].targets[..s[i].held + 1] == s[i].targets[..s[i].held] + [s[i].targets[s[i].held]];
    }
  }

  // ----- No deadlock ------------------------------------------------------------------------------

  predicate Waiting(c: Caller) {
    !c.done && c.held < |c.targets|
  }

  function Wanted(c: Caller): string
    requires Waiting(c)
  {
    c.targets[c.held]
  }

  predicate AllDone(s: State) {
    forall i :: 0 <= i < |s| ==> s[i].done
  }

  /** Among the first n callers, one that waits for the row furthest on. */
  lemma {:induction false} FurthestWaiter(s: State, n: nat, first: nat) returns (last: nat)
    requires first < n <= |s| && Waiting(s[first])
    ensures last < n && Waiting(s[last])
    ensures forall k :: 0 <= k < n && Waiting(s[k]) ==> !Less(Wanted(s[last]), Wanted(s[k]))
  {
    if n == first + 1 && (forall k :: 0 <= k < first ==> !Waiting(s[k])) {
      LessIrreflexive(Wanted(s[first]));
      last := first;
    } else if first < n - 1 || (exists k :: 0 <= k < n - 1 && Waiting(s[k])) {
      var start := first;
      if first == n - 1 {
        start :| 0 <= start < n - 1 && Waiting(s[start]);
      }
      last := FurthestWaiter(s, n - 1, start);
      if Waiting(s[n - 1]) && Less(Wanted(s[last]), Wanted(s[n - 1])) {
        var better := n - 1;
        LessIrreflexive(Wanted(s[better]));
        forall k | 0 <= k < n && Waiting(s[k])
          ensures !Less(Wanted(s[better]), Wanted(s[k]))
        {
          if k < n - 1 && Less(Wanted(s[better]), Wanted(s[k])) {
            LessTransitive(Wanted(s[last]), Wanted(s[better]), Wanted(s[k]));
          }
        }
        last := better;
      }
    }
  }

  /** Some step is enabled whenever a caller is unfinished. */
  lemma SomebodyCanStep(s: State, unfinished: nat) returns (i: nat)
    requires Valid(s) && unfinished < |s| && !s[unfinished].done
    ensures Enabled(s, i)
  {
    if !Waiting(s[unfinished]) {
      i := unfinished;
    } else {
      var last := FurthestWaiter(s, |s|, unfinished);
      if Free(s, Wanted(s[last])) {
        i := last;
      } else {
        var holder :| 0 <= holder < |s| && Holds(s[holder], Wanted(s[last]));
        i := holder;
      }
    }
  }

  // ----- Every run ends -----------------------------------------------------------------------------

  function WorkOf(c: Caller): nat {
    (if c.held < |c.targets| then |c.targets| - c.held else 0) + if c.done then 0 else 1
  }

  /** Locks still to take and commits still to make. */
  function Work(s: State): nat {
    if s == [] then 0 else Work(s[..|s| - 1]) + WorkOf(s[|s| - 1])
  }

  lemma {:induction false} WorkChanges(s: State, i: nat, c: Caller)
    requires i < |s|
    ensures Work(s[i := c]) == Work(s) - WorkOf(s[i]) + WorkOf(c)
  {
    var front := s[..|s| - 1];
    if i == |s| - 1 {
      assert s[i := c][..|s| - 1] == front;
    } else {
      WorkChanges(front, i, c);
      assert s[i := c][..|s| - 1] == front[i := c];
    }
  }

  lemma {:induction false} RunsUseUpWork(s: State, schedule: seq<nat>)
    requires IsRun(s, schedule)
    ensures Work(After(s, schedule)) + |schedule| == Work(s)
  {
    if schedule != [] {
      var before := After(s, schedule[..|schedule| - 1]);
      var i := schedule[|schedule| - 1];
      RunsUseUpWork(s, schedule[..|schedule| - 1]);
      WorkChanges(before, i, Next(before, i)[i]);
    }
  }

  /** A caller's list never changes, and it commits only once it has locked all of it. */
  ghost predicate InStep(s: State, lists: seq<seq<string>>) {
    |s| == |lists| && forall i :: 0 <= i < |s| ==> CallerInStep(s[i], lists[i])
  }

  predicate CallerInStep(c: Caller, list: seq<string>) {
    c.targets == list && c.held <= |list| && (c.done ==> c.held == |list|)
  }

  lemma {:induction false} RunsStayInStep(lists: seq<seq<string>>, schedule: seq<nat>)
    ensures InStep(After(Initial(lists), schedule), lists)
  {
    if schedule != [] {
      RunsStayInStep(lists, schedule[..|schedule| - 1]);
    }
  }

  /** All the locks there are to take, and a commit for each caller. */
  function AllWork(lists: seq<seq<string>>): nat {
    if lists == [] then 0 else AllWork(lists[..|lists| - 1]) + |lists[|lists| - 1]| + 1
  }

  lemma {:induction false} WorkLeft(s: State, lists: seq<seq<string>>)
    requires InStep(s, lists)
    ensures Work(s) == 0 <==> AllDone(s)
    ensures s == Initial(lists) ==> Work(s) == AllWork(lists)
  {
    if s != [] {
      var last := |s| - 1;
      assert InStep(s[..last], lists[..last]);
      WorkLeft(s[..last], lists[..last]);
      assert AllDone(s) <==> AllDone(s[..last]) && s[last].done;
      assert CallerInStep(s[last], lists[last]);
      assert s == Initial(lists) ==> s[..last] == Initial(lists[..last]);
    }
  }

  /** A schedule takes each lock once and commits each caller once: it is over exactly when it has as many steps. */
  lemma ScheduleEndsExactlyWhen(lists: seq<seq<string>>, schedule: seq<nat>)
    requires IsRun(Initial(lists), schedule)
    ensures |schedule| <= AllWork(lists)
    ensures AllDone(After(Initial(lists), schedule)) <==> |schedule| == AllWork(lists)
    ensures InStep(After(Initial(lists), schedule), lists)
  {
    RunsUseUpWork(Initial(lists), schedule);
    RunsStayInStep(lists, schedule);
    RunsStayInStep(lists, []);
    WorkLeft(Initial(lists), lists);
    WorkLeft(After(Initial(lists), schedule), lists);
  }

  /** Callers who lock their normalised lists queue and never deadlock: at every point of every
      schedule either all have committed or somebody can step, and no schedule outlasts the work. */
  lemma BulkCallersNeverDeadlock(requests: seq<seq<string>>, schedule: seq<nat>)
    requires IsRun(Callers(requests), schedule)
    ensures var s := After(Callers(requests), schedule);
            AllDone(s) || exists i: nat :: Enabled(s, i)
    ensures |schedule| <= Work(Callers(requests))
  {
    CallersAreValid(requests);
    RunsAreValid(Callers(requests), schedule);
    RunsUseUpWork(Callers(requests), schedule);
    var s := After(Callers(requests), schedule);
    if !AllDone(s) {
      var unfinished :| 0 <= unfinished < |s| && !s[unfinished].done;
      var i := SomebodyCanStep(s, unfinished);
    }
  }

  /** In the order they were sent, two overlapping lists can deadlock: each caller takes its first row,
      and each then waits for the other's. */
  lemma UnsortedCallersCanDeadlock(x: string, y: string)
    requires x != y
    ensures var s := Initial([[x, y], [y, x]]);
            && IsRun(s, [0, 1])
            && !AllDone(After(s, [0, 1]))
            && forall i: nat :: !Enabled(After(s, [0, 1]), i)
  {
    var s := Initial([[x, y], [y, x]]);
    assert [0, 1][..1] == [0] && [0][..0] == [];
    assert IsRun(s, []) && After(s, []) == s;
    assert Enabled(s, 0);
    assert IsRun(s, [0]);
    var one := After(s, [0]);
    assert one == [Caller([x, y], 1, false), Caller([y, x], 0, false)];
    assert one[0].targets[..1] == [x];
    assert Enabled(one, 1);
    var two := After(s, [0, 1]);
    assert two == [Caller([x, y], 1, false), Caller([y, x], 1, false)];
    assert two[0].targets[..1] == [x] && two[1].targets[..1] == [y];
    assert Holds(two[0], x) && Holds(two[1], y);
  }
}
