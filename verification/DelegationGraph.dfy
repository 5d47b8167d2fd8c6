/** The delegation graph (packages/domain/src/delegation.ts): the breadth-first search that finds a
    cycle, the depth rule that bounds a chain, and the verdict the two give together. */
module DelegationGraph {
  import opened Text

  const MAXIMUM_DELEGATION_DEPTH := 1

  datatype Edge = Edge(delegator: string, delegate: string, depth: int)

  // ----- The reference: paths -------------------------------------------------------------------

  type Arc = (string, string)

  function Arcs(live: seq<Edge>): set<Arc> {
    set e | e in live :: (e.delegator, e.delegate)
  }

  ghost predicate IsPath(arcs: set<Arc>, p: seq<string>) {
    p != [] && forall i, j :: 0 <= i < j < |p| && j == i + 1 ==> (p[i], p[j]) in arcs
  }

  /** Authority held by `from` can arrive at `to`. */
  ghost predicate Reaches(arcs: set<Arc>, from: string, to: string) {
    exists p :: IsPath(arcs, p) && p[0] == from && p[|p| - 1] == to
  }

  ghost predicate Acyclic(arcs: set<Arc>) {
    forall p :: IsPath(arcs, p) && |p| >= 2 ==> p[0] != p[|p| - 1]
  }

  lemma ReachesSelf(arcs: set<Arc>, a: string)
    ensures Reaches(arcs, a, a)
  {
    assert IsPath(arcs, [a]);
  }

  lemma ReachesThenArc(arcs: set<Arc>, a: string, b: string, c: string)
    requires Reaches(arcs, a, b) && (b, c) in arcs
    ensures Reaches(arcs, a, c)
  {
    var p :| IsPath(arcs, p) && p[0] == a && p[|p| - 1] == b;
    assert IsPath(arcs, p + [c]);
  }

  lemma {:induction false} ReachesTransitive(arcs: set<Arc>, a: string, b: string, q: seq<string>)
    requires Reaches(arcs, a, b)
    requires IsPath(arcs, q) && q[0] == b
    ensures Reaches(arcs, a, q[|q| - 1])
  {
    if |q| > 1 {
      var front := q[..|q| - 1];
      assert IsPath(arcs, front);
      ReachesTransitive(arcs, a, b, front);
      assert (q[|q| - 2], q[|q| - 1]) in arcs;
      ReachesThenArc(arcs, a, front[|front| - 1], q[|q| - 1]);
    }
  }

  /** A set that holds its own successors is never left. */
  lemma {:induction false} ClosedSetHoldsPaths(arcs: set<Arc>, closed: set<string>, p: seq<string>)
    requires forall a, b :: a in closed && (a, b) in arcs ==> b in closed
    requires IsPath(arcs, p) && p[0] in closed
    ensures p[|p| - 1] in closed
  {
    if |p| > 1 {
      assert IsPath(arcs, p[..|p| - 1]);
      ClosedSetHoldsPaths(arcs, closed, p[..|p| - 1]);
      assert (p[|p| - 2], p[|p| - 1]) in arcs;
    }
  }

  // ----- The search -----------------------------------------------------------------------------

  function Successors(outgoing: map<string, seq<string>>, a: string): seq<string> {
    if a in outgoing then outgoing[a] else []
  }

  /** The adjacency lists hold the arcs and nothing else. */
  ghost predicate Represents(outgoing: map<string, seq<string>>, arcs: set<Arc>) {
    forall a, b :: b in Successors(outgoing, a) <==> (a, b) in arcs
  }

  method BuildOutgoing(live: seq<Edge>) returns (outgoing: map<string, seq<string>>)
    ensures Represents(outgoing, Arcs(live))
  {
    outgoing := map[];
    for i := 0 to |live|
      invariant Represents(outgoing, Arcs(live[..i]))
    {
      var edge := live[i];
      assert live[..i + 1] == live[..i] + [edge];
      assert Arcs(live[..i + 1]) == Arcs(live[..i]) + {(edge.delegator, edge.delegate)};
      if edge.delegator in outgoing {
        outgoing := outgoing[edge.delegator := outgoing[edge.delegator] + [edge.delegate]];
      } else {
        outgoing := outgoing[edge.delegator := [edge.delegate]];
      }
    }
    assert live[..|live|] == live;
  }

  /** What holds between turns of the search: everything seen is reachable, and what has left the
      queue has its successors seen. */
  ghost predicate Searching(arcs: set<Arc>, start: string, goal: string, seen: set<string>, queue: seq<string>) {
    && start in seen && goal !in seen
    && (forall a :: a in seen ==> Reaches(arcs, start, a))
    && (forall a :: a in queue ==> a in seen)
    && (forall a, b :: a in seen && a !in queue && (a, b) in arcs ==> b in seen)
  }

  /** One turn: the successors of the node taken from the queue are seen and queued, or the goal is
      among them. */
  method Visit(ghost arcs: set<Arc>, ghost start: string, goal: string, next: seq<string>,
               ghost current: string, seen: set<string>, queue: seq<string>)
    returns (found: bool, seen': set<string>, queue': seq<string>)
    requires Searching(arcs, start, goal, seen, [current] + queue)
    requires forall b :: b in next <==> (current, b) in arcs
    ensures found ==> Reaches(arcs, start, goal)
    ensures !found ==> Searching(arcs, start, goal, seen', queue')
    ensures !found ==> seen <= seen' && (seen' == seen ==> queue' == queue)
    ensures !found ==> forall a :: a in seen' && a !in seen ==> a in next
  {
    seen', queue' := seen, queue;
    assert Reaches(arcs, start, current) by { assert current in [current] + queue; }
    for i := 0 to |next|
      invariant seen <= seen' && goal !in seen'
      invariant seen' == seen ==> queue' == queue
      invariant forall a :: a in seen' ==> Reaches(arcs, start, a)
      invariant forall a :: a in seen' && a !in seen ==> a in next
      invariant forall a :: a in queue' <==> a in queue || (a in seen' && a !in seen)
      invariant forall j :: 0 <= j < i ==> next[j] in seen'
    {
      ReachesThenArc(arcs, start, current, next[i]);
      if next[i] == goal {
        return true, seen', queue';
      }
      if next[i] !in seen' {
        seen' := seen' + {next[i]};
        queue' := queue' + [next[i]];
      }
    }
    forall a, b | a in seen' && a !in queue' && (a, b) in arcs
      ensures b in seen'
    {
      if a != current {
        assert a !in [current] + queue;
      }
    }
    forall a | a in queue'
      ensures a in seen'
    {
      assert a in queue ==> a in [current] + queue;
    }
    found := false;
  }

  /** True exactly when the delegate is the delegator or a live path leads back to them. The walk ends
      on every edge list, one that already holds a cycle included. */
  method ReachesBack(delegatorId: string, delegateId: string, live: seq<Edge>) returns (r: bool)
    ensures r <==> Reaches(Arcs(live), delegateId, delegatorId)
  {
    ghost var arcs := Arcs(live);
    ReachesSelf(arcs, delegateId);
    if delegateId == delegatorId {
      return true;
    }
    var outgoing := BuildOutgoing(live);
    var seen, queue := {delegateId}, [delegateId];
    ghost var nodes := {delegateId} + set e | e in live :: e.delegate;
    while |queue| > 0
      invariant Searching(arcs, delegateId, delegatorId, seen, queue)
      invariant seen <= nodes
      decreases nodes - seen, |queue|
    {
      var current := queue[0];
      assert queue == [current] + queue[1..];
      var found, seen', queue' := Visit(arcs, delegateId, delegatorId, Successors(outgoing, current),
                                        current, seen, queue[1..]);
      if found {
        return true;
      }
      forall a | a in seen' && a !in seen
        ensures a in nodes
      {
        assert (current, a) in arcs;
      }
      assert seen' != seen ==> nodes - seen' < nodes - seen;
      seen, queue := seen', queue';
    }
    forall p | IsPath(arcs, p) && p[0] == delegateId
      ensures p[|p| - 1] != delegatorId
    {
      ClosedSetHoldsPaths(arcs, seen, p);
    }
    return false;
  }

  // ----- The depth rule -------------------------------------------------------------------------

  /** One more than the deepest live delegation into the person, or zero. */
  ghost predicate IsProposedDepth(delegator: string, live: seq<Edge>, depth: int) {
    && depth >= 0
    && (forall e :: e in live && e.delegate == delegator ==> e.depth < depth)
    && (depth == 0 || exists e :: e in live && e.delegate == delegator && e.depth == depth - 1)
  }

  function ProposedDepth(delegator: string, live: seq<Edge>): (depth: int)
    ensures IsProposedDepth(delegator, live, depth)
  {
    if live == [] then 0
    else
      var front, last := live[..|live| - 1], live[|live| - 1];
      var deepest := ProposedDepth(delegator, front);
      assert forall e :: e in live <==> e in front || e == last;
      if last.delegate == delegator && last.depth > deepest - 1 then last.depth + 1 else deepest
  }

  method ProposedDelegationDepth(delegatorId: string, live: seq<Edge>) returns (depth: int)
    ensures depth == ProposedDepth(delegatorId, live)
  {
    var deepest := -1;
    for i := 0 to |live|
      invariant deepest + 1 == ProposedDepth(delegatorId, live[..i])
    {
      assert live[..i + 1][..i] == live[..i];
      var edge := live[i];
      if edge.delegate == delegatorId && edge.depth > deepest {
        deepest := edge.depth;
      }
    }
    assert live[..|live|] == live;
    return deepest + 1;
  }

  // ----- The verdict ----------------------------------------------------------------------------

  datatype Problem = ChainingForbidden | TooDeep | Cycle

  /** The cycle is looked for first: it is refused whatever the tenant has configured. */
  ghost function ChainProblem(delegator: string, delegate: string, live: seq<Edge>, chainingAllowed: bool): Option<Problem> {
    if Reaches(Arcs(live), delegate, delegator) then Some(Cycle)
    else
      var depth := ProposedDepth(delegator, live);
      if depth > 0 && !chainingAllowed then Some(ChainingForbidden)
      else if depth > MAXIMUM_DELEGATION_DEPTH then Some(TooDeep)
      else None
  }

  method DelegationChainProblem(delegatorId: string, delegateId: string, live: seq<Edge>, chainingAllowed: bool)
    returns (problem: Option<Problem>)
    ensures problem == ChainProblem(delegatorId, delegateId, live, chainingAllowed)
  {
    var back := ReachesBack(delegatorId, delegateId, live);
    if back {
      return Some(Cycle);
    }
    var depth := ProposedDelegationDepth(delegatorId, live);
    if depth > 0 && !chainingAllowed {
      return Some(ChainingForbidden);
    }
    problem := if depth > MAXIMUM_DELEGATION_DEPTH then Some(TooDeep) else None;
  }

  /** Somebody's live delegation into the person, of at least this depth. */
  ghost predicate HoldsFrom(delegator: string, live: seq<Edge>, depth: int) {
    exists e :: e in live && e.delegate == delegator && e.depth >= depth
  }

  /** Which refusal is given: a cycle whenever a path leads back, whatever is configured; else, of somebody who holds a
      delegation, that chaining is off; else, of somebody who holds a re-delegation, that it would be the second hop. */
  lemma RefusalsAreThese(delegator: string, delegate: string, live: seq<Edge>, chainingAllowed: bool)
    ensures var back := Reaches(Arcs(live), delegate, delegator);
            var problem := ChainProblem(delegator, delegate, live, chainingAllowed);
            && (problem == Some(Cycle) <==> back)
            && (problem == Some(ChainingForbidden) <==> !back && !chainingAllowed && HoldsFrom(delegator, live, 0))
            && (problem == Some(TooDeep) <==> !back && chainingAllowed && HoldsFrom(delegator, live, 1))
            && (problem == None <==> !back && !HoldsFrom(delegator, live, if chainingAllowed then 1 else 0))
  {
    var depth := ProposedDepth(delegator, live);
    assert IsProposedDepth(delegator, live, depth);
    assert depth > 0 <==> HoldsFrom(delegator, live, 0);
    assert depth > 1 <==> HoldsFrom(delegator, live, 1);
  }

  // ----- One edge more --------------------------------------------------------------------------

  /** A path over one arc more either does without it, or is a path to its tail and a path from its
      head. */
  lemma {:induction false} PathOverNewArc(arcs: set<Arc>, u: string, v: string, p: seq<string>)
    requires IsPath(arcs + {(u, v)}, p)
    ensures Reaches(arcs, p[0], p[|p| - 1]) || (Reaches(arcs, p[0], u) && Reaches(arcs, v, p[|p| - 1]))
  {
    if |p| == 1 {
      ReachesSelf(arcs, p[0]);
    } else {
      var front := p[..|p| - 1];
      assert IsPath(arcs + {(u, v)}, front);
      PathOverNewArc(arcs, u, v, front);
      var y, z := p[|p| - 2], p[|p| - 1];
      assert (y, z) in arcs + {(u, v)};
      if (y, z) in arcs {
        if Reaches(arcs, p[0], y) {
          ReachesThenArc(arcs, p[0], y, z);
        } else {
          ReachesThenArc(arcs, v, y, z);
        }
      } else {
        ReachesSelf(arcs, v);
      }
    }
  }

  lemma ArcBeforeReaches(arcs: set<Arc>, a: string, b: string, c: string)
    requires (a, b) in arcs && Reaches(arcs, b, c)
    ensures Reaches(arcs, a, c)
    ensures exists p :: IsPath(arcs, p) && |p| >= 2 && p[0] == a && p[|p| - 1] == c
  {
    var p :| IsPath(arcs, p) && p[0] == b && p[|p| - 1] == c;
    assert IsPath(arcs, [a] + p);
  }

  /** The graph with one arc more is acyclic exactly when it was, and nothing led back from the new
      arc's head to its tail. */
  lemma NewArcClosesACycle(arcs: set<Arc>, u: string, v: string)
    ensures Acyclic(arcs + {(u, v)}) <==> Acyclic(arcs) && !Reaches(arcs, v, u)
  {
    var grown := arcs + {(u, v)};
    if Acyclic(arcs) && !Reaches(arcs, v, u) {
      forall p | IsPath(grown, p) && |p| >= 2
        ensures p[0] != p[|p| - 1]
      {
        if p[0] == p[|p| - 1] {
          CycleOverNewArc(arcs, u, v, p);
        }
      }
    }
    if Acyclic(grown) {
      FewerArcsStayAcyclic(grown, arcs);
      if Reaches(arcs, v, u) {
        WayBackIsACycle(arcs, u, v);
      }
    }
  }

  lemma WayBackIsACycle(arcs: set<Arc>, u: string, v: string)
    requires Reaches(arcs, v, u)
    ensures !Acyclic(arcs + {(u, v)})
  {
    var p :| IsPath(arcs, p) && p[0] == v && p[|p| - 1] == u;
    assert IsPath(arcs + {(u, v)}, [u] + p);
  }

  lemma CycleOverNewArc(arcs: set<Arc>, u: string, v: string, p: seq<string>)
    requires IsPath(arcs + {(u, v)}, p) && |p| >= 2 && p[0] == p[|p| - 1]
    ensures Reaches(arcs, v, u) || !Acyclic(arcs)
  {
    var x, z, rest := p[0], p[1], p[1..];
    assert (x, z) in arcs + {(u, v)};
    assert IsPath(arcs + {(u, v)}, rest) by {
      forall i | 0 <= i < |rest| - 1
        ensures (rest[i], rest[i + 1]) in arcs + {(u, v)}
      {
        assert (p[i + 1], p[i + 2]) in arcs + {(u, v)};
      }
    }
    PathOverNewArc(arcs, u, v, rest);
    if (x, z) in arcs {
      if Reaches(arcs, z, x) {
        ArcBeforeReaches(arcs, x, z, x);
      } else {
        ArcBeforeReaches(arcs, x, z, u);
        var q :| IsPath(arcs, q) && q[0] == x && q[|q| - 1] == u;
        ReachesTransitive(arcs, v, x, q);
      }
    }
  }

  lemma FewerArcsStayAcyclic(arcs: set<Arc>, fewer: set<Arc>)
    requires Acyclic(arcs) && fewer <= arcs
    ensures Acyclic(fewer)
  {
    forall p | IsPath(fewer, p)
      ensures IsPath(arcs, p)
    {
    }
  }
}
