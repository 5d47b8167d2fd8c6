/** How far authority travels. "A chain is at most one hop" (packages/domain/src/delegation.ts) is judged by the
    depth recorded at creation; here it is the length of the live paths themselves. */
module DelegationChains {
  import opened Text
  import opened DelegationGraph
  import opened DelegationRuns

  /** No live path takes more than `n` delegations. */
  ghost predicate AtMost(arcs: set<Arc>, n: nat) {
    forall p :: IsPath(arcs, p) ==> |p| <= n + 1
  }

  /** The path takes the new arc once, at step `i`, or not at all when that is zero. */
  ghost predicate TakenAt(arcs: set<Arc>, u: string, v: string, p: seq<string>, i: nat) {
    if i == 0 then IsPath(arcs, p)
    else i < |p| && p[i - 1] == u && p[i] == v && IsPath(arcs, p[..i]) && IsPath(arcs, p[i..])
  }

  /** A path over one arc more, which leads nowhere back, takes the new arc once or not at all. */
  lemma {:induction false} TakesTheNewArcOnce(arcs: set<Arc>, u: string, v: string, p: seq<string>) returns (i: nat)
    requires IsPath(arcs + {(u, v)}, p) && !Reaches(arcs, v, u)
    ensures TakenAt(arcs, u, v, p, i)
  {
    if |p| == 1 {
      i := 0;
    } else {
      var front, z := p[..|p| - 1], p[|p| - 1];
      FrontIsAPath(arcs + {(u, v)}, p);
      i := TakesTheNewArcOnce(arcs, u, v, front);
      assert p == front + [z];
      i := OneStepMore(arcs, u, v, front, z, i);
    }
  }

  lemma FrontIsAPath(arcs: set<Arc>, p: seq<string>)
    requires IsPath(arcs, p) && |p| >= 2
    ensures IsPath(arcs, p[..|p| - 1]) && (p[..|p| - 1][|p| - 2], p[|p| - 1]) in arcs
  {
    var last := |p| - 1;
    assert (p[last - 1], p[last]) in arcs;
  }

  lemma OneStepMore(arcs: set<Arc>, u: string, v: string, p: seq<string>, z: string, i: nat) returns (k: nat)
    requires p != [] && TakenAt(arcs, u, v, p, i) && !Reaches(arcs, v, u)
    requires (p[|p| - 1], z) in arcs + {(u, v)}
    ensures TakenAt(arcs, u, v, p + [z], k)
  {
    var longer := p + [z];
    if i == 0 {
      if (p[|p| - 1], z) in arcs {
        k := 0;
        ExtendsPath(arcs, p, z);
      } else {
        k := |p|;
        assert longer[..k] == p && longer[k..] == [z];
      }
    } else {
      k := i;
      NeverLeadsBack(arcs, u, v, p[i..]);
      ExtendsPath(arcs, p[i..], z);
      assert longer[..i] == p[..i] && longer[i..] == p[i..] + [z];
    }
  }

  lemma NeverLeadsBack(arcs: set<Arc>, u: string, v: string, p: seq<string>)
    requires IsPath(arcs, p) && p[0] == v && !Reaches(arcs, v, u)
    ensures p[|p| - 1] != u
  {
  }

  lemma ExtendsPath(arcs: set<Arc>, p: seq<string>, z: string)
    requires IsPath(arcs, p) && (p[|p| - 1], z) in arcs
    ensures IsPath(arcs, p + [z])
  {
  }

  lemma JoinsPaths(arcs: set<Arc>, u: string, v: string, p: seq<string>, q: seq<string>)
    requires IsPath(arcs, p) && p[|p| - 1] == u && IsPath(arcs, q) && q[0] == v
    ensures IsPath(arcs + {(u, v)}, p + q)
  {
    var both := p + q;
    forall i | 0 <= i < |both| - 1 ensures (both[i], both[i + 1]) in arcs + {(u, v)} {
      if i < |p| - 1 {
        assert (p[i], p[i + 1]) in arcs;
      } else if i >= |p| {
        assert (q[i - |p|], q[i - |p| + 1]) in arcs;
      }
    }
  }

  /** Any path into the delegator and any out of the delegate visit at most so many people together. */
  ghost predicate ShortTogether(arcs: set<Arc>, u: string, v: string, people: nat) {
    forall p, q :: IsPath(arcs, p) && p[|p| - 1] == u && IsPath(arcs, q) && q[0] == v ==> |p| + |q| <= people
  }

  /** One delegation more keeps the bound exactly when the paths into the delegator and out of the delegate are
      short enough together. */
  lemma BoundKeptExactlyWhen(arcs: set<Arc>, u: string, v: string, n: nat)
    requires AtMost(arcs, n) && !Reaches(arcs, v, u)
    ensures AtMost(arcs + {(u, v)}, n) <==> ShortTogether(arcs, u, v, n + 1)
  {
    if AtMost(arcs + {(u, v)}, n) {
      BoundMeansShort(arcs, u, v, n);
    }
    if ShortTogether(arcs, u, v, n + 1) {
      forall p | IsPath(arcs + {(u, v)}, p) ensures |p| <= n + 1 {
        ShortMeansBound(arcs, u, v, n, p);
      }
    }
  }

  lemma BoundMeansShort(arcs: set<Arc>, u: string, v: string, n: nat)
    requires AtMost(arcs + {(u, v)}, n)
    ensures ShortTogether(arcs, u, v, n + 1)
  {
    forall p, q | IsPath(arcs, p) && p[|p| - 1] == u && IsPath(arcs, q) && q[0] == v
      ensures |p| + |q| <= n + 1
    {
      JoinsPaths(arcs, u, v, p, q);
      assert |p + q| <= n + 1;
    }
  }

  lemma ShortMeansBound(arcs: set<Arc>, u: string, v: string, n: nat, p: seq<string>)
    requires AtMost(arcs, n) && !Reaches(arcs, v, u) && ShortTogether(arcs, u, v, n + 1)
    requires IsPath(arcs + {(u, v)}, p)
    ensures |p| <= n + 1
  {
    var i := TakesTheNewArcOnce(arcs, u, v, p);
    if i > 0 {
      var into, out := p[..i], p[i..];
      assert |into| + |out| <= n + 1;
    }
  }

  // ----- Chaining off: one delegation -----------------------------------------------------------------

  ghost predicate Recorded(live: seq<Edge>) {
    forall e :: e in live ==> e.depth >= 0
  }

  lemma LastArc(arcs: set<Arc>, p: seq<string>)
    requires IsPath(arcs, p) && |p| >= 2
    ensures (p[|p| - 2], p[|p| - 1]) in arcs && (p[0], p[1]) in arcs
  {
    assert (p[|p| - 2], p[|p| - 2 + 1]) in arcs;
    assert (p[0], p[0 + 1]) in arcs;
  }

  /** With chaining off and no chain yet, a granted delegation starts none exactly when no live delegation
      leaves the delegate: the check looks at the delegator alone. */
  lemma OneHopKeptExactlyWhen(live: seq<Edge>, u: string, v: string)
    requires Recorded(live) && AtMost(Arcs(live), 1)
    requires ChainProblem(u, v, live, false).None?
    ensures AtMost(Arcs(live) + {(u, v)}, 1) <==> forall e :: e in live ==> e.delegator != v
  {
    var arcs := Arcs(live);
    BoundKeptExactlyWhen(arcs, u, v, 1);
    if forall e :: e in live ==> e.delegator != v {
      forall p, q | IsPath(arcs, p) && p[|p| - 1] == u && IsPath(arcs, q) && q[0] == v
        ensures |p| + |q| <= 2
      {
        if |p| >= 2 {
          LastArc(arcs, p);
        }
        if |q| >= 2 {
          LastArc(arcs, q);
        }
      }
    }
    if e :| e in live && e.delegator == v {
      var p, q := [u], [v, e.delegate];
      assert IsPath(arcs, p) && IsPath(arcs, q) && |p| + |q| == 3;
    }
  }

  /** Every request is made with chaining off, to somebody no live delegation leaves. */
  ghost predicate ToTheEnd(ops: seq<Op>) {
    forall i :: 0 <= i < |ops| && ops[i].Create? ==>
      !ops[i].chainingAllowed && forall e :: e in Run(ops[..i]) ==> e.delegator != ops[i].delegate
  }

  /** Over every run of such requests and of endings, nobody's authority travels further than one delegation. */
  lemma {:induction false} RunsToTheEndStayOneHop(ops: seq<Op>)
    requires ToTheEnd(ops)
    ensures AtMost(Arcs(Run(ops)), 1)
  {
    if ops == [] {
      NoPathsOverNothing();
    } else {
      var front, op := ops[..|ops| - 1], ops[|ops| - 1];
      assert forall i :: 0 <= i < |front| ==> front[i] == ops[i] && front[..i] == ops[..i];
      RunsToTheEndStayOneHop(front);
      EveryRunIsSound(front);
      var live := Run(front);
      match op
      case Create(u, v, chainingAllowed) =>
        if ChainProblem(u, v, live, false).None? {
          OneHopKeptExactlyWhen(live, u, v);
          assert Arcs(Step(live, op)) == Arcs(live) + {(u, v)};
        }
      case Remove(index) =>
        if index < |live| {
          assert forall e :: e in Step(live, op) ==> e in live;
          FewerArcsKeepTheBound(Arcs(live), Arcs(Step(live, op)), 1);
        }
    }
  }

  lemma NoPathsOverNothing()
    ensures AtMost(Arcs([]), 1)
  {
    forall p | IsPath(Arcs([]), p) ensures |p| <= 2 {
      if |p| >= 2 {
        PathTakesAnArc(Arcs([]), p);
      }
    }
  }

  lemma FewerArcsKeepTheBound(arcs: set<Arc>, fewer: set<Arc>, n: nat)
    requires AtMost(arcs, n) && fewer <= arcs
    ensures AtMost(fewer, n)
  {
    forall p | IsPath(fewer, p) ensures |p| <= n + 1 {
      assert IsPath(arcs, p);
    }
  }

  // ----- Chaining on: two delegations -----------------------------------------------------------------

  ghost predicate Into(live: seq<Edge>, person: string) {
    exists e :: e in live && e.delegate == person
  }

  ghost predicate OutOf(live: seq<Edge>, person: string) {
    exists e :: e in live && e.delegator == person
  }

  /** Two delegations in a row lead into the person. */
  ghost predicate TwoInto(live: seq<Edge>, person: string) {
    exists e :: e in live && e.delegate == person && Into(live, e.delegator)
  }

  ghost predicate TwoOutOf(live: seq<Edge>, person: string) {
    exists e :: e in live && e.delegator == person && OutOf(live, e.delegate)
  }

  lemma TailIsAPath(arcs: set<Arc>, p: seq<string>)
    requires IsPath(arcs, p) && |p| >= 2
    ensures IsPath(arcs, p[1..])
  {
    var rest := p[1..];
    forall i | 0 <= i < |rest| - 1 ensures (rest[i], rest[i + 1]) in arcs {
      var k := i + 1;
      assert (p[k], p[k + 1]) in arcs;
    }
  }

  lemma ShortInto(live: seq<Edge>, u: string, p: seq<string>)
    requires IsPath(Arcs(live), p) && p[|p| - 1] == u
    ensures |p| >= 2 ==> Into(live, u)
    ensures |p| >= 3 ==> TwoInto(live, u)
  {
    var arcs := Arcs(live);
    if |p| >= 2 {
      LastArc(arcs, p);
      var e :| e in live && (e.delegator, e.delegate) == (p[|p| - 2], u);
      if |p| >= 3 {
        var front := p[..|p| - 1];
        assert IsPath(arcs, front);
        LastArc(arcs, front);
        var f :| f in live && (f.delegator, f.delegate) == (front[|front| - 2], e.delegator);
        assert Into(live, e.delegator);
      }
    }
  }

  lemma ShortOutOf(live: seq<Edge>, v: string, q: seq<string>)
    requires IsPath(Arcs(live), q) && q[0] == v
    ensures |q| >= 2 ==> OutOf(live, v)
    ensures |q| >= 3 ==> TwoOutOf(live, v)
  {
    var arcs := Arcs(live);
    if |q| >= 2 {
      LastArc(arcs, q);
      var e :| e in live && (e.delegator, e.delegate) == (v, q[1]);
      if |q| >= 3 {
        var rest := q[1..];
        TailIsAPath(arcs, q);
        LastArc(arcs, rest);
        var f :| f in live && (f.delegator, f.delegate) == (e.delegate, rest[1]);
        assert OutOf(live, e.delegate);
      }
    }
  }

  /** With chaining on and no chain longer than a re-delegation yet, a granted delegation makes none exactly when
      no two lead into the delegator, no two lead out of the delegate, and not one of each. */
  lemma TwoHopsKeptExactlyWhen(live: seq<Edge>, u: string, v: string)
    requires AtMost(Arcs(live), 2) && ChainProblem(u, v, live, true).None?
    ensures AtMost(Arcs(live) + {(u, v)}, 2) <==>
            !TwoInto(live, u) && !TwoOutOf(live, v) && !(Into(live, u) && OutOf(live, v))
  {
    var arcs := Arcs(live);
    BoundKeptExactlyWhen(arcs, u, v, 2);
    if !TwoInto(live, u) && !TwoOutOf(live, v) && !(Into(live, u) && OutOf(live, v)) {
      forall p, q | IsPath(arcs, p) && p[|p| - 1] == u && IsPath(arcs, q) && q[0] == v
        ensures |p| + |q| <= 3
      {
        ShortInto(live, u, p);
        ShortOutOf(live, v, q);
      }
    } else {
      var p, q := TooLong(live, u, v);
    }
  }

  lemma TooLong(live: seq<Edge>, u: string, v: string) returns (p: seq<string>, q: seq<string>)
    requires TwoInto(live, u) || TwoOutOf(live, v) || (Into(live, u) && OutOf(live, v))
    ensures IsPath(Arcs(live), p) && p[|p| - 1] == u && IsPath(Arcs(live), q) && q[0] == v && |p| + |q| > 3
  {
    p, q := [u], [v];
    if TwoInto(live, u) {
      var e :| e in live && e.delegate == u && Into(live, e.delegator);
      var f :| f in live && f.delegate == e.delegator;
      p := [f.delegator, e.delegator, u];
    } else if TwoOutOf(live, v) {
      var e :| e in live && e.delegator == v && OutOf(live, e.delegate);
      var f :| f in live && f.delegator == e.delegate;
      q := [v, e.delegate, f.delegate];
    } else {
      var e :| e in live && e.delegate == u;
      var f :| f in live && f.delegator == v;
      p, q := [e.delegator, u], [v, f.delegate];
    }
  }

  // ----- No length is too long ------------------------------------------------------------------------

  /** The delegations along a line of people, asked for from its far end, chaining off. */
  function FromTheFarEnd(names: seq<string>): seq<Op> {
    if |names| < 2 then [] else FromTheFarEnd(names[1..]) + [Create(names[0], names[1], false)]
  }

  predicate AllDifferent(names: seq<string>) {
    forall i, j :: 0 <= i < j < |names| ==> names[i] != names[j]
  }

  ghost predicate Among(live: seq<Edge>, names: seq<string>) {
    forall e :: e in live ==> e.delegator in names && e.delegate in names
  }

  /** A path along the names, every delegation of it at depth zero, and nobody else. */
  ghost predicate IsLineOf(live: seq<Edge>, names: seq<string>) {
    && (forall e :: e in live ==> e.depth == 0)
    && IsPath(Arcs(live), names) && Among(live, names)
  }

  /** The recorded depth bounds no path: asked for from the far end, a line of any length is granted with
      chaining off, and every delegation along it is recorded at depth zero. */
  lemma {:induction false} DepthDoesNotBoundPaths(names: seq<string>)
    requires |names| >= 1 && AllDifferent(names)
    ensures IsLineOf(Run(FromTheFarEnd(names)), names)
  {
    if |names| >= 2 {
      var rest := names[1..];
      RestIsDifferent(names);
      DepthDoesNotBoundPaths(rest);
      var live := Run(FromTheFarEnd(rest));
      NewcomerIsGranted(live, rest, names[0], names[1]);
      RunFromTheFarEnd(names, live);
      LongerLine(Arcs(live), Arcs(live + [Edge(names[0], names[1], 0)]), names);
    }
  }

  lemma RestIsDifferent(names: seq<string>)
    requires |names| >= 2 && AllDifferent(names)
    ensures AllDifferent(names[1..]) && names[0] !in names[1..] && names[1] in names[1..]
  {
    var rest := names[1..];
    assert rest[0] == names[1];
    forall i, j | 0 <= i < j < |rest| ensures rest[i] != rest[j] {
      assert rest[i] == names[i + 1] && rest[j] == names[j + 1];
    }
  }

  lemma RunFromTheFarEnd(names: seq<string>, live: seq<Edge>)
    requires |names| >= 2 && live == Run(FromTheFarEnd(names[1..]))
    requires ChainProblem(names[0], names[1], live, false).None? && ProposedDepth(names[0], live) == 0
    ensures Run(FromTheFarEnd(names)) == live + [Edge(names[0], names[1], 0)]
  {
    var before, last := FromTheFarEnd(names[1..]), Create(names[0], names[1], false);
    var ops := before + [last];
    assert FromTheFarEnd(names) == ops;
    assert ops[..|ops| - 1] == before && ops[|ops| - 1] == last;
  }

  lemma NewcomerIsGranted(live: seq<Edge>, names: seq<string>, u: string, v: string)
    requires Among(live, names) && u !in names && v in names
    ensures ChainProblem(u, v, live, false).None? && ProposedDepth(u, live) == 0
  {
    var arcs := Arcs(live);
    var people := set n | n in names;
    forall p | IsPath(arcs, p) && p[0] == v ensures p[|p| - 1] != u {
      ClosedSetHoldsPaths(arcs, people, p);
    }
  }

  lemma LongerLine(arcs: set<Arc>, grown: set<Arc>, names: seq<string>)
    requires |names| >= 2 && IsPath(arcs, names[1..]) && arcs <= grown && (names[0], names[1]) in grown
    ensures IsPath(grown, names)
  {
    forall i | 0 <= i < |names| - 1 ensures (names[i], names[i + 1]) in grown {
      if i > 0 {
        assert (names[1..][i - 1], names[1..][i - 1 + 1]) in arcs;
      }
    }
  }
}
