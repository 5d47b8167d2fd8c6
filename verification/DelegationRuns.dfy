/** Delegations created, approved, revoked and expiring over time. The rows and the reads are those of
    apps/api/src/modules/identity: a request is checked against the delegations in force at that
    instant, and only those. */
module DelegationRuns {
  import opened Text
  import opened DelegationGraph

  // ----- Runs over the live graph -----------------------------------------------------------------

  datatype Op =
    | Create(delegator: string, delegate: string, chainingAllowed: bool)
    | Remove(index: nat)

  /** Refused requests change nothing; an accepted one is stored with the derived depth. */
  ghost function Step(live: seq<Edge>, op: Op): seq<Edge> {
    match op
    case Create(delegator, delegate, chainingAllowed) =>
      if ChainProblem(delegator, delegate, live, chainingAllowed).None?
      then live + [Edge(delegator, delegate, ProposedDepth(delegator, live))]
      else live
    case Remove(index) =>
      if index < |live| then live[..index] + live[index + 1..] else live
  }

  ghost function Run(ops: seq<Op>): seq<Edge> {
    if ops == [] then [] else Step(Run(ops[..|ops| - 1]), ops[|ops| - 1])
  }

  ghost predicate Sound(live: seq<Edge>) {
    Acyclic(Arcs(live)) && forall e :: e in live ==> e.depth == 0 || e.depth == 1
  }

  lemma StepKeepsSound(live: seq<Edge>, op: Op)
    requires Sound(live)
    ensures Sound(Step(live, op))
  {
    match op
    case Create(delegator, delegate, chainingAllowed) =>
      if ChainProblem(delegator, delegate, live, chainingAllowed).None? {
        NewArcClosesACycle(Arcs(live), delegator, delegate);
        assert Arcs(Step(live, op)) == Arcs(live) + {(delegator, delegate)};
      }
    case Remove(index) =>
      if index < |live| {
        assert forall e :: e in Step(live, op) ==> e in live;
        FewerArcsStayAcyclic(Arcs(live), Arcs(Step(live, op)));
      }
  }

  /** What a step does to the delegations in force: an accepted request adds its own, one past the deepest into its
      delegator, a refused one nothing; an ending takes away the one it names and no other. */
  lemma StepDoesWhatItSays(live: seq<Edge>, op: Op)
    ensures op.Create? && ChainProblem(op.delegator, op.delegate, live, op.chainingAllowed).None? ==>
              exists depth :: IsProposedDepth(op.delegator, live, depth)
                           && multiset(Step(live, op)) == multiset(live) + multiset{Edge(op.delegator, op.delegate, depth)}
    ensures op.Create? && ChainProblem(op.delegator, op.delegate, live, op.chainingAllowed).Some? ==> Step(live, op) == live
    ensures op.Remove? && op.index < |live| ==> multiset(Step(live, op)) + multiset{live[op.index]} == multiset(live)
    ensures op.Remove? && op.index >= |live| ==> Step(live, op) == live
  {
    match op
    case Create(delegator, delegate, _) =>
      assert IsProposedDepth(delegator, live, ProposedDepth(delegator, live));
    case Remove(index) =>
      if index < |live| {
        assert live == live[..index] + [live[index]] + live[index + 1..];
      }
  }

  lemma PathTakesAnArc(arcs: set<Arc>, p: seq<string>)
    requires IsPath(arcs, p) && |p| >= 2
    ensures arcs != {}
  {
    assert (p[0], p[0 + 1]) in arcs;
  }

  lemma NoArcsNoCycle()
    ensures Acyclic(Arcs([]))
  {
    forall p | IsPath(Arcs([]), p)
      ensures |p| < 2
    {
      if |p| >= 2 {
        PathTakesAnArc(Arcs([]), p);
      }
    }
  }

  /** Over every run of requests and endings, with the chaining setting changing freely, the live graph
      has no cycle and every recorded depth is zero or one. */
  lemma {:induction false} EveryRunIsSound(ops: seq<Op>)
    ensures Sound(Run(ops))
  {
    if ops == [] {
      NoArcsNoCycle();
    } else {
      EveryRunIsSound(ops[..|ops| - 1]);
      StepKeepsSound(Run(ops[..|ops| - 1]), ops[|ops| - 1]);
    }
  }

  /** With chaining never allowed, nobody re-delegates: every recorded depth is zero. */
  lemma {:induction false} WithoutChainingDepthIsZero(ops: seq<Op>)
    requires forall i :: 0 <= i < |ops| ==> ops[i].Create? ==> !ops[i].chainingAllowed
    ensures forall e :: e in Run(ops) ==> e.depth == 0
  {
    if ops != [] {
      var front := ops[..|ops| - 1];
      assert forall i :: 0 <= i < |front| ==> front[i] == ops[i];
      WithoutChainingDepthIsZero(front);
      assert ops[|ops| - 1].Create? ==> !ops[|ops| - 1].chainingAllowed;
    }
  }

  lemma NoPathOverNothing(from: string, to: string)
    requires from != to
    ensures !Reaches(Arcs([]), from, to)
  {
    forall p | IsPath(Arcs([]), p) && p[0] == from
      ensures p[|p| - 1] == from
    {
      ClosedSetHoldsPaths(Arcs([]), {from}, p);
    }
  }

  // ----- Periods and approval ---------------------------------------------------------------------

  datatype Status = PendingApproval | Active | Ended

  datatype Delegation = Delegation(edge: Edge, startsAt: int, endsAt: int, status: Status)

  /** Half-open, `startsAt` inclusive and `endsAt` exclusive. */
  predicate InForce(d: Delegation, at: int) {
    d.status == Active && d.startsAt <= at < d.endsAt
  }

  /** `liveEdges`: every delegation in force at an instant, as edges. */
  function Live(log: seq<Delegation>, at: int): seq<Edge> {
    if log == [] then []
    else
      var front, last := log[..|log| - 1], log[|log| - 1];
      Live(front, at) + if InForce(last, at) then [last.edge] else []
  }

  lemma {:induction false} LiveEdges(log: seq<Delegation>, at: int, e: Edge)
    ensures e in Live(log, at) <==> exists i :: 0 <= i < |log| && InForce(log[i], at) && log[i].edge == e
  {
    if log != [] {
      var front, last := log[..|log| - 1], log[|log| - 1];
      LiveEdges(front, at, e);
      if e in Live(front, at) {
        var i :| 0 <= i < |front| && InForce(front[i], at) && front[i].edge == e;
        assert log[i] == front[i];
      }
      if exists i :: 0 <= i < |log| && InForce(log[i], at) && log[i].edge == e {
        var i :| 0 <= i < |log| && InForce(log[i], at) && log[i].edge == e;
        assert i < |front| ==> front[i] == log[i];
      }
    }
  }

  datatype Request = Request(
    delegator: string, delegate: string, startsAt: int, endsAt: int,
    chainingAllowed: bool, requireApproval: bool)

  /** A request is refused for its period or for its chain, judged on the delegations in force now. The
      tenant's maximum length is one more ground of refusal and is not modelled. */
  ghost predicate Granted(log: seq<Delegation>, r: Request, now: int) {
    && r.startsAt < r.endsAt && now < r.endsAt
    && ChainProblem(r.delegator, r.delegate, Live(log, now), r.chainingAllowed).None?
  }

  ghost function Stored(log: seq<Delegation>, r: Request, now: int): Delegation {
    Delegation(Edge(r.delegator, r.delegate, ProposedDepth(r.delegator, Live(log, now))),
               r.startsAt, r.endsAt, if r.requireApproval then PendingApproval else Active)
  }

  datatype Event = Ask(r: Request) | Approve(index: nat) | Revoke(index: nat)

  /** Approving re-reads the period and not the chain. */
  ghost function Apply(log: seq<Delegation>, e: Event, now: int): seq<Delegation> {
    match e
    case Ask(r) => if Granted(log, r, now) then log + [Stored(log, r, now)] else log
    case Approve(index) =>
      if index < |log| && log[index].status == PendingApproval && now < log[index].endsAt
      then log[index := log[index].(status := Active)] else log
    case Revoke(index) =>
      if index < |log| then log[index := log[index].(status := Ended)] else log
  }

  predicate Covers(r: Request, at: int) {
    r.startsAt <= at < r.endsAt
  }

  /** A request is granted exactly when its period still has an instant to come and its chain is no problem. */
  lemma GrantedTakesForce(log: seq<Delegation>, r: Request, now: int)
    ensures Granted(log, r, now)
       <==> && (exists at :: now <= at && Covers(r, at))
            && ChainProblem(r.delegator, r.delegate, Live(log, now), r.chainingAllowed).None?
  {
    if Granted(log, r, now) {
      var at := if now < r.startsAt then r.startsAt else now;
      assert now <= at && Covers(r, at);
    }
  }

  /** What the request, approval or revocation itself puts in force at an instant. */
  ghost predicate BringsIntoForce(log: seq<Delegation>, e: Event, now: int, at: int, edge: Edge) {
    match e
    case Ask(r) =>
      && Granted(log, r, now) && !r.requireApproval && Covers(r, at)
      && edge.delegator == r.delegator && edge.delegate == r.delegate
      && IsProposedDepth(r.delegator, Live(log, now), edge.depth)
    case Approve(index) =>
      && index < |log| && log[index].status == PendingApproval && now < log[index].endsAt
      && log[index].startsAt <= at < log[index].endsAt && edge == log[index].edge
    case Revoke(_) => false
  }

  /** The row is not the one the event revokes. */
  predicate IsKept(e: Event, i: nat) {
    !(e.Revoke? && e.index == i)
  }

  /** What an event does: an instant later has in force exactly what it had, without the delegation revoked, and what
      the event brings into force. */
  lemma EventChangesWhatIsInForce(log: seq<Delegation>, e: Event, now: int, at: int, edge: Edge)
    ensures edge in Live(Apply(log, e, now), at)
       <==> || (exists i :: 0 <= i < |log| && IsKept(e, i) && InForce(log[i], at) && log[i].edge == edge)
            || BringsIntoForce(log, e, now, at, edge)
  {
    var after := Apply(log, e, now);
    LiveEdges(after, at, edge);
    match e
    case Ask(r) =>
      if Granted(log, r, now) {
        var d := Stored(log, r, now);
        DepthIsUnique(r.delegator, Live(log, now), edge.depth);
        assert after[|log|] == d && forall i :: 0 <= i < |log| ==> after[i] == log[i];
      }
    case Approve(index) =>
      assert forall i :: 0 <= i < |log| && i != index ==> after[i] == log[i];
      if index < |log| {
        assert after[index].edge == log[index].edge;
      }
    case Revoke(index) =>
      assert forall i :: 0 <= i < |log| && i != index ==> after[i] == log[i];
      assert index < |log| ==> !InForce(after[index], at);
  }

  lemma DepthIsUnique(delegator: string, live: seq<Edge>, depth: int)
    ensures IsProposedDepth(delegator, live, depth) <==> depth == ProposedDepth(delegator, live)
  {
  }

  /** A revoked delegation is never in force again, whatever follows. */
  lemma {:induction false} RevokedStaysEnded(log: seq<Delegation>, events: seq<(Event, int)>, index: nat)
    requires index < |log| && log[index].status == Ended
    ensures index < |Onward(log, events)| && Onward(log, events)[index] == log[index]
  {
    if events != [] {
      RevokedStaysEnded(log, events[..|events| - 1], index);
    }
  }

  /** The log after more events. */
  ghost function Onward(log: seq<Delegation>, events: seq<(Event, int)>): seq<Delegation> {
    if events == [] then log
    else Apply(Onward(log, events[..|events| - 1]), events[|events| - 1].0, events[|events| - 1].1)
  }

  /** Nobody's authority comes back to them, now or at any later instant. */
  ghost predicate NeverACycle(log: seq<Delegation>, now: int) {
    forall at :: now <= at ==> Acyclic(Arcs(Live(log, at)))
  }

  lemma LiveGrows(log: seq<Delegation>, d: Delegation, at: int)
    ensures Arcs(Live(log + [d], at))
         == Arcs(Live(log, at)) + if InForce(d, at) then {(d.edge.delegator, d.edge.delegate)} else {}
  {
    assert (log + [d])[..|log|] == log;
    assert forall e :: e in Live(log + [d], at) <==> e in Live(log, at) || (InForce(d, at) && e == d.edge);
  }

  /** At every instant of the delegation's period from now on, nothing live leads back from its delegate. */
  ghost predicate NothingLeadsBack(log: seq<Delegation>, d: Delegation, now: int) {
    forall at :: now <= at && d.startsAt <= at < d.endsAt ==>
                   !Reaches(Arcs(Live(log, at)), d.edge.delegate, d.edge.delegator)
  }

  /** What storing a delegation costs: the graph stays free of cycles at every later instant exactly when, at
      every later instant it is in force, nothing then live leads back. A request is checked against the
      present instant alone. */
  lemma GrantIsSafeExactlyWhen(log: seq<Delegation>, d: Delegation, now: int)
    requires NeverACycle(log, now)
    ensures NeverACycle(log + [d], now) <==> (d.status == Active ==> NothingLeadsBack(log, d, now))
  {
    if NeverACycle(log + [d], now) && d.status == Active {
      forall at | now <= at && d.startsAt <= at < d.endsAt
        ensures !Reaches(Arcs(Live(log, at)), d.edge.delegate, d.edge.delegator)
      {
        StoredAt(log, d, at);
      }
    }
    if d.status == Active ==> NothingLeadsBack(log, d, now) {
      forall at | now <= at ensures Acyclic(Arcs(Live(log + [d], at))) {
        StoredAt(log, d, at);
      }
    }
  }

  lemma StoredAt(log: seq<Delegation>, d: Delegation, at: int)
    requires Acyclic(Arcs(Live(log, at)))
    ensures Acyclic(Arcs(Live(log + [d], at))) <==>
            (InForce(d, at) ==> !Reaches(Arcs(Live(log, at)), d.edge.delegate, d.edge.delegator))
  {
    LiveGrows(log, d, at);
    var arcs := Arcs(Live(log, at));
    if InForce(d, at) {
      NewArcClosesACycle(arcs, d.edge.delegator, d.edge.delegate);
    } else {
      assert arcs + {} == arcs;
    }
  }

  lemma LiveOnceApproved(log: seq<Delegation>, index: nat, at: int)
    requires index < |log| && log[index].status == PendingApproval
    ensures var d := log[index].(status := Active);
            Arcs(Live(log[index := d], at))
              == Arcs(Live(log, at)) + if InForce(d, at) then {(d.edge.delegator, d.edge.delegate)} else {}
  {
    var d := log[index].(status := Active);
    var approved := log[index := d];
    forall e ensures e in Live(approved, at) <==> e in Live(log, at) || (InForce(d, at) && e == d.edge) {
      LiveEdges(log, at, e);
      LiveEdges(approved, at, e);
      if i :| 0 <= i < |log| && InForce(log[i], at) && log[i].edge == e {
        assert approved[i] == log[i];
      }
      if InForce(d, at) {
        assert approved[index] == d;
      }
    }
  }

  /** What approving costs: the same question, of the instants from now on at which the approved delegation is
      in force. Approving asks it of none. */
  lemma ApprovalIsSafeExactlyWhen(log: seq<Delegation>, index: nat, now: int)
    requires NeverACycle(log, now)
    requires index < |log| && log[index].status == PendingApproval && now < log[index].endsAt
    ensures NeverACycle(Apply(log, Approve(index), now), now) <==> NothingLeadsBack(log, log[index], now)
  {
    var approved := log[index := log[index].(status := Active)];
    assert Apply(log, Approve(index), now) == approved;
    ApprovedIsSafeExactlyWhen(log, index, approved, now);
  }

  lemma ApprovedIsSafeExactlyWhen(log: seq<Delegation>, index: nat, approved: seq<Delegation>, now: int)
    requires NeverACycle(log, now) && index < |log| && log[index].status == PendingApproval
    requires approved == log[index := log[index].(status := Active)]
    ensures NeverACycle(approved, now) <==> NothingLeadsBack(log, log[index], now)
  {
    var d := log[index];
    if NeverACycle(approved, now) {
      forall at | now <= at && d.startsAt <= at < d.endsAt
        ensures !Reaches(Arcs(Live(log, at)), d.edge.delegate, d.edge.delegator)
      {
        ApprovedAt(log, index, at);
      }
    }
    if NothingLeadsBack(log, d, now) {
      forall at | now <= at ensures Acyclic(Arcs(Live(approved, at))) {
        ApprovedAt(log, index, at);
      }
    }
  }

  lemma ApprovedAt(log: seq<Delegation>, index: nat, at: int)
    requires index < |log| && log[index].status == PendingApproval && Acyclic(Arcs(Live(log, at)))
    ensures Acyclic(Arcs(Live(log[index := log[index].(status := Active)], at))) <==>
            (log[index].startsAt <= at < log[index].endsAt ==>
               !Reaches(Arcs(Live(log, at)), log[index].edge.delegate, log[index].edge.delegator))
  {
    var d := log[index].(status := Active);
    LiveOnceApproved(log, index, at);
    var arcs := Arcs(Live(log, at));
    if InForce(d, at) {
      NewArcClosesACycle(arcs, d.edge.delegator, d.edge.delegate);
    } else {
      assert arcs + {} == arcs;
    }
  }

  /** Nothing waits to come into force: every stored delegation is running, over, or revoked. */
  predicate NothingPending(log: seq<Delegation>, now: int) {
    forall i :: 0 <= i < |log| ==> log[i].status == Active ==> log[i].startsAt <= now
  }

  /** Requests that take force at once, and no approvals. */
  predicate Immediate(e: Event, now: int) {
    match e
    case Ask(r) => r.startsAt <= now && !r.requireApproval
    case Approve(_) => false
    case Revoke(_) => true
  }

  lemma LiveOnlyShrinks(log: seq<Delegation>, now: int, at: int)
    requires NothingPending(log, now) && now <= at
    ensures Arcs(Live(log, at)) <= Arcs(Live(log, now))
  {
    forall e | e in Live(log, at)
      ensures e in Live(log, now)
    {
      LiveEdges(log, at, e);
      var i :| 0 <= i < |log| && InForce(log[i], at) && log[i].edge == e;
      assert InForce(log[i], now);
      LiveEdges(log, now, e);
    }
  }

  lemma ImmediateKeepsOrder(log: seq<Delegation>, e: Event, now: int)
    requires NothingPending(log, now) && NeverACycle(log, now) && Immediate(e, now)
    ensures NothingPending(Apply(log, e, now), now) && NeverACycle(Apply(log, e, now), now)
  {
    match e
    case Ask(r) =>
      if Granted(log, r, now) {
        var d := Stored(log, r, now);
        forall at | now <= at && InForce(d, at)
          ensures !Reaches(Arcs(Live(log, at)), r.delegate, r.delegator)
        {
          LiveOnlyShrinks(log, now, at);
          FewerArcsReachLess(Arcs(Live(log, now)), Arcs(Live(log, at)), r.delegate, r.delegator);
        }
        GrantIsSafeExactlyWhen(log, d, now);
      }
    case Revoke(index) =>
      if index < |log| {
        RevokingStaysAcyclic(log, index, now);
      }
  }

  lemma FewerArcsReachLess(arcs: set<Arc>, fewer: set<Arc>, from: string, to: string)
    requires fewer <= arcs
    ensures Reaches(fewer, from, to) ==> Reaches(arcs, from, to)
  {
    if Reaches(fewer, from, to) {
      var p :| IsPath(fewer, p) && p[0] == from && p[|p| - 1] == to;
      assert IsPath(arcs, p);
    }
  }

  lemma RevokingShrinks(log: seq<Delegation>, index: nat, at: int)
    requires index < |log|
    ensures Arcs(Live(log[index := log[index].(status := Ended)], at)) <= Arcs(Live(log, at))
  {
    var revoked := log[index := log[index].(status := Ended)];
    forall e | e in Live(revoked, at)
      ensures e in Live(log, at)
    {
      LiveEdges(revoked, at, e);
      var i :| 0 <= i < |revoked| && InForce(revoked[i], at) && revoked[i].edge == e;
      assert InForce(log[i], at) && log[i].edge == e;
      LiveEdges(log, at, e);
    }
  }

  /** Events at instants that never go back. */
  ghost function History(events: seq<(Event, int)>): seq<Delegation> {
    Onward([], events)
  }

  lemma OneMoreEvent(events: seq<(Event, int)>, e: Event, now: int)
    ensures History(events + [(e, now)]) == Apply(History(events), e, now)
  {
    assert (events + [(e, now)])[..|events|] == events;
  }

  predicate Ordered(events: seq<(Event, int)>) {
    forall i, j :: 0 <= i < j < |events| ==> events[i].1 <= events[j].1
  }

  /** Over every history of requests that take force at once and revocations, no instant from the last
      event on ever holds a cycle. */
  lemma {:induction false} ImmediateHistoriesHaveNoCycle(events: seq<(Event, int)>, now: int)
    requires Ordered(events)
    requires forall i :: 0 <= i < |events| ==> events[i].1 <= now && Immediate(events[i].0, events[i].1)
    ensures NothingPending(History(events), now) && NeverACycle(History(events), now)
  {
    if events == [] {
      NothingNeverCycles(now);
    } else {
      var (e, last) := events[|events| - 1];
      var front := events[..|events| - 1];
      assert forall i :: 0 <= i < |front| ==> front[i] == events[i];
      ImmediateHistoriesHaveNoCycle(front, last);
      ImmediateKeepsOrder(History(front), e, last);
    }
  }

  /** What an event must not do: bring a delegation into force whose authority would come back. */
  ghost predicate IsSafe(log: seq<Delegation>, e: Event, now: int) {
    match e
    case Ask(r) => Granted(log, r, now) && !r.requireApproval ==> NothingLeadsBack(log, Stored(log, r, now), now)
    case Approve(index) =>
      index < |log| && log[index].status == PendingApproval && now < log[index].endsAt ==>
        NothingLeadsBack(log, log[index], now)
    case Revoke(_) => true
  }

  /** The exact condition for every event: no later instant holds a cycle exactly when the event is safe. */
  lemma EventIsSafeExactlyWhen(log: seq<Delegation>, e: Event, now: int)
    requires NeverACycle(log, now)
    ensures NeverACycle(Apply(log, e, now), now) <==> IsSafe(log, e, now)
  {
    match e
    case Ask(r) =>
      if Granted(log, r, now) {
        GrantIsSafeExactlyWhen(log, Stored(log, r, now), now);
      }
    case Approve(index) =>
      if index < |log| && log[index].status == PendingApproval && now < log[index].endsAt {
        ApprovalIsSafeExactlyWhen(log, index, now);
      }
    case Revoke(index) =>
      if index < |log| {
        RevokingStaysAcyclic(log, index, now);
      }
  }

  /** After the first k events, no instant from the last of them on holds a cycle. */
  ghost predicate QuietAfter(events: seq<(Event, int)>, k: nat)
    requires 1 <= k <= |events|
  {
    NeverACycle(History(events[..k]), events[k - 1].1)
  }

  /** The k-th event is safe where it happens. */
  ghost predicate SafeAt(events: seq<(Event, int)>, k: nat)
    requires k < |events|
  {
    IsSafe(History(events[..k]), events[k].0, events[k].1)
  }

  lemma NothingNeverCycles(now: int)
    ensures NeverACycle([], now)
  {
    forall at | now <= at ensures Acyclic(Arcs(Live([], at))) {
      NoArcsNoCycle();
    }
  }

  ghost predicate QuietThroughout(events: seq<(Event, int)>) {
    forall k :: 1 <= k <= |events| ==> QuietAfter(events, k)
  }

  ghost predicate SafeThroughout(events: seq<(Event, int)>) {
    forall k :: 0 <= k < |events| ==> SafeAt(events, k)
  }

  lemma QuietInFront(events: seq<(Event, int)>)
    requires events != []
    ensures QuietThroughout(events) <==> QuietThroughout(events[..|events| - 1]) && QuietAfter(events, |events|)
  {
    var front := events[..|events| - 1];
    forall k | 1 <= k <= |front| ensures QuietAfter(front, k) == QuietAfter(events, k) {
      assert front[..k] == events[..k];
    }
  }

  lemma SafeInFront(events: seq<(Event, int)>)
    requires events != []
    ensures SafeThroughout(events) <==> SafeThroughout(events[..|events| - 1]) && SafeAt(events, |events| - 1)
  {
    var front := events[..|events| - 1];
    forall k | 0 <= k < |front| ensures SafeAt(front, k) == SafeAt(events, k) {
      assert front[..k] == events[..k];
    }
  }

  /** Over a whole history, requests, approvals and revocations as they come: no part of it ever leads to a cycle
      exactly when every event was safe where it happened. */
  lemma {:induction false} HistoriesAreSafeExactlyWhen(events: seq<(Event, int)>)
    requires Ordered(events)
    ensures QuietThroughout(events) <==> SafeThroughout(events)
  {
    if events != [] {
      var front := events[..|events| - 1];
      HistoriesAreSafeExactlyWhen(front);
      QuietInFront(events);
      SafeInFront(events);
      if QuietThroughout(front) {
        LastIsSafeExactlyWhen(events);
      }
    }
  }

  lemma LastIsSafeExactlyWhen(events: seq<(Event, int)>)
    requires Ordered(events) && events != [] && QuietThroughout(events[..|events| - 1])
    ensures QuietAfter(events, |events|) <==> SafeAt(events, |events| - 1)
  {
    var last := |events| - 1;
    var front := events[..last];
    if last > 0 {
      assert QuietAfter(front, last);
      assert front[..last] == front;
    }
    QuietUntil(events, last);
    EventIsSafeExactlyWhen(History(front), events[last].0, events[last].1);
    assert events[..|events|] == events;
  }

  /** Before an event, nothing so far leads to a cycle from then on. */
  lemma QuietUntil(events: seq<(Event, int)>, k: nat)
    requires Ordered(events) && k < |events| && (k > 0 ==> QuietAfter(events, k))
    ensures NeverACycle(History(events[..k]), events[k].1)
  {
    if k == 0 {
      NothingNeverCycles(events[0].1);
    }
  }

  lemma RevokingStaysAcyclic(log: seq<Delegation>, index: nat, now: int)
    requires NeverACycle(log, now) && index < |log|
    ensures NeverACycle(log[index := log[index].(status := Ended)], now)
  {
    var revoked := log[index := log[index].(status := Ended)];
    forall at | now <= at ensures Acyclic(Arcs(Live(revoked, at))) {
      RevokingShrinks(log, index, at);
      FewerArcsStayAcyclic(Arcs(Live(log, at)), Arcs(Live(revoked, at)));
    }
  }

  /** Two delegations in force at once, each the other's reverse. */
  lemma MutualDelegationsCycle(d: Delegation, d': Delegation, at: int)
    requires InForce(d, at) && InForce(d', at)
    requires d.edge.delegator == d'.edge.delegate && d.edge.delegate == d'.edge.delegator
    ensures !Acyclic(Arcs(Live([d, d'], at)))
  {
    var log := [d, d'];
    var a, b := d.edge.delegator, d.edge.delegate;
    LiveEdges(log, at, d.edge);
    LiveEdges(log, at, d'.edge);
    assert InForce(log[0], at) && InForce(log[1], at);
    var arcs := Arcs(Live(log, at));
    assert (a, b) in arcs && (b, a) in arcs;
    assert IsPath(arcs, [a, b, a]);
  }

  lemma NothingYetInForce(d: Delegation, at: int)
    requires !InForce(d, at)
    ensures Live([d], at) == []
  {
    assert [d][..0] == [];
  }

  /** The request of somebody about whom nothing is in force is granted at depth zero. */
  lemma FirstRequestIsGranted(log: seq<Delegation>, r: Request, now: int)
    requires r.startsAt < r.endsAt && now < r.endsAt && r.delegator != r.delegate
    requires Live(log, now) == []
    ensures Granted(log, r, now)
    ensures Stored(log, r, now).edge == Edge(r.delegator, r.delegate, 0)
  {
    NoPathOverNothing(r.delegate, r.delegator);
  }

  lemma HistoryOfTwo(one: (Event, int), two: (Event, int))
    ensures History([one, two]) == Apply(Apply([], one.0, one.1), two.0, two.1)
  {
    OneMoreEvent([], one.0, one.1);
    OneMoreEvent([one], two.0, two.1);
    assert [] + [one] == [one] && [one] + [two] == [one, two];
  }

  /** The hypothesis is needed: two people who each ask, today, for cover that starts tomorrow are both
      granted, and tomorrow each delegates to the other. */
  lemma ScheduledRequestsCanCycle(a: string, b: string, today: int, tomorrow: int)
    requires a != b && today < tomorrow
    ensures var first := Request(a, b, tomorrow, tomorrow + 1, false, false);
            var second := Request(b, a, tomorrow, tomorrow + 1, false, false);
            var events := [(Ask(first), today), (Ask(second), today)];
            |History(events)| == 2 && !Acyclic(Arcs(Live(History(events), tomorrow))) && !QuietThroughout(events)
  {
    var first := Request(a, b, tomorrow, tomorrow + 1, false, false);
    var second := Request(b, a, tomorrow, tomorrow + 1, false, false);
    FirstRequestIsGranted([], first, today);
    var d := Stored([], first, today);
    assert [] + [d] == [d];
    NothingYetInForce(d, today);
    FirstRequestIsGranted([d], second, today);
    var d' := Stored([d], second, today);
    assert [d] + [d'] == [d, d'];
    MutualDelegationsCycle(d, d', tomorrow);
    var events := [(Ask(first), today), (Ask(second), today)];
    HistoryOfTwo(events[0], events[1]);
    assert events[..2] == events;
    assert !QuietAfter(events, 2);
  }

  /** So does a request that waits for approval, since approving does not look at the chain again. */
  lemma ApprovedRequestsCanCycle(a: string, b: string, now: int, later: int)
    requires a != b && now <= later
    ensures var first := Request(a, b, now, later + 1, false, true);
            var second := Request(b, a, now, later + 1, false, true);
            var events := [(Ask(first), now), (Ask(second), now), (Approve(0), later), (Approve(1), later)];
            |History(events)| == 2 && !Acyclic(Arcs(Live(History(events), later))) && !QuietThroughout(events)
  {
    var first := Request(a, b, now, later + 1, false, true);
    var second := Request(b, a, now, later + 1, false, true);
    var d, d' := TwoRequestsWait(first, second, now);
    var on, on' := d.(status := Active), d'.(status := Active);
    assert Apply([d, d'], Approve(0), later) == [on, d'];
    assert Apply([on, d'], Approve(1), later) == [on, on'];
    MutualDelegationsCycle(on, on', later);
    var events := [(Ask(first), now), (Ask(second), now), (Approve(0), later), (Approve(1), later)];
    HistoryOfTwo(events[0], events[1]);
    assert events[..2] == [events[0], events[1]];
    HistoryGrows(events[..2], Approve(0), later, events[..3], [on, d']);
    HistoryGrows(events[..3], Approve(1), later, events[..4], [on, on']);
    assert events[..4] == events;
    assert !QuietAfter(events, 4);
  }

  /** Two requests that wait for approval, neither in the other's way. */
  lemma TwoRequestsWait(first: Request, second: Request, now: int) returns (d: Delegation, d': Delegation)
    requires first.delegator != first.delegate && second.delegator != second.delegate
    requires first.startsAt < first.endsAt && now < first.endsAt && first.requireApproval
    requires second.startsAt < second.endsAt && now < second.endsAt && second.requireApproval
    ensures Apply(Apply([], Ask(first), now), Ask(second), now) == [d, d']
    ensures d == Delegation(Edge(first.delegator, first.delegate, 0), first.startsAt, first.endsAt, PendingApproval)
    ensures d' == Delegation(Edge(second.delegator, second.delegate, 0), second.startsAt, second.endsAt, PendingApproval)
  {
    FirstRequestIsGranted([], first, now);
    d := Stored([], first, now);
    assert [] + [d] == [d];
    NothingYetInForce(d, now);
    FirstRequestIsGranted([d], second, now);
    d' := Stored([d], second, now);
    assert [d] + [d'] == [d, d'];
  }

  lemma HistoryGrows(events: seq<(Event, int)>, e: Event, now: int, longer: seq<(Event, int)>, log: seq<Delegation>)
    requires longer == events + [(e, now)] && log == Apply(History(events), e, now)
    ensures History(longer) == log
  {
    OneMoreEvent(events, e, now);
  }

  ghost predicate ShallowDepths(log: seq<Delegation>) {
    forall i :: 0 <= i < |log| ==> 0 <= log[i].edge.depth <= MAXIMUM_DELEGATION_DEPTH
  }

  /** Depths stay zero or one in every history, scheduled and approved delegations included. */
  lemma {:induction false} HistoriesRecordShallowDepths(events: seq<(Event, int)>)
    ensures ShallowDepths(History(events))
  {
    if events != [] {
      HistoriesRecordShallowDepths(events[..|events| - 1]);
      var log := History(events[..|events| - 1]);
      var (e, now) := events[|events| - 1];
      if e.Ask? && Granted(log, e.r, now) {
        assert IsProposedDepth(e.r.delegator, Live(log, now), ProposedDepth(e.r.delegator, Live(log, now)));
      }
    }
  }
}
