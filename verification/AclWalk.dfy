/** The permission walk over a scope chain, and the same walk as two token sets for the search index
    (apps/api/src/modules/library/domain/acl-walk.ts and acl-subjects.ts). */
module AclWalk {
  import opened Text

  datatype Kind = Tenant | Company | Entity | Department | Library | Folder | Document

  datatype Scope = Scope(kind: Kind, id: string)

  /** Ancestor first: the tenant at the front, the object last. */
  datatype ChainNode = ChainNode(scope: Scope, breaks: bool)

  datatype SubjectKind = ToUser | ToRole | ToDepartment

  datatype Effect = Allow | Deny

  /** A stored entry for the permission being asked about. */
  datatype Entry = Entry(scope: Scope, subject: SubjectKind, subjectId: string, effect: Effect)

  datatype Reason = Allowed | Denied | RoleGrant | ClosedByDefault

  datatype Outcome = Outcome(allowed: bool, decidedAt: Option<Scope>, reason: Reason)

  // ----- The effective chain ------------------------------------------------------------------------

  /** Where the walk starts: the deepest break, or the top when nothing breaks. */
  function DeepestBreak(chain: seq<ChainNode>): (start: nat)
    ensures start <= |chain|
    ensures start > 0 ==> start < |chain| && chain[start].breaks
    ensures forall i :: start < i < |chain| ==> !chain[i].breaks
  {
    if chain == [] then 0
    else if chain[|chain| - 1].breaks then |chain| - 1
    else DeepestBreak(chain[..|chain| - 1])
  }

  function Start(chain: seq<ChainNode>, survivesBreaks: bool): (start: nat)
    ensures start <= |chain|
  {
    if survivesBreaks then 0 else DeepestBreak(chain)
  }

  method EffectiveChain(chain: seq<ChainNode>, survivesBreaks: bool) returns (effective: seq<ChainNode>)
    ensures effective == chain[Start(chain, survivesBreaks)..]
  {
    if survivesBreaks {
      return chain;
    }
    var index := |chain| - 1;
    while index >= 0
      invariant -1 <= index < |chain|
      invariant DeepestBreak(chain) == DeepestBreak(chain[..index + 1])
    {
      assert chain[..index + 1][..index] == chain[..index];
      if chain[index].breaks {
        return chain[index..];
      }
      index := index - 1;
    }
    return chain;
  }

  /** A node contributes exactly when nothing below it on the chain breaks inheritance, or the permission
      survives breaks. */
  lemma StartIsBelowNoBreak(chain: seq<ChainNode>, survivesBreaks: bool, i: nat)
    requires i < |chain|
    ensures Start(chain, survivesBreaks) <= i
       <==> survivesBreaks || forall j :: i < j < |chain| ==> !chain[j].breaks
  {
  }

  predicate OnChain(effective: seq<ChainNode>, id: string) {
    exists i :: 0 <= i < |effective| && effective[i].scope.id == id
  }

  predicate ReachesTenant(effective: seq<ChainNode>) {
    |effective| > 0 && effective[0].scope.kind == Tenant
  }

  // ----- The decision -------------------------------------------------------------------------------

  predicate HasEntry(entries: seq<Entry>, id: string, effect: Effect) {
    exists e :: e in entries && e.scope.id == id && e.effect == effect
  }

  /** The nearest node carrying an entry of this effect: the latest on the chain. */
  function Nearest(effective: seq<ChainNode>, entries: seq<Entry>, effect: Effect): Option<Scope> {
    if effective == [] then None
    else
      var last := effective[|effective| - 1].scope;
      if HasEntry(entries, last.id, effect) then Some(last)
      else Nearest(effective[..|effective| - 1], entries, effect)
  }

  function Decide(effective: seq<ChainNode>, entries: seq<Entry>, holdsRoleGrant: bool): Outcome {
    var deny := Nearest(effective, entries, Deny);
    var allow := Nearest(effective, entries, Allow);
    if deny.Some? then Outcome(false, deny, Denied)
    else if allow.Some? then Outcome(true, allow, Allowed)
    else if holdsRoleGrant && ReachesTenant(effective)
    then Outcome(true, Some(effective[0].scope), RoleGrant)
    else Outcome(false, None, ClosedByDefault)
  }

  /** The buckets hold every entry, each under the node it names, and nothing else. */
  ghost predicate Buckets(byScope: map<string, seq<Entry>>, entries: seq<Entry>) {
    forall id, e :: (id in byScope && e in byScope[id]) <==> (e in entries && e.scope.id == id)
  }

  method GroupByScope(entries: seq<Entry>) returns (byScope: map<string, seq<Entry>>)
    ensures Buckets(byScope, entries)
  {
    byScope := map[];
    for i := 0 to |entries|
      invariant Buckets(byScope, entries[..i])
    {
      var entry := entries[i];
      assert entries[..i + 1] == entries[..i] + [entry];
      var bucket := if entry.scope.id in byScope then byScope[entry.scope.id] else [];
      assert forall e :: e in bucket <==> e in entries[..i] && e.scope.id == entry.scope.id;
      byScope := byScope[entry.scope.id := bucket + [entry]];
    }
    assert entries[..|entries|] == entries;
  }

  /** The last node of either effect, by one pass down the chain. */
  method DecideFromEntries(effective: seq<ChainNode>, entries: seq<Entry>, holdsRoleGrant: bool)
    returns (outcome: Outcome)
    ensures outcome == Decide(effective, entries, holdsRoleGrant)
  {
    var byScope := GroupByScope(entries);
    var nearestAllow: Option<Scope> := None;
    var nearestDeny: Option<Scope> := None;
    for i := 0 to |effective|
      invariant nearestAllow == Nearest(effective[..i], entries, Allow)
      invariant nearestDeny == Nearest(effective[..i], entries, Deny)
    {
      var scope := effective[i].scope;
      var bucket := if scope.id in byScope then byScope[scope.id] else [];
      assert effective[..i + 1][..i] == effective[..i];
      ghost var allowBefore, denyBefore := nearestAllow, nearestDeny;
      for j := 0 to |bucket|
        invariant nearestAllow == if HasEntry(bucket[..j], scope.id, Allow) then Some(scope) else allowBefore
        invariant nearestDeny == if HasEntry(bucket[..j], scope.id, Deny) then Some(scope) else denyBefore
      {
        var entry := bucket[j];
        assert entry in bucket && entry.scope.id == scope.id;
        OneMoreEntry(bucket[..j], entry);
        assert bucket[..j + 1] == bucket[..j] + [entry];
        if entry.effect == Deny {
          nearestDeny := Some(scope);
        } else {
          nearestAllow := Some(scope);
        }
      }
      assert bucket[..|bucket|] == bucket;
      assert forall e :: e in bucket <==> e in entries && e.scope.id == scope.id;
    }
    assert effective[..|effective|] == effective;
    if nearestDeny.Some? {
      return Outcome(false, nearestDeny, Denied);
    }
    if nearestAllow.Some? {
      return Outcome(true, nearestAllow, Allowed);
    }
    if holdsRoleGrant && ReachesTenant(effective) {
      return Outcome(true, Some(effective[0].scope), RoleGrant);
    }
    return Outcome(false, None, ClosedByDefault);
  }

  lemma OneMoreEntry(entries: seq<Entry>, entry: Entry)
    ensures forall effect :: HasEntry(entries + [entry], entry.scope.id, effect)
                        <==> HasEntry(entries, entry.scope.id, effect) || entry.effect == effect
  {
    forall effect
      ensures HasEntry(entries + [entry], entry.scope.id, effect)
         <==> HasEntry(entries, entry.scope.id, effect) || entry.effect == effect
    {
      assert entry in entries + [entry];
      if HasEntry(entries, entry.scope.id, effect) {
        var e :| e in entries && e.scope.id == entry.scope.id && e.effect == effect;
        assert e in entries + [entry];
      }
    }
  }

  predicate Hits(effective: seq<ChainNode>, entries: seq<Entry>, effect: Effect) {
    exists e :: e in entries && e.effect == effect && OnChain(effective, e.scope.id)
  }

  /** What the pass finds: something exactly when an entry of that effect is on the chain at any level,
      and then the node carrying one with no other such node below it. */
  lemma {:induction false} NearestIsTheLatest(effective: seq<ChainNode>, entries: seq<Entry>, effect: Effect)
    ensures Nearest(effective, entries, effect).Some? <==> Hits(effective, entries, effect)
    ensures Nearest(effective, entries, effect).Some? ==>
              exists k :: 0 <= k < |effective| && effective[k].scope == Nearest(effective, entries, effect).value
                       && HasEntry(entries, effective[k].scope.id, effect)
                       && forall j :: k < j < |effective| ==> !HasEntry(entries, effective[j].scope.id, effect)
  {
    if effective != [] {
      var front, last := effective[..|effective| - 1], |effective| - 1;
      if HasEntry(entries, effective[last].scope.id, effect) {
        var e :| e in entries && e.scope.id == effective[last].scope.id && e.effect == effect;
        assert OnChain(effective, e.scope.id);
      } else {
        NearestIsTheLatest(front, entries, effect);
        forall id | OnChain(front, id)
          ensures OnChain(effective, id)
        {
          var i :| 0 <= i < |front| && front[i].scope.id == id;
          assert effective[i].scope.id == id;
        }
        if Hits(effective, entries, effect) {
          var e :| e in entries && e.effect == effect && OnChain(effective, e.scope.id);
          var i :| 0 <= i < |effective| && effective[i].scope.id == e.scope.id;
          assert front[i].scope.id == e.scope.id;
        }
      }
    }
  }

  /** Deny wins at any level; then any allow; then the role grant, while the chain reaches the tenant. */
  lemma DecisionIsDenyWins(effective: seq<ChainNode>, entries: seq<Entry>, holdsRoleGrant: bool)
    ensures Decide(effective, entries, holdsRoleGrant).allowed
       <==> && !Hits(effective, entries, Deny)
            && (Hits(effective, entries, Allow) || (holdsRoleGrant && ReachesTenant(effective)))
  {
    NearestIsTheLatest(effective, entries, Deny);
    NearestIsTheLatest(effective, entries, Allow);
  }

  /** A node carries an entry of this effect, and no node nearer the object does. */
  ghost predicate IsNearest(effective: seq<ChainNode>, entries: seq<Entry>, effect: Effect, scope: Scope) {
    exists k :: 0 <= k < |effective| && effective[k].scope == scope && HasEntry(entries, scope.id, effect)
             && forall j :: k < j < |effective| ==> !HasEntry(entries, effective[j].scope.id, effect)
  }

  /** Why, and where: the nearest deny if there is any on the chain; else the nearest allow; else the tenant for a role
      grant that reaches it; else nowhere. */
  ghost predicate IsExplained(
    outcome: Outcome, effective: seq<ChainNode>, entries: seq<Entry>, denied: bool, allowed: bool, granted: bool)
  {
    && (outcome.reason == Denied <==> denied)
    && (outcome.reason == Allowed <==> !denied && allowed)
    && (outcome.reason == RoleGrant <==> !denied && !allowed && granted)
    && (outcome.reason == ClosedByDefault <==> !denied && !allowed && !granted)
    && (denied ==> outcome.decidedAt.Some? && IsNearest(effective, entries, Deny, outcome.decidedAt.value))
    && (!denied && allowed ==>
          outcome.decidedAt.Some? && IsNearest(effective, entries, Allow, outcome.decidedAt.value))
    && (outcome.reason == RoleGrant ==>
          ReachesTenant(effective) && outcome.decidedAt == Some(effective[0].scope))
    && (outcome.reason == ClosedByDefault <==> outcome.decidedAt.None?)
    && (outcome.allowed <==> outcome.reason in {Allowed, RoleGrant})
  }

  lemma DecisionIsExplained(effective: seq<ChainNode>, entries: seq<Entry>, holdsRoleGrant: bool)
    ensures IsExplained(
              Decide(effective, entries, holdsRoleGrant), effective, entries,
              Hits(effective, entries, Deny), Hits(effective, entries, Allow),
              holdsRoleGrant && ReachesTenant(effective))
  {
    NearestIsTheLatest(effective, entries, Deny);
    NearestIsTheLatest(effective, entries, Allow);
  }

  // ----- The caller ---------------------------------------------------------------------------------

  /** The roles and departments are the resolver's own; `grants` are the permissions the roles hold. */
  datatype Caller = Caller(userId: string, roleIds: set<string>, departmentIds: set<string>, grants: set<string>)

  /** Departments are read through the user, grants through the roles. */
  predicate IsCaller(c: Caller) {
    && (c.userId == "" ==> c.departmentIds == {})
    && (c.roleIds == {} ==> c.grants == {})
  }

  function CallerSubjectIds(c: Caller): set<string> {
    (if c.userId == "" then {} else {c.userId}) + c.roleIds + c.departmentIds
  }

  /** What a query on the caller's identifiers returns, in any order: no subject kind is compared. */
  ghost predicate IsMatch(rows: seq<Entry>, stored: set<Entry>, c: Caller) {
    forall e :: e in rows <==> e in stored && e.subjectId in CallerSubjectIds(c)
  }

  /** A read on the chain's nodes as well. */
  ghost predicate IsChainMatch(rows: seq<Entry>, effective: seq<ChainNode>, stored: set<Entry>, c: Caller) {
    forall e :: e in rows <==>
                e in stored && e.subjectId in CallerSubjectIds(c) && OnChain(effective, e.scope.id)
  }

  /** The direct read of one object whose chain resolves. */
  function Resolve(chain: seq<ChainNode>, survivesBreaks: bool, rows: seq<Entry>, c: Caller, permission: string)
    : Outcome
  {
    if c.roleIds == {} && c.userId == "" then Outcome(false, None, ClosedByDefault)
    else Decide(chain[Start(chain, survivesBreaks)..], rows, permission in c.grants)
  }

  /** Some entry for one of the caller's identifiers, of this effect, is on the effective chain. */
  ghost predicate Reached(effective: seq<ChainNode>, stored: set<Entry>, c: Caller, effect: Effect) {
    exists e :: e in stored && e.effect == effect && e.subjectId in CallerSubjectIds(c) && OnChain(effective, e.scope.id)
  }

  /** The direct read, in terms of what is stored: what it answers, why and where; the early refusal of nobody changes
      no answer. */
  lemma ResolveIsDenyWins(
    chain: seq<ChainNode>, survivesBreaks: bool, rows: seq<Entry>, stored: set<Entry>, c: Caller, permission: string)
    requires IsCaller(c)
    requires IsChainMatch(rows, chain[Start(chain, survivesBreaks)..], stored, c)
    ensures var effective := chain[Start(chain, survivesBreaks)..];
            Resolve(chain, survivesBreaks, rows, c, permission).allowed ==
              (&& !Reached(effective, stored, c, Deny)
               && (Reached(effective, stored, c, Allow) || (permission in c.grants && ReachesTenant(effective))))
    ensures var effective := chain[Start(chain, survivesBreaks)..];
            IsExplained(
              Resolve(chain, survivesBreaks, rows, c, permission), effective, rows,
              Reached(effective, stored, c, Deny), Reached(effective, stored, c, Allow),
              permission in c.grants && ReachesTenant(effective))
  {
    var effective := chain[Start(chain, survivesBreaks)..];
    DecisionIsExplained(effective, rows, permission in c.grants);
    forall effect
      ensures Hits(effective, rows, effect) <==> Reached(effective, stored, c, effect)
    {
      if Hits(effective, rows, effect) {
        var e :| e in rows && e.effect == effect && OnChain(effective, e.scope.id);
        assert e in stored;
      }
      if Reached(effective, stored, c, effect) {
        var e :| e in stored && e.effect == effect && e.subjectId in CallerSubjectIds(c)
              && OnChain(effective, e.scope.id);
        assert e in rows;
      }
    }
  }

  // ----- The search index ---------------------------------------------------------------------------

  function SubjectToken(kind: SubjectKind, id: string): string {
    match kind
    case ToUser => "user:" + id
    case ToRole => "role:" + id
    case ToDepartment => "department:" + id
  }

  function GrantToken(permission: string): string {
    "grant:" + permission
  }

  function CallerSubjectTokens(c: Caller): set<string> {
    (if c.userId == "" then {} else {SubjectToken(ToUser, c.userId)})
    + (set id | id in c.roleIds :: SubjectToken(ToRole, id))
    + (set id | id in c.departmentIds :: SubjectToken(ToDepartment, id))
    + (set p | p in c.grants :: GrantToken(p))
  }

  datatype IndexEntry = IndexEntry(allow: set<string>, deny: set<string>)

  function TokensOf(effective: seq<ChainNode>, entries: seq<Entry>, effect: Effect): set<string> {
    set e | e in entries && OnChain(effective, e.scope.id) && e.effect == effect :: SubjectToken(e.subject, e.subjectId)
  }

  /** What an index entry stores for one object and permission. */
  method IndexSubjectsFromEntries(effective: seq<ChainNode>, entries: seq<Entry>, permission: string)
    returns (index: IndexEntry)
    ensures index == Indexed(effective, entries, permission)
  {
    var allow: set<string>, deny: set<string> := {}, {};
    for i := 0 to |entries|
      invariant allow == TokensOf(effective, entries[..i], Allow)
      invariant deny == TokensOf(effective, entries[..i], Deny)
    {
      var entry := entries[i];
      assert entries[..i + 1] == entries[..i] + [entry];
      if OnChain(effective, entry.scope.id) {
        if entry.effect == Deny {
          deny := deny + {SubjectToken(entry.subject, entry.subjectId)};
        } else {
          allow := allow + {SubjectToken(entry.subject, entry.subjectId)};
        }
      }
    }
    assert entries[..|entries|] == entries;
    if ReachesTenant(effective) {
      allow := allow + {GrantToken(permission)};
    }
    index := IndexEntry(allow, deny);
  }

  function Indexed(effective: seq<ChainNode>, entries: seq<Entry>, permission: string): IndexEntry {
    IndexEntry(
      TokensOf(effective, entries, Allow) + (if ReachesTenant(effective) then {GrantToken(permission)} else {}),
      TokensOf(effective, entries, Deny))
  }

  /** The engine's predicate: overlap the allowed tokens, and not the denied ones. */
  predicate Visible(index: IndexEntry, tokens: set<string>) {
    index.allow * tokens != {} && index.deny * tokens == {}
  }

  /** The subject is the caller as that kind of subject. */
  predicate IsSubject(c: Caller, kind: SubjectKind, id: string) {
    match kind
    case ToUser => c.userId != "" && id == c.userId
    case ToRole => id in c.roleIds
    case ToDepartment => id in c.departmentIds
  }

  lemma TokensAreTyped(c: Caller, kind: SubjectKind, id: string)
    ensures SubjectToken(kind, id) in CallerSubjectTokens(c) <==> IsSubject(c, kind, id)
  {
    var token := SubjectToken(kind, id);
    var name := match kind case ToUser => "user:" case ToRole => "role:" case ToDepartment => "department:";
    assert token == name + id && token[|name|..] == id && token[0] == name[0];
    forall k: SubjectKind, other: string | SubjectToken(k, other) == token
      ensures k == kind && other == id
    {
      var n := match k case ToUser => "user:" case ToRole => "role:" case ToDepartment => "department:";
      assert token == n + other && token[|n|..] == other && token[0] == n[0];
    }
    forall p ensures GrantToken(p) != token {
      assert GrantToken(p)[0] == 'g';
    }
  }

  lemma GrantTokenIsAGrant(c: Caller, permission: string)
    ensures GrantToken(permission) in CallerSubjectTokens(c) <==> permission in c.grants
  {
    var token := GrantToken(permission);
    assert token[0] == 'g' && token[6..] == permission;
    forall k: SubjectKind, id: string ensures SubjectToken(k, id) != token {
      var n := match k case ToUser => "user:" case ToRole => "role:" case ToDepartment => "department:";
      assert SubjectToken(k, id)[0] == n[0];
    }
    forall p | GrantToken(p) == token ensures p == permission {
      assert GrantToken(p)[6..] == p;
    }
  }

  /** An entry on the chain of this effect that names the caller as the kind of subject the caller is. */
  ghost predicate Typed(effective: seq<ChainNode>, stored: set<Entry>, c: Caller, effect: Effect) {
    exists e :: e in stored && e.effect == effect && IsSubject(c, e.subject, e.subjectId) && OnChain(effective, e.scope.id)
  }

  /** One that carries an identifier of the caller's under another kind of subject. */
  ghost predicate Stray(effective: seq<ChainNode>, stored: set<Entry>, c: Caller, effect: Effect) {
    exists e :: e in stored && e.effect == effect && e.subjectId in CallerSubjectIds(c)
             && !IsSubject(c, e.subject, e.subjectId) && OnChain(effective, e.scope.id)
  }

  /** Every entry, whoever it is for: the projection materialises callers it has never seen. */
  ghost predicate IsEverything(rows: seq<Entry>, effective: seq<ChainNode>, stored: set<Entry>) {
    forall e :: e in rows <==> e in stored && OnChain(effective, e.scope.id)
  }

  lemma TokensOverlap(effective: seq<ChainNode>, rows: seq<Entry>, stored: set<Entry>, c: Caller, effect: Effect)
    requires IsEverything(rows, effective, stored)
    ensures TokensOf(effective, rows, effect) * CallerSubjectTokens(c) != {} <==> Typed(effective, stored, c, effect)
  {
    var tokens := TokensOf(effective, rows, effect);
    if Typed(effective, stored, c, effect) {
      var e :| e in stored && e.effect == effect && IsSubject(c, e.subject, e.subjectId) && OnChain(effective, e.scope.id);
      TokensAreTyped(c, e.subject, e.subjectId);
      assert SubjectToken(e.subject, e.subjectId) in tokens * CallerSubjectTokens(c);
    }
    if token :| token in tokens * CallerSubjectTokens(c) {
      var e :| e in rows && OnChain(effective, e.scope.id) && e.effect == effect
            && SubjectToken(e.subject, e.subjectId) == token;
      TokensAreTyped(c, e.subject, e.subjectId);
    }
  }

  lemma IndexIsDenyWins(
    effective: seq<ChainNode>, rows: seq<Entry>, stored: set<Entry>, c: Caller, permission: string)
    requires IsEverything(rows, effective, stored)
    ensures Visible(Indexed(effective, rows, permission), CallerSubjectTokens(c))
       <==> && !Typed(effective, stored, c, Deny)
            && (Typed(effective, stored, c, Allow) || (permission in c.grants && ReachesTenant(effective)))
  {
    TokensOverlap(effective, rows, stored, c, Deny);
    TokensOverlap(effective, rows, stored, c, Allow);
    GrantTokenIsAGrant(c, permission);
    var allow, tokens := TokensOf(effective, rows, Allow), CallerSubjectTokens(c);
    var index := Indexed(effective, rows, permission);
    if Visible(index, tokens) {
      var token :| token in index.allow * tokens;
      assert token in allow ==> token in allow * tokens;
    }
    if allow * tokens != {} {
      var token :| token in allow * tokens;
      assert token in index.allow * tokens;
    }
    if permission in c.grants && ReachesTenant(effective) {
      assert GrantToken(permission) in index.allow * tokens;
    }
  }

  lemma MatchedIsTypedOrStray(effective: seq<ChainNode>, stored: set<Entry>, c: Caller, effect: Effect)
    ensures Reached(effective, stored, c, effect)
       <==> Typed(effective, stored, c, effect) || Stray(effective, stored, c, effect)
  {
    if Typed(effective, stored, c, effect) {
      var e :| e in stored && e.effect == effect && IsSubject(c, e.subject, e.subjectId) && OnChain(effective, e.scope.id);
      assert e.subjectId in CallerSubjectIds(c);
    }
    if Reached(effective, stored, c, effect) && !Stray(effective, stored, c, effect) {
      var e :| e in stored && e.effect == effect && e.subjectId in CallerSubjectIds(c) && OnChain(effective, e.scope.id);
      assert IsSubject(c, e.subject, e.subjectId);
    }
  }

  /** The caller is let in by an entry for them as what they are, or by their roles. */
  ghost predicate LetIn(effective: seq<ChainNode>, stored: set<Entry>, c: Caller, permission: string) {
    Typed(effective, stored, c, Allow) || (permission in c.grants && ReachesTenant(effective))
  }

  /** The index and a direct read agree on an object exactly when a stray deny meets nobody who would be let in
      and is not denied anyway, and a stray allow meets nobody who would be neither: the direct read compares
      bare identifiers, the index typed tokens. */
  lemma IndexAgreesWithTheDirectRead(
    chain: seq<ChainNode>, survivesBreaks: bool, stored: set<Entry>, c: Caller, permission: string,
    read: seq<Entry>, indexed: seq<Entry>)
    requires IsCaller(c)
    requires IsChainMatch(read, chain[Start(chain, survivesBreaks)..], stored, c)
    requires IsEverything(indexed, chain[Start(chain, survivesBreaks)..], stored)
    ensures var effective := chain[Start(chain, survivesBreaks)..];
            (Resolve(chain, survivesBreaks, read, c, permission).allowed
               == Visible(Indexed(effective, indexed, permission), CallerSubjectTokens(c))) ==
              (|| Typed(effective, stored, c, Deny)
               || (if LetIn(effective, stored, c, permission) then !Stray(effective, stored, c, Deny)
                   else Stray(effective, stored, c, Allow) ==> Stray(effective, stored, c, Deny)))
  {
    var effective := chain[Start(chain, survivesBreaks)..];
    ResolveIsDenyWins(chain, survivesBreaks, read, stored, c, permission);
    IndexIsDenyWins(effective, indexed, stored, c, permission);
    MatchedIsTypedOrStray(effective, stored, c, Deny);
    MatchedIsTypedOrStray(effective, stored, c, Allow);
  }

  /** While no identifier is shared between kinds of subject, the two answer alike on every object. */
  lemma DistinctIdentifiersAgree(
    chain: seq<ChainNode>, survivesBreaks: bool, stored: set<Entry>, c: Caller, permission: string,
    read: seq<Entry>, indexed: seq<Entry>)
    requires IsCaller(c)
    requires IsChainMatch(read, chain[Start(chain, survivesBreaks)..], stored, c)
    requires IsEverything(indexed, chain[Start(chain, survivesBreaks)..], stored)
    requires forall e :: e in stored && e.subjectId in CallerSubjectIds(c) ==> IsSubject(c, e.subject, e.subjectId)
    ensures Resolve(chain, survivesBreaks, read, c, permission).allowed
       <==> Visible(Indexed(chain[Start(chain, survivesBreaks)..], indexed, permission), CallerSubjectTokens(c))
  {
    IndexAgreesWithTheDirectRead(chain, survivesBreaks, stored, c, permission, read, indexed);
  }

  /** A role entry carrying a user's identifier opens the object to that user's direct read, and not to
      their search. */
  lemma SharedIdentifiersDisagree()
    ensures var chain := [ChainNode(Scope(Tenant, "t"), false), ChainNode(Scope(Document, "d"), false)];
            var entry := Entry(Scope(Document, "d"), ToRole, "x", Allow);
            var c := Caller("x", {}, {}, {});
            && IsCaller(c)
            && IsChainMatch([entry], chain, {entry}, c) && IsEverything([entry], chain, {entry})
            && Resolve(chain, true, [entry], c, "view").allowed
            && !Visible(Indexed(chain, [entry], "view"), CallerSubjectTokens(c))
  {
    var chain := [ChainNode(Scope(Tenant, "t"), false), ChainNode(Scope(Document, "d"), false)];
    var entry := Entry(Scope(Document, "d"), ToRole, "x", Allow);
    var c := Caller("x", {}, {}, {});
    assert chain[1].scope.id == "d";
    assert OnChain(chain, "d");
    assert chain[Start(chain, true)..] == chain;
    ResolveIsDenyWins(chain, true, [entry], {entry}, c, "view");
    IndexIsDenyWins(chain, [entry], {entry}, c, "view");
    assert Reached(chain, {entry}, c, Allow) by {
      assert entry in {entry} && entry.subjectId in CallerSubjectIds(c);
    }
  }
}
