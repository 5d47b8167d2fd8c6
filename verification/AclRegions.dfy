/** The scope chain of a document, read from the stored trees, and the libraries beneath organisation nodes, which is
    the same chain inverted (apps/api/src/modules/library/infrastructure/prisma-scope-chain.reader.ts). */
module AclRegions {
  import opened Text
  import opened MaterialisedPath
  import T = TreeRuns
  import opened AclWalk

  /** One tenant's live rows: every read here leaves deleted rows out, so a row that is absent is deleted or never
      was. Documents alone are read deleted too. */
  datatype World = World(
    tenant: string,
    companies: set<string>,
    companyOf: map<string, string>,
    departments: T.Tree, entityOf: map<string, string>,
    ownerOf: map<string, Scope>,
    folders: T.Tree, libraryOf: map<string, string>, broken: set<string>,
    folderOf: map<string, string>)

  // ----- The chain of a document --------------------------------------------------------------------

  function Plain(kind: Kind, id: string): ChainNode {
    ChainNode(Scope(kind, id), false)
  }

  function FolderNodes(w: World, ids: seq<string>): seq<ChainNode> {
    seq(|ids|, i requires 0 <= i < |ids| => ChainNode(Scope(Folder, ids[i]), ids[i] in w.broken))
  }

  function DepartmentNodes(ids: seq<string>): seq<ChainNode> {
    seq(|ids|, i requires 0 <= i < |ids| => Plain(Department, ids[i]))
  }

  predicate AllIn(ids: seq<string>, rows: T.Tree) {
    forall i :: 0 <= i < |ids| ==> ids[i] in rows
  }

  function EntityChain(w: World, entity: string): Option<seq<ChainNode>> {
    if entity in w.companyOf && w.companyOf[entity] in w.companies
    then Some([Plain(Tenant, w.tenant), Plain(Company, w.companyOf[entity]), Plain(Entity, entity)])
    else None
  }

  function OrganisationChain(w: World, owner: Scope): Option<seq<ChainNode>> {
    match owner.kind
    case Tenant => Some([Plain(Tenant, w.tenant)])
    case Company =>
      if owner.id in w.companies then Some([Plain(Tenant, w.tenant), Plain(Company, owner.id)]) else None
    case Entity => EntityChain(w, owner.id)
    case Department =>
      if owner.id !in w.departments || owner.id !in w.entityOf then None
      else
        var ancestry := IdsInPath(w.departments[owner.id].path);
        var above := EntityChain(w, w.entityOf[owner.id]);
        if AllIn(ancestry, w.departments) && above.Some?
        then Some(above.value + DepartmentNodes(ancestry)) else None
    case _ => None
  }

  function LibraryChain(w: World, library: string): Option<seq<ChainNode>> {
    if library !in w.ownerOf then None
    else
      var above := OrganisationChain(w, w.ownerOf[library]);
      if above.Some? then Some(above.value + [Plain(Library, library)]) else None
  }

  function FolderChain(w: World, folder: string): Option<seq<ChainNode>> {
    if folder !in w.folders || folder !in w.libraryOf then None
    else
      var ancestry := IdsInPath(w.folders[folder].path);
      var above := LibraryChain(w, w.libraryOf[folder]);
      if AllIn(ancestry, w.folders) && above.Some? then Some(above.value + FolderNodes(w, ancestry)) else None
  }

  /** The chain of a document, and `None` wherever a row on it is missing or deleted. */
  function DocumentChain(w: World, document: string): Option<seq<ChainNode>> {
    if document !in w.folderOf then None
    else
      var above := FolderChain(w, w.folderOf[document]);
      if above.Some? then Some(above.value + [Plain(Document, document)]) else None
  }

  // ----- The libraries beneath organisation nodes -----------------------------------------------------

  function IdsOf(scopes: set<Scope>, kind: Kind): set<string> {
    set s | s in scopes && s.kind == kind :: s.id
  }

  function EntitiesUnder(w: World, scopes: set<Scope>): set<string> {
    IdsOf(scopes, Entity) + (set e | e in w.companyOf && w.companyOf[e] in IdsOf(scopes, Company))
  }

  function DepartmentsNamed(w: World, scopes: set<Scope>): set<string> {
    IdsOf(scopes, Department)
    + (set d | d in w.departments && d in w.entityOf && w.entityOf[d] in EntitiesUnder(w, scopes))
  }

  /** At or below a named department: `findSubtrees`. */
  predicate InSubtreeOf(w: World, named: set<string>, d: string) {
    && d in w.departments
    && exists root :: root in named && root in w.departments
                   && IsAtOrBelow(w.departments[d].path, w.departments[root].path)
  }

  function DepartmentsUnder(w: World, scopes: set<Scope>): set<string> {
    var named := DepartmentsNamed(w, scopes);
    named + (set d | d in w.departments && InSubtreeOf(w, named, d))
  }

  predicate OwnedUnder(w: World, scopes: set<Scope>, owner: Scope) {
    match owner.kind
    case Company => owner.id in IdsOf(scopes, Company)
    case Entity => owner.id in EntitiesUnder(w, scopes)
    case Department => owner.id in DepartmentsUnder(w, scopes)
    case _ => false
  }

  function LibrariesUnder(w: World, scopes: set<Scope>): set<string> {
    if scopes == {} then {} else set l | l in w.ownerOf && OwnedUnder(w, scopes, w.ownerOf[l])
  }

  predicate IsOrganisational(s: Scope) {
    s.kind in {Company, Entity, Department}
  }

  predicate Names(chain: seq<ChainNode>, s: Scope) {
    exists i :: 0 <= i < |chain| && chain[i].scope == s
  }

  // ----- Paths and ancestry ---------------------------------------------------------------------------

  /** An ancestor named by a path: it is stored, its own path is that much of the chain, and the node is at
      or below it. */
  lemma {:induction false} AncestorOnPath(t: T.Tree, id: string, k: nat)
    requires T.Consistent(t) && id in t
    requires k < |IdsInPath(t[id].path)|
    ensures var ids := IdsInPath(t[id].path);
            && ids[k] in t && IdsInPath(t[ids[k]].path) == ids[..k + 1]
            && IsAtOrBelow(t[id].path, t[ids[k]].path)
    decreases |t[id].path|
  {
    T.PathShape(t, id);
    var parent := t[id].parent;
    PathForReadsBack(T.PathOf(t, parent), id);
    assert T.WellPlaced(t, id);
    var ids := IdsInPath(t[id].path);
    if k == |ids| - 1 {
      assert ids[..k + 1] == ids;
    } else {
      var above := IdsInPath(t[parent.value].path);
      assert ids == above + [id];
      AncestorOnPath(t, parent.value, k);
      assert ids[..k + 1] == above[..k + 1];
      AtOrBelowTransitive(t[id].path, t[parent.value].path, t[above[k]].path);
    }
  }

  /** And conversely: what a path is at or below, it names, at the depth of its own path. */
  lemma BelowIsOnPath(t: T.Tree, id: string, ancestor: string) returns (k: nat)
    requires T.Consistent(t) && id in t && ancestor in t
    requires IsAtOrBelow(t[id].path, t[ancestor].path)
    ensures k < |IdsInPath(t[id].path)| && IdsInPath(t[id].path)[k] == ancestor
    ensures k + 1 == |IdsInPath(t[ancestor].path)|
  {
    assert T.WellPlaced(t, ancestor);
    PathForReadsBack(T.PathOf(t, t[ancestor].parent), ancestor);
    var own := IdsInPath(t[ancestor].path);
    k := |own| - 1;
    if t[id].path != t[ancestor].path {
      var rest := t[id].path[|t[ancestor].path| + 1..];
      assert t[id].path == t[ancestor].path + [SEPARATOR] + rest;
      IdsOfJoinedPaths(t[ancestor].path, rest);
    }
  }

  /** Strictly below on one path is deeper on it. */
  lemma DeeperOnPath(t: T.Tree, id: string, k: nat, j: nat)
    requires T.Consistent(t) && id in t
    requires k < |IdsInPath(t[id].path)| && j < |IdsInPath(t[id].path)|
    ensures var ids := IdsInPath(t[id].path);
            && ids[k] in t && ids[j] in t
            && (t[ids[k]].path + [SEPARATOR] <= t[ids[j]].path <==> k < j)
  {
    var ids := IdsInPath(t[id].path);
    AncestorOnPath(t, id, k);
    AncestorOnPath(t, id, j);
    var upper, lower := t[ids[k]].path, t[ids[j]].path;
    assert |IdsInPath(upper)| == k + 1 && |IdsInPath(lower)| == j + 1;
    if k < j {
      AncestorOnPath(t, ids[j], k);
      assert ids[..j + 1][k] == ids[k];
    } else if IsAtOrBelow(lower, upper) {
      var at := BelowIsOnPath(t, ids[j], ids[k]);
      assert k == at == j;
    }
  }

  // ----- What the stored paths must say -----------------------------------------------------------------

  /** Some `y` stands in the list after every `x`. */
  predicate StandsAfter(ids: seq<string>, x: string, y: string) {
    exists j :: 0 <= j < |ids| && ids[j] == y && x !in ids[j..]
  }

  /** A row's path names exactly the rows whose paths it is at or below. */
  predicate NamesItsAncestors(t: T.Tree, id: string)
    requires id in t
  {
    forall f :: f in t ==> (f in IdsInPath(t[id].path) <==> IsAtOrBelow(t[id].path, t[f].path))
  }

  /** And in the order of their paths. */
  predicate NamesInOrder(t: T.Tree, id: string)
    requires id in t
  {
    var ids := IdsInPath(t[id].path);
    forall x, y :: x in ids && y in ids && x in t && y in t ==>
                     (t[x].path + [SEPARATOR] <= t[y].path <==> StandsAfter(ids, x, y))
  }

  /** A department's path names its ancestors, and they are of its entity. */
  predicate DepartmentIndexed(w: World, d: string)
    requires d in w.departments && d in w.entityOf
  {
    && NamesItsAncestors(w.departments, d)
    && forall e :: e in w.departments && e in w.entityOf && IsAtOrBelow(w.departments[d].path, w.departments[e].path)
              ==> w.entityOf[e] == w.entityOf[d]
  }

  predicate OwnerIndexed(w: World, library: string)
    requires LibraryChain(w, library).Some?
  {
    w.ownerOf[library].kind == Department ==> DepartmentIndexed(w, w.ownerOf[library].id)
  }

  /** What the lists of a document ask of the stored paths: its own folder's, and its library's owner's. */
  predicate WellIndexed(w: World, document: string)
    requires DocumentChain(w, document).Some?
  {
    && NamesItsAncestors(w.folders, w.folderOf[document]) && NamesInOrder(w.folders, w.folderOf[document])
    && OwnerIndexed(w, w.libraryOf[w.folderOf[document]])
  }

  /** Every live path is its parent's and the row's identifier, and a department shares its parent's entity. */
  ghost predicate IsWorld(w: World) {
    && T.Consistent(w.folders) && T.Consistent(w.departments)
    && forall d :: d in w.departments && w.departments[d].parent.Some? ==> SameEntity(w, d, w.departments[d].parent.value)
  }

  predicate SameEntity(w: World, d: string, e: string) {
    d in w.entityOf && e in w.entityOf && w.entityOf[d] == w.entityOf[e]
  }

  lemma ConsistentNames(t: T.Tree, id: string)
    requires T.Consistent(t) && id in t
    ensures NamesItsAncestors(t, id) && NamesInOrder(t, id)
  {
    var ids := IdsInPath(t[id].path);
    forall f | f in t ensures f in ids <==> IsAtOrBelow(t[id].path, t[f].path) {
      if f in ids {
        var k :| 0 <= k < |ids| && ids[k] == f;
        AncestorOnPath(t, id, k);
      }
      if IsAtOrBelow(t[id].path, t[f].path) {
        var k := BelowIsOnPath(t, id, f);
      }
    }
    forall x, y | x in ids && y in ids && x in t && y in t
      ensures t[x].path + [SEPARATOR] <= t[y].path <==> StandsAfter(ids, x, y)
    {
      var k :| 0 <= k < |ids| && ids[k] == x;
      var j :| 0 <= j < |ids| && ids[j] == y;
      OnceOnPath(t, id);
      DeeperOnPath(t, id, k, j);
    }
  }

  /** A row is named once on a path. */
  lemma OnceOnPath(t: T.Tree, id: string)
    requires T.Consistent(t) && id in t
    ensures var ids := IdsInPath(t[id].path);
            forall k, j :: 0 <= k < |ids| && 0 <= j < |ids| && ids[k] == ids[j] ==> k == j
  {
    var ids := IdsInPath(t[id].path);
    forall k, j | 0 <= k < |ids| && 0 <= j < |ids| && ids[k] == ids[j] ensures k == j {
      AncestorOnPath(t, id, k);
      AncestorOnPath(t, id, j);
      assert |ids[..k + 1]| == |ids[..j + 1]|;
    }
  }

  /** A tenant whose live paths are in place has every document indexed. */
  lemma WorldsAreIndexed(w: World, document: string)
    requires IsWorld(w) && DocumentChain(w, document).Some?
    ensures WellIndexed(w, document)
  {
    ConsistentNames(w.folders, w.folderOf[document]);
    var library := w.libraryOf[w.folderOf[document]];
    if w.ownerOf[library].kind == Department {
      var d := w.ownerOf[library].id;
      ConsistentNames(w.departments, d);
      forall e | e in w.departments && e in w.entityOf && IsAtOrBelow(w.departments[d].path, w.departments[e].path)
        ensures w.entityOf[e] == w.entityOf[d]
      {
        var k := BelowIsOnPath(w.departments, d, e);
        AncestorsShareTheEntity(w, d, k);
      }
    }
  }

  /** A department's ancestors are all of its entity. */
  lemma {:induction false} AncestorsShareTheEntity(w: World, d: string, k: nat)
    requires IsWorld(w) && d in w.departments && d in w.entityOf
    requires k < |IdsInPath(w.departments[d].path)|
    ensures SameEntity(w, IdsInPath(w.departments[d].path)[k], d)
    decreases |w.departments[d].path|
  {
    var t := w.departments;
    T.PathShape(t, d);
    PathForReadsBack(T.PathOf(t, t[d].parent), d);
    assert T.WellPlaced(t, d);
    var ids := IdsInPath(t[d].path);
    if k < |ids| - 1 {
      var parent := t[d].parent.value;
      assert ids == IdsInPath(t[parent].path) + [d];
      assert SameEntity(w, d, parent);
      AncestorsShareTheEntity(w, parent, k);
    }
  }

  // ----- Widening and the chain agree -------------------------------------------------------------------

  ghost predicate NamesSome(chain: seq<ChainNode>, scopes: set<Scope>) {
    exists s :: s in scopes && Names(chain, s)
  }

  lemma EntityIsNamed(w: World, scopes: set<Scope>, entity: string)
    requires EntityChain(w, entity).Some?
    requires forall s :: s in scopes ==> IsOrganisational(s)
    ensures entity in EntitiesUnder(w, scopes) <==> NamesSome(EntityChain(w, entity).value, scopes)
  {
    var chain := EntityChain(w, entity).value;
    var company, own := Scope(Company, w.companyOf[entity]), Scope(Entity, entity);
    assert chain[1].scope == company && chain[2].scope == own;
    assert Names(chain, company) && Names(chain, own);
    if entity in EntitiesUnder(w, scopes) {
      assert own in scopes || company in scopes;
    }
    if NamesSome(chain, scopes) {
      var s :| s in scopes && Names(chain, s);
      assert s == company || s == own;
    }
  }

  /** A department is reached by widening from the named nodes exactly when one of them is on its chain. */
  lemma DepartmentIsNamed(w: World, scopes: set<Scope>, d: string)
    requires OrganisationChain(w, Scope(Department, d)).Some? && DepartmentIndexed(w, d)
    requires forall s :: s in scopes ==> IsOrganisational(s)
    ensures Widens(w, scopes, d)
  {
    var ancestry := IdsInPath(w.departments[d].path);
    var above := EntityChain(w, w.entityOf[d]).value;
    EntityIsNamed(w, scopes, w.entityOf[d]);
    NamesInParts(above, ancestry, scopes);
    if d in DepartmentsUnder(w, scopes) {
      WidenedHasANode(w, scopes, d);
    }
    if k :| 0 <= k < |ancestry| && Scope(Department, ancestry[k]) in scopes {
      assert ancestry[k] in ancestry;
      assert ancestry[k] in IdsOf(scopes, Department);
      assert InSubtreeOf(w, DepartmentsNamed(w, scopes), d);
    }
  }

  /** Widening from the nodes and the chain agree on the department. */
  ghost predicate Widens(w: World, scopes: set<Scope>, d: string)
    requires OrganisationChain(w, Scope(Department, d)).Some?
  {
    d in DepartmentsUnder(w, scopes) <==> NamesSome(OrganisationChain(w, Scope(Department, d)).value, scopes)
  }

  lemma NamesInParts(above: seq<ChainNode>, ancestry: seq<string>, scopes: set<Scope>)
    ensures NamesSome(above + DepartmentNodes(ancestry), scopes)
       <==> || NamesSome(above, scopes)
            || exists k :: 0 <= k < |ancestry| && Scope(Department, ancestry[k]) in scopes
  {
    var chain := above + DepartmentNodes(ancestry);
    if NamesSome(chain, scopes) {
      var s :| s in scopes && Names(chain, s);
      var i :| 0 <= i < |chain| && chain[i].scope == s;
      if i < |above| {
        assert above[i].scope == s;
        assert Names(above, s);
      } else {
        assert s == Scope(Department, ancestry[i - |above|]);
      }
    }
    if NamesSome(above, scopes) {
      var s :| s in scopes && Names(above, s);
      var i :| 0 <= i < |above| && above[i].scope == s;
      assert chain[i].scope == s;
      assert Names(chain, s);
    }
    if k :| 0 <= k < |ancestry| && Scope(Department, ancestry[k]) in scopes {
      assert chain[|above| + k].scope == Scope(Department, ancestry[k]);
      assert Names(chain, Scope(Department, ancestry[k]));
    }
  }

  lemma WidenedHasANode(w: World, scopes: set<Scope>, d: string)
    requires d in w.departments && d in w.entityOf && DepartmentIndexed(w, d) && d in DepartmentsUnder(w, scopes)
    ensures || w.entityOf[d] in EntitiesUnder(w, scopes)
            || exists k :: 0 <= k < |IdsInPath(w.departments[d].path)|
                        && Scope(Department, IdsInPath(w.departments[d].path)[k]) in scopes
  {
    var ids := IdsInPath(w.departments[d].path);
    var root := NamedAncestor(w, scopes, d);
    var k :| 0 <= k < |ids| && ids[k] == root;
    if w.entityOf[d] !in EntitiesUnder(w, scopes) {
      assert root in IdsOf(scopes, Department);
      assert Scope(Department, root) in scopes;
    }
  }

  lemma NamedAncestor(w: World, scopes: set<Scope>, d: string) returns (root: string)
    requires d in w.departments && d in DepartmentsUnder(w, scopes)
    ensures root in DepartmentsNamed(w, scopes) && root in w.departments
    ensures IsAtOrBelow(w.departments[d].path, w.departments[root].path)
  {
    var named := DepartmentsNamed(w, scopes);
    if d in named {
      root := d;
    } else {
      root :| root in named && root in w.departments
           && IsAtOrBelow(w.departments[d].path, w.departments[root].path);
    }
  }

  ghost predicate AllOrganisational(scopes: set<Scope>) {
    forall s :: s in scopes ==> IsOrganisational(s)
  }

  /** The condition is exact: widening agrees with the chain from every set of nodes exactly when the department's
      path names its ancestors and they are of its entity. */
  lemma WideningAgreesExactlyWhen(w: World, d: string)
    requires OrganisationChain(w, Scope(Department, d)).Some?
    ensures (forall scopes :: AllOrganisational(scopes) ==> Widens(w, scopes, d)) <==> DepartmentIndexed(w, d)
  {
    if DepartmentIndexed(w, d) {
      forall scopes | AllOrganisational(scopes) ensures Widens(w, scopes, d) {
        DepartmentIsNamed(w, scopes, d);
      }
    }
    if forall scopes :: AllOrganisational(scopes) ==> Widens(w, scopes, d) {
      forall e | e in w.departments
        ensures e in IdsInPath(w.departments[d].path) <==> IsAtOrBelow(w.departments[d].path, w.departments[e].path)
      {
        assert AllOrganisational({Scope(Department, e)});
        WidensFromOne(w, d, e);
      }
      forall e | e in w.departments && e in w.entityOf && IsAtOrBelow(w.departments[d].path, w.departments[e].path)
        ensures w.entityOf[e] == w.entityOf[d]
      {
        assert AllOrganisational({Scope(Entity, w.entityOf[e])});
        WidensFromEntity(w, d, e);
      }
    }
  }

  lemma WidensFromOne(w: World, d: string, e: string)
    requires OrganisationChain(w, Scope(Department, d)).Some? && e in w.departments
    requires Widens(w, {Scope(Department, e)}, d)
    ensures e in IdsInPath(w.departments[d].path) <==> IsAtOrBelow(w.departments[d].path, w.departments[e].path)
  {
    var scopes := {Scope(Department, e)};
    var ancestry := IdsInPath(w.departments[d].path);
    var above := EntityChain(w, w.entityOf[d]).value;
    NamesInParts(above, ancestry, scopes);
    EntityIsNamed(w, scopes, w.entityOf[d]);
    assert Scope(Department, e) in scopes;
    assert IdsOf(scopes, Department) == {e} && IdsOf(scopes, Entity) == {} && IdsOf(scopes, Company) == {};
    assert EntitiesUnder(w, scopes) == {};
    assert DepartmentsNamed(w, scopes) == {e};
    assert d in DepartmentsUnder(w, scopes) <==> IsAtOrBelow(w.departments[d].path, w.departments[e].path);
  }

  lemma WidensFromEntity(w: World, d: string, e: string)
    requires OrganisationChain(w, Scope(Department, d)).Some? && e in w.departments && e in w.entityOf
    requires IsAtOrBelow(w.departments[d].path, w.departments[e].path)
    requires Widens(w, {Scope(Entity, w.entityOf[e])}, d)
    ensures w.entityOf[e] == w.entityOf[d]
  {
    var scopes := {Scope(Entity, w.entityOf[e])};
    var ancestry := IdsInPath(w.departments[d].path);
    var above := EntityChain(w, w.entityOf[d]).value;
    NamesInParts(above, ancestry, scopes);
    EntityIsNamed(w, scopes, w.entityOf[d]);
    assert Scope(Entity, w.entityOf[e]) in scopes;
    assert IdsOf(scopes, Entity) == {w.entityOf[e]} && IdsOf(scopes, Company) == {};
    assert EntitiesUnder(w, scopes) == {w.entityOf[e]};
    assert e in DepartmentsNamed(w, scopes);
    assert InSubtreeOf(w, DepartmentsNamed(w, scopes), d);
  }

  /** Widening organisation nodes to the libraries beneath them inverts the walk up: a library whose chain
      resolves is found exactly when one of the nodes is on its chain. */
  lemma WideningInvertsTheChain(w: World, scopes: set<Scope>, library: string)
    requires LibraryChain(w, library).Some? && OwnerIndexed(w, library)
    requires forall s :: s in scopes ==> IsOrganisational(s)
    ensures library in LibrariesUnder(w, scopes) <==> NamesSome(LibraryChain(w, library).value, scopes)
  {
    var owner := w.ownerOf[library];
    var above := OrganisationChain(w, owner).value;
    var chain := LibraryChain(w, library).value;
    assert chain == above + [Plain(Library, library)];
    if NamesSome(chain, scopes) {
      var s :| s in scopes && Names(chain, s);
      var i :| 0 <= i < |chain| && chain[i].scope == s;
      assert i < |above| && above[i].scope == s;
      assert Names(above, s);
    }
    if NamesSome(above, scopes) {
      var s :| s in scopes && Names(above, s);
      var i :| 0 <= i < |above| && above[i].scope == s;
      assert chain[i].scope == s;
      assert Names(chain, s);
    }
    assert NamesSome(chain, scopes) <==> NamesSome(above, scopes);
    match owner.kind
    case Company =>
      assert above[1].scope == owner;
      assert Names(above, owner);
    case Entity => EntityIsNamed(w, scopes, owner.id);
    case Department => DepartmentIsNamed(w, scopes, owner.id);
    case _ =>
  }
}
