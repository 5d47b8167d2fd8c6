/** The scope chain of a document, read from the stored paths
    (apps/api/src/modules/library/infrastructure/prisma-scope-chain.reader.ts), against the chain one gets by going
    up from row to parent row, one link at a time. */
module AclChains {
  import opened Text
  import opened MaterialisedPath
  import T = TreeRuns
  import opened AclWalk
  import opened AclRegions

  /** The scope directly above: what the row names as its parent, its library, its owner, its entity or its company.
      None for the tenant, and for a row that is not there. */
  function ParentScope(w: World, s: Scope): Option<Scope> {
    match s.kind
    case Document => if s.id in w.folderOf then Some(Scope(Folder, w.folderOf[s.id])) else None
    case Folder =>
      if s.id !in w.folders then None
      else if w.folders[s.id].parent.Some? then Some(Scope(Folder, w.folders[s.id].parent.value))
      else if s.id in w.libraryOf then Some(Scope(Library, w.libraryOf[s.id])) else None
    case Library =>
      if s.id !in w.ownerOf then None
      else if w.ownerOf[s.id].kind == Tenant then Some(Scope(Tenant, w.tenant))
      else if IsOrganisational(w.ownerOf[s.id]) then Some(w.ownerOf[s.id]) else None
    case Department =>
      if s.id !in w.departments then None
      else if w.departments[s.id].parent.Some? then Some(Scope(Department, w.departments[s.id].parent.value))
      else if s.id in w.entityOf then Some(Scope(Entity, w.entityOf[s.id])) else None
    case Entity => if s.id in w.companyOf then Some(Scope(Company, w.companyOf[s.id])) else None
    case Company => if s.id in w.companies then Some(Scope(Tenant, w.tenant)) else None
    case Tenant => None
  }

  function Level(kind: Kind): nat {
    match kind
    case Tenant => 0
    case Company => 1
    case Entity => 2
    case Department => 3
    case Library => 4
    case Folder => 5
    case Document => 6
  }

  function PathLength(w: World, s: Scope): nat {
    if s.kind == Folder && s.id in w.folders then |w.folders[s.id].path|
    else if s.kind == Department && s.id in w.departments then |w.departments[s.id].path|
    else 0
  }

  lemma ParentIsHigher(w: World, s: Scope)
    requires IsWorld(w) && ParentScope(w, s).Some?
    ensures var up := ParentScope(w, s).value;
            Level(up.kind) < Level(s.kind) || (up.kind == s.kind && PathLength(w, up) < PathLength(w, s))
  {
    if s.kind == Folder {
      T.PathShape(w.folders, s.id);
    } else if s.kind == Department {
      T.PathShape(w.departments, s.id);
    }
  }

  /** The way from the tenant down to a scope, found by going up: nothing when some row on it is not there. */
  ghost function WayDown(w: World, s: Scope): Option<seq<ChainNode>>
    requires IsWorld(w)
    decreases Level(s.kind), PathLength(w, s)
  {
    var node := ChainNode(s, s.kind == Folder && s.id in w.broken);
    if s.kind == Tenant then Some([node])
    else
      var up := ParentScope(w, s);
      if up.None? then None
      else
        ParentIsHigher(w, s);
        var above := WayDown(w, up.value);
        if above.None? then None else Some(above.value + [node])
  }

  /** A folder is created and moved under parents of its own library. */
  predicate SameLibrary(w: World, f: string, g: string) {
    f in w.libraryOf && g in w.libraryOf && w.libraryOf[f] == w.libraryOf[g]
  }

  predicate LibrariesShared(w: World) {
    forall f :: f in w.folders && w.folders[f].parent.Some? ==> SameLibrary(w, f, w.folders[f].parent.value)
  }

  lemma AllAncestorsAreThere(t: T.Tree, id: string)
    requires T.Consistent(t) && id in t
    ensures AllIn(IdsInPath(t[id].path), t)
  {
    forall k | 0 <= k < |IdsInPath(t[id].path)| ensures IdsInPath(t[id].path)[k] in t {
      AncestorOnPath(t, id, k);
    }
  }

  lemma IdsBelowTheParent(t: T.Tree, id: string)
    requires T.Consistent(t) && id in t
    ensures t[id].parent.Some? ==>
              t[id].parent.value in t && IdsInPath(t[id].path) == IdsInPath(t[t[id].parent.value].path) + [id]
    ensures t[id].parent.None? ==> IdsInPath(t[id].path) == [id]
  {
    assert T.WellPlaced(t, id);
    PathForReadsBack(T.PathOf(t, t[id].parent), id);
  }

  lemma CompanyWay(w: World, company: string)
    requires IsWorld(w)
    ensures WayDown(w, Scope(Company, company))
         == if company in w.companies then Some([Plain(Tenant, w.tenant), Plain(Company, company)]) else None
  {
    assert WayDown(w, Scope(Tenant, w.tenant)) == Some([Plain(Tenant, w.tenant)]);
    assert [Plain(Tenant, w.tenant)] + [Plain(Company, company)] == [Plain(Tenant, w.tenant), Plain(Company, company)];
  }

  lemma EntityWay(w: World, entity: string)
    requires IsWorld(w)
    ensures WayDown(w, Scope(Entity, entity)) == EntityChain(w, entity)
  {
    if entity in w.companyOf {
      var company := w.companyOf[entity];
      CompanyWay(w, company);
      assert [Plain(Tenant, w.tenant), Plain(Company, company)] + [Plain(Entity, entity)]
          == [Plain(Tenant, w.tenant), Plain(Company, company), Plain(Entity, entity)];
    }
  }

  lemma {:induction false} DepartmentWay(w: World, d: string)
    requires IsWorld(w)
    ensures WayDown(w, Scope(Department, d)) == OrganisationChain(w, Scope(Department, d))
    decreases PathLength(w, Scope(Department, d))
  {
    if d in w.departments {
      AllAncestorsAreThere(w.departments, d);
      IdsBelowTheParent(w.departments, d);
      var parent := w.departments[d].parent;
      if parent.Some? {
        assert SameEntity(w, d, parent.value);
        ParentIsHigher(w, Scope(Department, d));
        DepartmentWay(w, parent.value);
        AllAncestorsAreThere(w.departments, parent.value);
        var ids := IdsInPath(w.departments[parent.value].path);
        assert DepartmentNodes(ids + [d]) == DepartmentNodes(ids) + [Plain(Department, d)];
        var above := EntityChain(w, w.entityOf[d]);
        if above.Some? {
          assert above.value + DepartmentNodes(ids + [d])
              == (above.value + DepartmentNodes(ids)) + [Plain(Department, d)];
        }
      } else if d in w.entityOf {
        EntityWay(w, w.entityOf[d]);
        assert DepartmentNodes([d]) == [Plain(Department, d)];
      }
    }
  }

  lemma LibraryWay(w: World, library: string)
    requires IsWorld(w)
    ensures WayDown(w, Scope(Library, library)) == LibraryChain(w, library)
  {
    if library in w.ownerOf {
      var owner := w.ownerOf[library];
      match owner.kind
      case Tenant =>
        assert WayDown(w, Scope(Tenant, w.tenant)) == Some([Plain(Tenant, w.tenant)]);
      case Company =>
        CompanyWay(w, owner.id);
      case Entity => EntityWay(w, owner.id);
      case Department => DepartmentWay(w, owner.id);
      case _ =>
    }
  }

  lemma {:induction false} FolderWay(w: World, folder: string)
    requires IsWorld(w) && LibrariesShared(w)
    ensures WayDown(w, Scope(Folder, folder)) == FolderChain(w, folder)
    decreases PathLength(w, Scope(Folder, folder))
  {
    if folder in w.folders {
      AllAncestorsAreThere(w.folders, folder);
      IdsBelowTheParent(w.folders, folder);
      var parent := w.folders[folder].parent;
      var node := ChainNode(Scope(Folder, folder), folder in w.broken);
      if parent.Some? {
        assert SameLibrary(w, folder, parent.value);
        ParentIsHigher(w, Scope(Folder, folder));
        FolderWay(w, parent.value);
        AllAncestorsAreThere(w.folders, parent.value);
        var ids := IdsInPath(w.folders[parent.value].path);
        assert FolderNodes(w, ids + [folder]) == FolderNodes(w, ids) + [node];
        var above := LibraryChain(w, w.libraryOf[folder]);
        if above.Some? {
          assert above.value + FolderNodes(w, ids + [folder]) == (above.value + FolderNodes(w, ids)) + [node];
        }
      } else if folder in w.libraryOf {
        LibraryWay(w, w.libraryOf[folder]);
        assert FolderNodes(w, [folder]) == [node];
      }
    }
  }

  /** The chain one read per table assembles is the chain of parent rows, with the same breaks; and it is missing
      exactly when a row on the way up is. */
  lemma ChainIsTheWayUp(w: World, document: string)
    requires IsWorld(w) && LibrariesShared(w)
    ensures DocumentChain(w, document) == WayDown(w, Scope(Document, document))
  {
    if document in w.folderOf {
      FolderWay(w, w.folderOf[document]);
    }
  }
}
