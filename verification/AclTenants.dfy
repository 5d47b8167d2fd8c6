/** The tenants the tree operations can lead to: in which of them lists and direct reads agree, and one in which a
    restored folder (apps/api/src/modules/library/application/library-admin.service.ts) makes them differ. */
module AclTenants {
  import opened Text
  import opened MaterialisedPath
  import T = TreeRuns
  import B = TreeBins
  import opened AclWalk
  import opened AclRegions
  import opened AclVisibility
  import opened AclLists
  import opened AclQuery

  // ----- Tenants whose paths are in place -------------------------------------------------------------

  /** Departments are created and moved under parents of their own entity. */
  predicate OneEntity(w: World, changes: seq<B.Change>) {
    forall k :: 0 <= k < |changes| && changes[k].Place? && changes[k].op.parent.Some? ==>
                  SameEntity(w, changes[k].op.id, changes[k].op.parent.value)
  }

  predicate SharesEntity(w: World, d: string, row: T.Node) {
    row.parent.Some? ==> SameEntity(w, d, row.parent.value)
  }

  ghost predicate EntitiesKept(w: World, s: B.Store) {
    && (forall d :: d in s.live ==> SharesEntity(w, d, s.live[d]))
    && (forall d :: d in s.bin ==> SharesEntity(w, d, s.bin[d].node))
  }

  lemma {:induction false} RunsKeepEntities(w: World, changes: seq<B.Change>, maximumDepth: int)
    requires OneEntity(w, changes)
    ensures EntitiesKept(w, B.After(B.Departments, changes, maximumDepth))
  {
    if changes != [] {
      var front, last := changes[..|changes| - 1], changes[|changes| - 1];
      assert forall k :: 0 <= k < |front| ==> front[k] == changes[k];
      RunsKeepEntities(w, front, maximumDepth);
      assert last.Place? && last.op.parent.Some? ==> SameEntity(w, last.op.id, last.op.parent.value);
    }
  }

  /** Whatever was created, moved, deleted and restored, in folders and departments alike: as long as no restore
      brought back a path its parent had left, every document's lists and reads see the same paths. */
  lemma RunsMakeWorlds(
    w: World, folders: seq<B.Change>, departments: seq<B.Change>, folderDepth: int, departmentDepth: int)
    requires w.folders == B.After(B.Folders, folders, folderDepth).live
    requires w.departments == B.After(B.Departments, departments, departmentDepth).live
    requires B.NothingStale(B.Folders, folders, folderDepth)
    requires B.NothingStale(B.Departments, departments, departmentDepth) && OneEntity(w, departments)
    ensures IsWorld(w)
    ensures forall document :: DocumentChain(w, document).Some? ==> WellIndexed(w, document)
  {
    B.RunIsSound(B.Folders, folders, folderDepth);
    B.RunIsSound(B.Departments, departments, departmentDepth);
    RunsKeepEntities(w, departments, departmentDepth);
    forall d | d in w.departments && w.departments[d].parent.Some?
      ensures SameEntity(w, d, w.departments[d].parent.value)
    {
      assert SharesEntity(w, d, w.departments[d]);
    }
    forall document | DocumentChain(w, document).Some? ensures WellIndexed(w, document) {
      WorldsAreIndexed(w, document);
    }
  }

  // ----- A tenant with a restored folder --------------------------------------------------------------

  /** The folders of the run that deletes `b`, moves its parent `a` and restores `b`, and a document in `b`. */
  const RESTORED: World := World(
    "t", {}, map[], map[], map[],
    map["l" := Scope(Tenant, "t")],
    B.STALE, map["r" := "l", "a" := "l", "b" := "l", "c" := "l"], {},
    map["d" := "b"])

  function RestoredChain(): seq<ChainNode> {
    [Plain(Tenant, "t"), Plain(Library, "l"), Plain(Folder, "r"), Plain(Folder, "a"), Plain(Folder, "b"),
     Plain(Document, "d")]
  }

  /** The chain goes by the path `b` kept, through `a`; the tree the paths of which it is read from does not. */
  lemma RestoredHasAChain()
    ensures DocumentChain(RESTORED, "d") == Some(RestoredChain())
    ensures PlaceOf(RESTORED, "d") == Place("d", "r.a.b", "l")
    ensures !WellIndexed(RESTORED, "d")
  {
    B.SmallDepths();
    var ids := ["r", "a", "b"];
    assert FolderNodes(RESTORED, ids) == [Plain(Folder, "r"), Plain(Folder, "a"), Plain(Folder, "b")];
    assert AllIn(ids, RESTORED.folders);
    assert [Plain(Tenant, "t")] + [Plain(Library, "l")] + FolderNodes(RESTORED, ids) + [Plain(Document, "d")]
        == RestoredChain();
    B.StaleMisreads();
    assert "a" in ids;
  }

  lemma RestoredWalkIsWhole(survivesBreaks: bool)
    ensures Start(RestoredChain(), survivesBreaks) == 0
    ensures RestoredChain()[Start(RestoredChain(), survivesBreaks)..] == RestoredChain()
    ensures OnChain(RestoredChain(), "a") && ReachesTenant(RestoredChain())
  {
    var chain := RestoredChain();
    StartIsBelowNoBreak(chain, survivesBreaks, 0);
    assert chain[3].scope.id == "a";
  }

  lemma RestoredIsSited(e: Entry)
    requires e.scope == Scope(Folder, "a")
    ensures Sited(RESTORED, RestoredChain(), e)
  {
    var chain := RestoredChain();
    forall i | 0 <= i < |chain| && chain[i].scope.id == e.scope.id ensures chain[i].scope == e.scope {
    }
  }

  // ----- One entry on one folder ------------------------------------------------------------------------

  /** What is read for one entry of a caller. */
  ghost predicate ReadsOf(
    w: World, document: string, e: Entry, c: Caller, survivesBreaks: bool,
    allowFolders: seq<string>, denyFolders: seq<string>)
    requires DocumentChain(w, document).Some?
  {
    var chain := DocumentChain(w, document).value;
    && IsMatch([e], {e}, c) && IsChainMatch([e], chain[Start(chain, survivesBreaks)..], {e}, c)
    && AllSited(w, document, [e]) && AreFolderReads(w, [e], 1, allowFolders, denyFolders)
  }

  function IfEffect(e: Entry, effect: Effect, f: string): seq<string> {
    if e.effect == effect then [f] else []
  }

  lemma OneRead(w: World, document: string, e: Entry, c: Caller, survivesBreaks: bool, f: string)
    requires DocumentChain(w, document).Some? && f in w.folders
    requires e.scope == Scope(Folder, f) && e.subjectId in CallerSubjectIds(c)
    requires Sited(w, DocumentChain(w, document).value, e)
    requires var chain := DocumentChain(w, document).value; OnChain(chain[Start(chain, survivesBreaks)..], f)
    ensures ReadsOf(w, document, e, c, survivesBreaks, IfEffect(e, Allow, f), IfEffect(e, Deny, f))
  {
    assert e in [e] && e in {e};
    OneFolderRead(w, e, f, Allow);
    OneFolderRead(w, e, f, Deny);
    assert Readable([e], 1) == [e];
  }

  lemma OneFolderRead(w: World, e: Entry, f: string, effect: Effect)
    requires f in w.folders && e.scope == Scope(Folder, f)
    ensures IsFolderRead(w, WithEffect([e], effect), IfEffect(e, effect, f))
    ensures forall i :: 0 <= i < |IfEffect(e, effect, f)| ==> IfEffect(e, effect, f)[i] in w.folders
  {
    EffectOfOne(e, effect);
    assert e in [e];
  }

  lemma RegionsOfOneFolder(w: World, e: Entry, f: string, cuts: set<string>)
    requires f in w.folders && e.scope == Scope(Folder, f)
    ensures RegionsFor(w, [e], [f], cuts, false) == [FolderRegion(w.folders[f].path, cuts)]
  {
    assert SourceIds([e], Document) == {} && SourceIds([e], Tenant) == {} && SourceIds([e], Library) == {};
    assert OrganisationScopes([e]) == {};
    assert RegionLibraries(w, [e]) == {};
    assert FolderRegions(w, [f], cuts) == [FolderRegion(w.folders[f].path, cuts)];
  }

  /** The filter of a caller with one entry, on one folder, who holds the permission by role or does not. */
  lemma FilterOfOneFolder(w: World, e: Entry, f: string, survivesBreaks: bool)
    requires f in w.folders && e.scope == Scope(Folder, f)
    ensures forall i :: 0 <= i < |IfEffect(e, Allow, f)| ==> IfEffect(e, Allow, f)[i] in w.folders
    ensures forall i :: 0 <= i < |IfEffect(e, Deny, f)| ==> IfEffect(e, Deny, f)[i] in w.folders
    ensures var region, cuts := FolderRegion(w.folders[f].path, Cuts(w, survivesBreaks)), Cuts(w, survivesBreaks);
            VisibilityFilter(w, survivesBreaks, [e], 1, e.effect == Deny, IfEffect(e, Allow, f), IfEffect(e, Deny, f))
              == if e.effect == Allow then Filter([region], []) else Filter([Everything(cuts)], [region])
  {
    EffectOfOne(e, Allow);
    EffectOfOne(e, Deny);
    RegionsOfOneFolder(w, e, f, Cuts(w, survivesBreaks));
    RegionsOfNothing(w, Cuts(w, survivesBreaks), e.effect == Deny);
    RegionsOfNothing(w, Cuts(w, survivesBreaks), false);
    assert Readable([e], 1) == [e];
  }

  /** The direct read of a document with that entry on its effective chain is the entry's effect. */
  lemma OneEntryDecides(chain: seq<ChainNode>, survivesBreaks: bool, e: Entry, c: Caller, permission: string)
    requires IsCaller(c) && e.subjectId in CallerSubjectIds(c)
    requires OnChain(chain[Start(chain, survivesBreaks)..], e.scope.id)
    ensures Resolve(chain, survivesBreaks, [e], c, permission).allowed <==> e.effect == Allow
  {
    assert e in [e] && e in {e};
    ResolveIsDenyWins(chain, survivesBreaks, [e], {e}, c, permission);
  }

  lemma MovedRegionMisses()
    ensures !CoveredBy([FolderRegion("r.c.a", {})], Place("d", "r.a.b", "l"))
    ensures CoveredBy([Everything({})], Place("d", "r.a.b", "l"))
  {
    B.StaleMisreads();
    var regions := [FolderRegion("r.c.a", {})];
    assert regions[0].folderPaths == ["r.c.a"];
    assert Covers([Everything({})][0], Place("d", "r.a.b", "l"));
  }

  /** With one entry on the folder `a`, the direct read goes by the path the restored `b` kept, through `a`, and the
      filter by the path `a` has now. They differ both ways: an allow lets the read in and the filter does not reach
      the document; a deny keeps the read out, and the filter of a caller whose roles hold the permission reaches it. */
  lemma RestoredFolderDisagrees(e: Entry, c: Caller, permission: string, survivesBreaks: bool, maximumDepth: int)
    requires maximumDepth >= 3 && IsCaller(c) && (permission in c.grants <==> e.effect == Deny)
    requires e.scope == Scope(Folder, "a") && e.subjectId in CallerSubjectIds(c)
    ensures RESTORED.folders == B.After(B.Folders, B.STALE_RUN, maximumDepth).live
    ensures DocumentChain(RESTORED, "d").Some?
    ensures ReadsOf(RESTORED, "d", e, c, survivesBreaks, IfEffect(e, Allow, "a"), IfEffect(e, Deny, "a"))
    ensures Resolve(DocumentChain(RESTORED, "d").value, survivesBreaks, [e], c, permission).allowed
       <==> e.effect == Allow
    ensures Reaches(
              VisibilityFilter(RESTORED, survivesBreaks, [e], 1, permission in c.grants,
                               IfEffect(e, Allow, "a"), IfEffect(e, Deny, "a")),
              PlaceOf(RESTORED, "d"))
       <==> e.effect == Deny
  {
    B.RestoreLeavesTheIndex(B.Folders, maximumDepth);
    RestoredHasAChain();
    RestoredWalkIsWhole(survivesBreaks);
    RestoredIsSited(e);
    OneRead(RESTORED, "d", e, c, survivesBreaks, "a");
    OneEntryDecides(RestoredChain(), survivesBreaks, e, c, permission);
    FilterOfOneFolder(RESTORED, e, "a", survivesBreaks);
    assert Cuts(RESTORED, survivesBreaks) == {};
    assert CutsBelow({}, "r.c.a") == {};
    MovedRegionMisses();
  }
}
