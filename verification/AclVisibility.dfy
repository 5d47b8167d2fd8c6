/** The regions a caller's entries cover, against the walk
    (apps/api/src/modules/library/infrastructure/prisma-acl.resolver.ts). */
module AclVisibility {
  import opened Text
  import opened MaterialisedPath
  import T = TreeRuns
  import opened AclWalk
  import opened AclRegions

  /** One container the caller reaches or is refused, and the folder subtrees cut out of it. */
  datatype Region = Region(
    tenantWide: bool, libraries: set<string>, folderPaths: seq<string>, documents: set<string>,
    excluded: set<string>)

  /** A document row, as the list predicate sees it. */
  datatype Place = Place(id: string, path: string, library: string)

  function PlaceOf(w: World, document: string): Place
    requires DocumentChain(w, document).Some?
  {
    var folder := w.folderOf[document];
    Place(document, w.folders[folder].path, w.libraryOf[folder])
  }

  predicate InAny(paths: set<string>, path: string) {
    exists p :: p in paths && IsAtOrBelow(path, p)
  }

  predicate InRoots(paths: seq<string>, path: string) {
    exists i :: 0 <= i < |paths| && IsAtOrBelow(path, paths[i])
  }

  predicate Covers(r: Region, d: Place) {
    && (r.tenantWide || d.library in r.libraries || InRoots(r.folderPaths, d.path) || d.id in r.documents)
    && !InAny(r.excluded, d.path)
  }

  function BrokenPaths(w: World): set<string> {
    set f | f in w.folders && f in w.broken :: w.folders[f].path
  }

  function Cuts(w: World, survivesBreaks: bool): set<string> {
    if survivesBreaks then {} else BrokenPaths(w)
  }

  /** The breaks strictly beneath a folder. */
  function CutsBelow(cuts: set<string>, path: string): set<string> {
    set cut | cut in cuts && path + [SEPARATOR] <= cut
  }

  /** The folder rows read for the sources, in any order. */
  ghost predicate IsFolderRead(w: World, sources: seq<Entry>, rows: seq<string>) {
    forall f :: f in rows <==>
                f in w.folders && exists e :: e in sources && e.scope == Scope(Folder, f)
  }

  function SourceIds(sources: seq<Entry>, kind: Kind): set<string> {
    set e | e in sources && e.scope.kind == kind :: e.scope.id
  }

  function OrganisationScopes(sources: seq<Entry>): set<Scope> {
    set e | e in sources && IsOrganisational(e.scope) :: e.scope
  }

  function RegionLibraries(w: World, sources: seq<Entry>): set<string> {
    SourceIds(sources, Library) + LibrariesUnder(w, OrganisationScopes(sources))
  }

  function MainRegion(w: World, sources: seq<Entry>, cuts: set<string>, tenantWide: bool): seq<Region> {
    var wide := tenantWide || SourceIds(sources, Tenant) != {};
    var libraries := RegionLibraries(w, sources);
    if wide || libraries != {} then [Region(wide, libraries, [], {}, cuts)] else []
  }

  function FolderRegion(path: string, cuts: set<string>): Region {
    Region(false, {}, [path], {}, CutsBelow(cuts, path))
  }

  function FolderRegions(w: World, rows: seq<string>, cuts: set<string>): seq<Region>
    requires forall i :: 0 <= i < |rows| ==> rows[i] in w.folders
  {
    seq(|rows|, i requires 0 <= i < |rows| => FolderRegion(w.folders[rows[i]].path, cuts))
  }

  function DocumentRegion(sources: seq<Entry>): seq<Region> {
    var documents := SourceIds(sources, Document);
    if documents != {} then [Region(false, {}, [], documents, {})] else []
  }

  function RegionsFor(w: World, sources: seq<Entry>, rows: seq<string>, cuts: set<string>, tenantWide: bool)
    : seq<Region>
    requires forall i :: 0 <= i < |rows| ==> rows[i] in w.folders
  {
    MainRegion(w, sources, cuts, tenantWide) + FolderRegions(w, rows, cuts) + DocumentRegion(sources)
  }

  predicate CoveredBy(regions: seq<Region>, d: Place) {
    exists i :: 0 <= i < |regions| && Covers(regions[i], d)
  }

  // ----- Which nodes contribute -----------------------------------------------------------------------

  /** The node is on the effective chain. */
  predicate Contributes(chain: seq<ChainNode>, survivesBreaks: bool, s: Scope) {
    exists i :: Start(chain, survivesBreaks) <= i < |chain| && chain[i].scope == s
  }

  /** The parts of a document's chain. */
  lemma ChainParts(w: World, document: string)
    returns (above: seq<ChainNode>, ids: seq<string>, chain: seq<ChainNode>)
    requires DocumentChain(w, document).Some?
    ensures LibraryChain(w, PlaceOf(w, document).library) == Some(above)
    ensures ids == IdsInPath(PlaceOf(w, document).path) && AllIn(ids, w.folders)
    ensures chain == DocumentChain(w, document).value == above + FolderNodes(w, ids) + [Plain(Document, document)]
    ensures |chain| == |above| + |ids| + 1
    ensures forall i :: 0 <= i < |above| ==> chain[i] == above[i]
    ensures forall j :: 0 <= j < |ids| ==> chain[|above| + j] == ChainNode(Scope(Folder, ids[j]), ids[j] in w.broken)
    ensures forall i :: |above| <= i < |chain| - 1 ==>
              chain[i].scope.kind == Folder && chain[i].breaks == (ids[i - |above|] in w.broken)
    ensures chain[|above| + |ids|] == Plain(Document, document)
    ensures |above| > 0 && above[0].scope == Scope(Tenant, w.tenant)
    ensures forall i :: 0 <= i < |above| ==> !above[i].breaks && above[i].scope.kind !in {Folder, Document}
  {
    above := LibraryChain(w, PlaceOf(w, document).library).value;
    ids := IdsInPath(PlaceOf(w, document).path);
    chain := DocumentChain(w, document).value;
    LibraryChainIsPlain(w, PlaceOf(w, document).library);
  }

  lemma LibraryChainIsPlain(w: World, library: string)
    requires LibraryChain(w, library).Some?
    ensures var above := LibraryChain(w, library).value;
            && |above| > 0 && above[0].scope == Scope(Tenant, w.tenant)
            && forall i :: 0 <= i < |above| ==> !above[i].breaks && above[i].scope.kind !in {Folder, Document}
  {
  }

  /** A document lies in a cut exactly when some folder on its chain breaks and the permission does not
      survive that. */
  lemma CutIsABreakOnTheChain(w: World, document: string, survivesBreaks: bool)
    requires DocumentChain(w, document).Some? && NamesItsAncestors(w.folders, w.folderOf[document])
    ensures InAny(Cuts(w, survivesBreaks), PlaceOf(w, document).path)
       <==> !survivesBreaks && exists j :: 0 <= j < |IdsInPath(PlaceOf(w, document).path)|
                                        && IdsInPath(PlaceOf(w, document).path)[j] in w.broken
  {
    var path := PlaceOf(w, document).path;
    var ids := IdsInPath(path);
    if InAny(Cuts(w, survivesBreaks), path) {
      var cut :| cut in BrokenPaths(w) && IsAtOrBelow(path, cut);
      var f :| f in w.folders && f in w.broken && w.folders[f].path == cut;
      assert f in ids;
    }
    if !survivesBreaks && exists j :: 0 <= j < |ids| && ids[j] in w.broken {
      var j :| 0 <= j < |ids| && ids[j] in w.broken;
      assert ids[j] in ids;
      assert w.folders[ids[j]].path in BrokenPaths(w);
    }
  }

  lemma WalkStartsAbove(w: World, document: string, survivesBreaks: bool, i: nat)
    requires DocumentChain(w, document).Some? && WellIndexed(w, document)
    requires LibraryChain(w, PlaceOf(w, document).library).Some?
    requires i < |LibraryChain(w, PlaceOf(w, document).library).value|
    ensures Start(DocumentChain(w, document).value, survivesBreaks) <= i
       <==> !InAny(Cuts(w, survivesBreaks), PlaceOf(w, document).path)
  {
    var above, ids, chain := ChainParts(w, document);
    CutIsABreakOnTheChain(w, document, survivesBreaks);
    StartIsBelowNoBreak(chain, survivesBreaks, i);
    if j :| 0 <= j < |ids| && ids[j] in w.broken {
      assert chain[|above| + j].breaks;
    }
  }

  /** A node above the folders contributes to documents outside every cut. */
  lemma NodesAboveFolders(w: World, document: string, survivesBreaks: bool, s: Scope)
    requires DocumentChain(w, document).Some? && WellIndexed(w, document)
    requires s.kind !in {Folder, Document}
    ensures Contributes(DocumentChain(w, document).value, survivesBreaks, s)
       <==> && Names(LibraryChain(w, PlaceOf(w, document).library).value, s)
            && !InAny(Cuts(w, survivesBreaks), PlaceOf(w, document).path)
  {
    var above, ids, chain := ChainParts(w, document);
    if Contributes(chain, survivesBreaks, s) {
      var i :| Start(chain, survivesBreaks) <= i < |chain| && chain[i].scope == s;
      assert i < |above| && above[i].scope == s;
      WalkStartsAbove(w, document, survivesBreaks, i);
    }
    if Names(above, s) && !InAny(Cuts(w, survivesBreaks), PlaceOf(w, document).path) {
      var i :| 0 <= i < |above| && above[i].scope == s;
      assert chain[i].scope == s;
      WalkStartsAbove(w, document, survivesBreaks, i);
    }
  }

  /** A folder is on the effective chain: named by the path, and no break named after it. */
  lemma FolderOnTheChain(w: World, document: string, survivesBreaks: bool, f: string)
    requires DocumentChain(w, document).Some?
    ensures var ids := IdsInPath(PlaceOf(w, document).path);
            Contributes(DocumentChain(w, document).value, survivesBreaks, Scope(Folder, f)) ==
              (f in ids && (survivesBreaks || forall b :: b in w.broken && b in ids ==> !StandsAfter(ids, f, b)))
  {
    var above, ids, chain := ChainParts(w, document);
    if Contributes(chain, survivesBreaks, Scope(Folder, f)) {
      var i :| Start(chain, survivesBreaks) <= i < |chain| && chain[i].scope == Scope(Folder, f);
      assert i >= |above| && ids[i - |above|] == f by { assert chain[|above| + (i - |above|)].scope.id == f; }
      StartIsBelowNoBreak(chain, survivesBreaks, i);
      forall j | !survivesBreaks && i - |above| < j < |ids| ensures ids[j] !in w.broken {
        assert !chain[|above| + j].breaks;
      }
      forall b ensures StandsAfter(ids, f, b) ==> exists j :: i - |above| < j < |ids| && ids[j] == b {
        StandsFurtherOn(ids, f, b, i - |above|);
      }
    }
    if f in ids && (survivesBreaks || forall b :: b in w.broken && b in ids ==> !StandsAfter(ids, f, b)) {
      var k := LastAt(ids, f);
      StartIsBelowNoBreak(chain, survivesBreaks, |above| + k);
      forall j | k < j < |ids| ensures StandsAfter(ids, f, ids[j]) && ids[j] in ids {
      }
      assert forall j :: !survivesBreaks && k < j < |ids| ==> ids[j] !in w.broken;
      assert chain[|above| + k].scope == Scope(Folder, f);
    }
  }

  lemma StandsFurtherOn(ids: seq<string>, x: string, y: string, k: nat)
    requires k < |ids| && ids[k] == x
    ensures StandsAfter(ids, x, y) ==> exists j :: k < j < |ids| && ids[j] == y
  {
    forall j | 0 <= j <= k ensures x in ids[j..] {
      assert ids[j..][k - j] == x;
    }
  }

  lemma LastAt(ids: seq<string>, x: string) returns (k: nat)
    requires x in ids
    ensures k < |ids| && ids[k] == x && forall j :: k < j < |ids| ==> x !in ids[j..]
  {
    k :| 0 <= k < |ids| && ids[k] == x;
    while x in ids[k + 1..]
      invariant k < |ids| && ids[k] == x
      decreases |ids| - k
    {
      var i :| 0 <= i < |ids[k + 1..]| && ids[k + 1..][i] == x;
      k := k + 1 + i;
    }
    forall j | k < j < |ids| ensures x !in ids[j..] {
      assert ids[j..] == ids[k + 1..][j - k - 1..];
    }
  }

  /** A folder's region covers a document: below the folder's path, and below no break's beneath that. */
  lemma FolderRegionHolds(w: World, document: string, survivesBreaks: bool, f: string)
    requires DocumentChain(w, document).Some? && f in w.folders
    ensures var path := PlaceOf(w, document).path;
            Covers(FolderRegion(w.folders[f].path, Cuts(w, survivesBreaks)), PlaceOf(w, document)) ==
              (&& IsAtOrBelow(path, w.folders[f].path)
               && (survivesBreaks || forall b :: b in w.broken && b in w.folders && IsAtOrBelow(path, w.folders[b].path)
                                       ==> !(w.folders[f].path + [SEPARATOR] <= w.folders[b].path)))
  {
    var path, own := PlaceOf(w, document).path, w.folders[f].path;
    var cuts := CutsBelow(Cuts(w, survivesBreaks), own);
    assert InRoots([own], path) <==> IsAtOrBelow(path, own) by { assert [own][0] == own; }
    if InAny(cuts, path) {
      var cut :| cut in cuts && IsAtOrBelow(path, cut);
      var b :| b in w.folders && b in w.broken && w.folders[b].path == cut;
    }
    forall b | !survivesBreaks && b in w.broken && b in w.folders && own + [SEPARATOR] <= w.folders[b].path
      ensures w.folders[b].path in cuts
    {
    }
  }

  /** A folder contributes to exactly the documents its region covers. */
  ghost predicate FolderAgrees(w: World, document: string, survivesBreaks: bool, f: string)
    requires DocumentChain(w, document).Some?
  {
    Contributes(DocumentChain(w, document).value, survivesBreaks, Scope(Folder, f)) ==
      (f in w.folders && Covers(FolderRegion(w.folders[f].path, Cuts(w, survivesBreaks)), PlaceOf(w, document)))
  }

  lemma FolderNode(w: World, document: string, survivesBreaks: bool, f: string)
    requires DocumentChain(w, document).Some?
    requires NamesItsAncestors(w.folders, w.folderOf[document]) && NamesInOrder(w.folders, w.folderOf[document])
    ensures FolderAgrees(w, document, survivesBreaks, f)
  {
    var ids := IdsInPath(PlaceOf(w, document).path);
    FolderOnTheChain(w, document, survivesBreaks, f);
    if f in w.folders {
      FolderRegionHolds(w, document, survivesBreaks, f);
    }
  }

  /** The same world with other folders breaking inheritance. */
  function Rebroken(w: World, broken: set<string>): World {
    w.(broken := broken)
  }

  lemma RebrokenChain(w: World, broken: set<string>, document: string)
    requires DocumentChain(w, document).Some?
    ensures DocumentChain(Rebroken(w, broken), document).Some?
    ensures PlaceOf(Rebroken(w, broken), document) == PlaceOf(w, document)
  {
    var library := w.libraryOf[w.folderOf[document]];
    assert LibraryChain(Rebroken(w, broken), library) == LibraryChain(w, library);
  }

  ghost predicate FoldersAgree(w: World, document: string) {
    forall broken, survivesBreaks, f ::
      DocumentChain(Rebroken(w, broken), document).Some? ==>
        FolderAgrees(Rebroken(w, broken), document, survivesBreaks, f)
  }

  /** The condition is exact: folders contribute to the documents their regions cover, wherever inheritance is
      broken, exactly when the document's folder names its ancestors, in the order of their paths. */
  lemma FoldersAgreeExactlyWhen(w: World, document: string)
    requires DocumentChain(w, document).Some?
    ensures FoldersAgree(w, document) <==>
            NamesItsAncestors(w.folders, w.folderOf[document]) && NamesInOrder(w.folders, w.folderOf[document])
  {
    var folder := w.folderOf[document];
    if NamesItsAncestors(w.folders, folder) && NamesInOrder(w.folders, folder) {
      forall broken, survivesBreaks, f | DocumentChain(Rebroken(w, broken), document).Some?
        ensures FolderAgrees(Rebroken(w, broken), document, survivesBreaks, f)
      {
        FolderNode(Rebroken(w, broken), document, survivesBreaks, f);
      }
    }
    if FoldersAgree(w, document) {
      AgreeingNames(w, document);
      AgreeingOrder(w, document);
    }
  }

  lemma AgreeingNames(w: World, document: string)
    requires DocumentChain(w, document).Some? && FoldersAgree(w, document)
    ensures NamesItsAncestors(w.folders, w.folderOf[document])
  {
    var ids := IdsInPath(PlaceOf(w, document).path);
    forall f | f in w.folders ensures f in ids <==> IsAtOrBelow(PlaceOf(w, document).path, w.folders[f].path) {
      assert Rebroken(w, w.broken) == w;
      assert FolderAgrees(Rebroken(w, w.broken), document, true, f);
      FolderOnTheChain(w, document, true, f);
      FolderRegionHolds(w, document, true, f);
    }
  }

  lemma AgreeingOrder(w: World, document: string)
    requires DocumentChain(w, document).Some? && FoldersAgree(w, document)
    requires NamesItsAncestors(w.folders, w.folderOf[document])
    ensures NamesInOrder(w.folders, w.folderOf[document])
  {
    var ids := IdsInPath(PlaceOf(w, document).path);
    forall x, y | x in ids && y in ids && x in w.folders && y in w.folders
      ensures w.folders[x].path + [SEPARATOR] <= w.folders[y].path <==> StandsAfter(ids, x, y)
    {
      var w' := Rebroken(w, {y});
      RebrokenChain(w, {y}, document);
      assert FolderAgrees(w', document, false, x);
      FolderOnTheChain(w', document, false, x);
      FolderRegionHolds(w', document, false, x);
    }
  }

  /** A document's own entry always contributes. */
  lemma DocumentNode(w: World, document: string, survivesBreaks: bool, id: string)
    requires DocumentChain(w, document).Some?
    ensures Contributes(DocumentChain(w, document).value, survivesBreaks, Scope(Document, id)) <==> id == document
  {
    var above, ids, chain := ChainParts(w, document);
    StartIsBelowNoBreak(chain, survivesBreaks, |chain| - 1);
    if Contributes(chain, survivesBreaks, Scope(Document, id)) {
      var i :| Start(chain, survivesBreaks) <= i < |chain| && chain[i].scope == Scope(Document, id);
    }
  }

  // ----- Regions are the effective chain, inverted ------------------------------------------------------

  /** The entry names a real node: the tenant's own identifier when it is on the tenant, and no node of
      another kind on this chain shares its identifier. */
  ghost predicate Sited(w: World, chain: seq<ChainNode>, e: Entry) {
    && (e.scope.kind == Tenant ==> e.scope.id == w.tenant)
    && forall i :: 0 <= i < |chain| && chain[i].scope.id == e.scope.id ==> chain[i].scope == e.scope
  }

  lemma SitedOnChain(w: World, chain: seq<ChainNode>, survivesBreaks: bool, e: Entry)
    requires Sited(w, chain, e)
    ensures OnChain(chain[Start(chain, survivesBreaks)..], e.scope.id) <==> Contributes(chain, survivesBreaks, e.scope)
  {
    var start := Start(chain, survivesBreaks);
    var effective := chain[start..];
    if OnChain(effective, e.scope.id) {
      var i :| 0 <= i < |effective| && effective[i].scope.id == e.scope.id;
      assert chain[start + i].scope == e.scope;
    }
    if Contributes(chain, survivesBreaks, e.scope) {
      var i :| start <= i < |chain| && chain[i].scope == e.scope;
      assert effective[i - start].scope.id == e.scope.id;
    }
  }

  lemma TenantIsOnTop(w: World, document: string)
    requires DocumentChain(w, document).Some?
    ensures Names(LibraryChain(w, PlaceOf(w, document).library).value, Scope(Tenant, w.tenant))
    ensures Names(LibraryChain(w, PlaceOf(w, document).library).value, Scope(Library, PlaceOf(w, document).library))
    ensures forall id :: Names(LibraryChain(w, PlaceOf(w, document).library).value, Scope(Library, id))
                    ==> id == PlaceOf(w, document).library
  {
    var library := PlaceOf(w, document).library;
    var above := LibraryChain(w, library).value;
    LibraryChainIsPlain(w, library);
    assert above[0].scope == Scope(Tenant, w.tenant);
    assert above[|above| - 1].scope == Scope(Library, library);
    forall id | Names(above, Scope(Library, id)) ensures id == library {
      var i :| 0 <= i < |above| && above[i].scope == Scope(Library, id);
    }
  }

  /** The effective chain still reaches the tenant exactly for documents outside every cut. */
  lemma TenantIsReached(w: World, document: string, survivesBreaks: bool)
    requires DocumentChain(w, document).Some? && WellIndexed(w, document)
    ensures var chain := DocumentChain(w, document).value;
            ReachesTenant(chain[Start(chain, survivesBreaks)..])
              == !InAny(Cuts(w, survivesBreaks), PlaceOf(w, document).path)
  {
    var above, ids, chain := ChainParts(w, document);
    WalkStartsAbove(w, document, survivesBreaks, 0);
    var start := Start(chain, survivesBreaks);
    if start > 0 {
      assert chain[start].breaks;
      assert chain[start..][0] == chain[start];
    } else {
      assert chain[start..] == chain;
    }
  }

  // ----- A small world ------------------------------------------------------------------------------------

  /** One library owned by the tenant, one folder that breaks inheritance, one document in it. */
  const SMALL: World := World(
    "t", {}, map[], map[], map[],
    map["l" := Scope(Tenant, "t")],
    map["f" := T.Node(None, "f")], map["f" := "l"], {"f"},
    map["d" := "f"])

  /** It is a world, the document's chain resolves, and the walk starts at the folder: nothing above it
      contributes unless the permission survives breaks. */
  lemma SmallWorld()
    ensures IsWorld(SMALL)
    ensures DocumentChain(SMALL, "d") == Some([
              Plain(Tenant, "t"), Plain(Library, "l"), ChainNode(Scope(Folder, "f"), true), Plain(Document, "d")])
    ensures Start(DocumentChain(SMALL, "d").value, false) == 2 && Start(DocumentChain(SMALL, "d").value, true) == 0
  {
    IdsOfId("f");
    assert T.WellPlaced(SMALL.folders, "f");
    var chain := [Plain(Tenant, "t"), Plain(Library, "l"), ChainNode(Scope(Folder, "f"), true), Plain(Document, "d")];
    assert [Plain(Tenant, "t")] + [Plain(Library, "l")] == chain[..2];
    assert FolderNodes(SMALL, ["f"]) == [chain[2]];
    assert chain[..2] + [chain[2]] + [chain[3]] == chain;
    assert chain[2].breaks && !chain[3].breaks;
    StartIsBelowNoBreak(chain, false, 2);
    StartIsBelowNoBreak(chain, false, 1);
  }
}
