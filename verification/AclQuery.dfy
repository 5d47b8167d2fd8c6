/** The list predicate built from a visibility filter, against the direct read
    (apps/api/src/core/authorization/document-visibility.ts). */
module AclQuery {
  import opened Text
  import opened MaterialisedPath
  import opened AclWalk
  import opened AclRegions
  import opened AclVisibility
  import opened AclLists

  // ----- The list predicate -----------------------------------------------------------------------------

  /** The fragment of the query language the translation uses. */
  datatype Condition =
    | Anything
    | Nothing
    | InLibraries(ids: set<string>)
    | AtOrBelow(path: string)
    | OutsideAll(paths: set<string>)
    | IsDocument(ids: set<string>)
    | Or(branches: seq<Condition>)
    | And(clauses: seq<Condition>)
    | Not(negated: Condition)

  /** An empty condition inside an `OR` is not "everything": the engine drops the branch. */
  predicate Holds(c: Condition, d: Place) {
    match c
    case Anything => true
    case Nothing => false
    case InLibraries(ids) => d.library in ids
    case AtOrBelow(path) => IsAtOrBelow(d.path, path)
    case OutsideAll(paths) => !InAny(paths, d.path)
    case IsDocument(ids) => d.id in ids
    case Or(branches) => exists i :: 0 <= i < |branches| && !branches[i].Anything? && Holds(branches[i], d)
    case And(clauses) => forall i :: 0 <= i < |clauses| ==> Holds(clauses[i], d)
    case Not(negated) => !Holds(negated, d)
  }

  function PathConditions(paths: seq<string>): seq<Condition> {
    seq(|paths|, i requires 0 <= i < |paths| => AtOrBelow(paths[i]))
  }

  function Bases(r: Region): seq<Condition> {
    (if r.tenantWide then [Anything] else [])
    + (if r.libraries != {} then [InLibraries(r.libraries)] else [])
    + PathConditions(r.folderPaths)
    + (if r.documents != {} then [IsDocument(r.documents)] else [])
  }

  function BaseCondition(bases: seq<Condition>): Condition {
    if |bases| == 1 then bases[0] else Or(bases)
  }

  function RegionCondition(r: Region): Condition {
    var bases := Bases(r);
    if bases == [] then Nothing
    else if r.excluded == {} then BaseCondition(bases)
    else And([BaseCondition(bases), OutsideAll(r.excluded)])
  }

  /** The tenant-wide flag is lost where the region also names something: its empty condition becomes one
      branch among others. */
  predicate LosesTheTenant(r: Region) {
    r.tenantWide && (r.libraries != {} || r.folderPaths != [] || r.documents != {})
  }

  function Kept(r: Region): Region {
    if LosesTheTenant(r) then r.(tenantWide := false) else r
  }

  predicate IsUnconditional(r: Region) {
    r.tenantWide && !LosesTheTenant(r) && r.excluded == {}
  }

  /** The conditions that name something. */
  function Named(r: Region): seq<Condition> {
    (if r.libraries != {} then [InLibraries(r.libraries)] else [])
    + PathConditions(r.folderPaths)
    + (if r.documents != {} then [IsDocument(r.documents)] else [])
  }

  lemma NamedHold(r: Region, d: Place)
    ensures Holds(Or(Named(r)), d)
       <==> d.library in r.libraries || InRoots(r.folderPaths, d.path) || d.id in r.documents
    ensures forall i :: 0 <= i < |Named(r)| ==> !Named(r)[i].Anything?
    ensures Named(r) == [] <==> r.libraries == {} && r.folderPaths == [] && r.documents == {}
  {
    var libraries := if r.libraries != {} then [InLibraries(r.libraries)] else [];
    var paths := PathConditions(r.folderPaths);
    var documents := if r.documents != {} then [IsDocument(r.documents)] else [];
    OrParts(libraries, paths, d);
    OrParts(libraries + paths, documents, d);
    assert d.library in r.libraries ==> Holds(libraries[0], d);
    assert d.id in r.documents ==> Holds(documents[0], d);
    PathsHold(r.folderPaths, d);
  }

  lemma PathsHold(paths: seq<string>, d: Place)
    ensures Holds(Or(PathConditions(paths)), d) <==> InRoots(paths, d.path)
  {
    var conditions := PathConditions(paths);
    if InRoots(paths, d.path) {
      var k :| 0 <= k < |paths| && IsAtOrBelow(d.path, paths[k]);
      assert Holds(conditions[k], d);
    }
  }

  lemma OrParts(x: seq<Condition>, y: seq<Condition>, d: Place)
    ensures Holds(Or(x + y), d) <==> Holds(Or(x), d) || Holds(Or(y), d)
  {
    if Holds(Or(x), d) {
      var i :| 0 <= i < |x| && !x[i].Anything? && Holds(x[i], d);
      assert (x + y)[i] == x[i];
    }
    if Holds(Or(y), d) {
      var i :| 0 <= i < |y| && !y[i].Anything? && Holds(y[i], d);
      assert (x + y)[|x| + i] == y[i];
    }
  }

  /** What the bases select, and when they are the empty condition alone. */
  lemma BasesHold(r: Region, d: Place)
    requires Bases(r) != []
    ensures Holds(BaseCondition(Bases(r)), d) <==> Covers(Kept(r).(excluded := {}), d)
    ensures BaseCondition(Bases(r)).Anything? <==> r.tenantWide && !LosesTheTenant(r)
  {
    NamedHold(r, d);
    BaseHolds(r.tenantWide, Named(r), d);
    assert Bases(r) == (if r.tenantWide then [Anything] else []) + Named(r);
  }

  /** One condition stands for itself; among several an empty one is dropped. */
  lemma BaseHolds(wide: bool, named: seq<Condition>, d: Place)
    requires forall i :: 0 <= i < |named| ==> !named[i].Anything?
    ensures var bases := (if wide then [Anything] else []) + named;
            && (Holds(BaseCondition(bases), d) <==> (wide && named == []) || Holds(Or(named), d))
            && (BaseCondition(bases).Anything? <==> wide && named == [])
  {
    var front := if wide then [Anything] else [];
    OrParts(front, named, d);
    if front + named == [] {
    } else if |front + named| == 1 && named != [] {
      assert front + named == named;
      assert Holds(Or(named), d) <==> Holds(named[0], d);
    }
  }

  /** What one region's condition selects, and when it is the empty condition. */
  lemma RegionConditionHolds(r: Region, d: Place)
    ensures Holds(RegionCondition(r), d) <==> Covers(Kept(r), d)
    ensures RegionCondition(r).Anything? <==> IsUnconditional(r)
  {
    var bases := Bases(r);
    if bases != [] {
      BasesHold(r, d);
    }
    if bases != [] && r.excluded != {} {
      var both := And([BaseCondition(bases), OutsideAll(r.excluded)]);
      assert both.clauses[0] == BaseCondition(bases) && both.clauses[1] == OutsideAll(r.excluded);
    }
  }

  function Conditions(regions: seq<Region>): seq<Condition> {
    seq(|regions|, i requires 0 <= i < |regions| => RegionCondition(regions[i]))
  }

  function Conditional(conditions: seq<Condition>): (kept: seq<Condition>)
    ensures forall c :: c in kept <==> c in conditions && !c.Anything?
  {
    if conditions == [] then []
    else (if conditions[0].Anything? then [] else [conditions[0]]) + Conditional(conditions[1..])
  }

  function AllowClause(f: Filter): seq<Condition> {
    var allowed := Conditions(f.allowed);
    if Anything in allowed then [] else [if allowed == [] then Nothing else Or(allowed)]
  }

  function DenyClause(f: Filter): seq<Condition> {
    var denied := Conditional(Conditions(f.denied));
    if denied == [] then [] else [Not(Or(denied))]
  }

  function DocumentVisibilityWhere(f: Filter): Condition {
    And(AllowClause(f) + DenyClause(f))
  }

  /** Some region still selects the document; among denied ones, one whose condition is not empty. */
  predicate StillCovered(regions: seq<Region>, d: Place, denied: bool) {
    exists i :: 0 <= i < |regions| && !(denied && IsUnconditional(regions[i])) && Covers(Kept(regions[i]), d)
  }

  predicate StillAllowed(f: Filter, d: Place) {
    StillCovered(f.allowed, d, false)
  }

  predicate StillDenied(f: Filter, d: Place) {
    StillCovered(f.denied, d, true)
  }

  ghost predicate SomeConditional(regions: seq<Region>, d: Place) {
    exists i :: 0 <= i < |regions| && !IsUnconditional(regions[i]) && Covers(Kept(regions[i]), d)
  }

  lemma DisjunctionHolds(regions: seq<Region>, d: Place)
    ensures Holds(Or(Conditions(regions)), d) <==> SomeConditional(regions, d)
  {
    var conditions := Conditions(regions);
    if Holds(Or(conditions), d) {
      var i :| 0 <= i < |conditions| && !conditions[i].Anything? && Holds(conditions[i], d);
      RegionConditionHolds(regions[i], d);
    }
    if SomeConditional(regions, d) {
      var i :| 0 <= i < |regions| && !IsUnconditional(regions[i]) && Covers(Kept(regions[i]), d);
      RegionConditionHolds(regions[i], d);
      assert conditions[i] == RegionCondition(regions[i]);
    }
  }

  lemma SomethingUnconditional(regions: seq<Region>, d: Place)
    ensures Anything in Conditions(regions) <==> exists i :: 0 <= i < |regions| && IsUnconditional(regions[i])
  {
    var conditions := Conditions(regions);
    forall i | 0 <= i < |regions| ensures conditions[i] == Anything <==> IsUnconditional(regions[i]) {
      RegionConditionHolds(regions[i], d);
    }
  }

  lemma AllowClauseHolds(f: Filter, d: Place)
    ensures Holds(And(AllowClause(f)), d) <==> StillAllowed(f, d)
  {
    var allowed := Conditions(f.allowed);
    DisjunctionHolds(f.allowed, d);
    SomethingUnconditional(f.allowed, d);
    if Anything in allowed {
      var i :| 0 <= i < |f.allowed| && IsUnconditional(f.allowed[i]);
      assert Covers(Kept(f.allowed[i]), d);
    } else {
      assert AllowClause(f)[0] == if allowed == [] then Nothing else Or(allowed);
    }
  }

  /** Dropping the empty conditions first changes no disjunction. */
  lemma ConditionalHolds(conditions: seq<Condition>, d: Place)
    ensures Holds(Or(Conditional(conditions)), d) <==> Holds(Or(conditions), d)
  {
    var kept := Conditional(conditions);
    if Holds(Or(kept), d) {
      var k :| 0 <= k < |kept| && !kept[k].Anything? && Holds(kept[k], d);
      assert kept[k] in kept;
      var i :| 0 <= i < |conditions| && conditions[i] == kept[k];
    }
    if Holds(Or(conditions), d) {
      var i :| 0 <= i < |conditions| && !conditions[i].Anything? && Holds(conditions[i], d);
      assert conditions[i] in kept;
      var k :| 0 <= k < |kept| && kept[k] == conditions[i];
    }
  }

  lemma DenyClauseHolds(f: Filter, d: Place)
    ensures Holds(And(DenyClause(f)), d) <==> !StillDenied(f, d)
  {
    ConditionalHolds(Conditions(f.denied), d);
    DisjunctionHolds(f.denied, d);
    var denied := Conditional(Conditions(f.denied));
    assert denied != [] ==> DenyClause(f)[0] == Not(Or(denied));
  }

  /** What the whole predicate selects. */
  lemma WhereHolds(f: Filter, d: Place)
    ensures Holds(DocumentVisibilityWhere(f), d) <==> StillAllowed(f, d) && !StillDenied(f, d)
  {
    AllowClauseHolds(f, d);
    DenyClauseHolds(f, d);
    var allow, deny := AllowClause(f), DenyClause(f);
    var both := allow + deny;
    assert forall i :: 0 <= i < |allow| ==> both[i] == allow[i];
    assert forall i :: 0 <= i < |deny| ==> both[|allow| + i] == deny[i];
    assert forall i :: |allow| <= i < |both| ==> both[i] == deny[i - |allow|];
  }

  // ----- The list against the direct read -----------------------------------------------------------------

  lemma StillCoveredByParts(a: seq<Region>, b: seq<Region>, d: Place, denied: bool)
    ensures StillCovered(a + b, d, denied) <==> StillCovered(a, d, denied) || StillCovered(b, d, denied)
  {
    var both := a + b;
    if StillCovered(a, d, denied) {
      var i :| 0 <= i < |a| && !(denied && IsUnconditional(a[i])) && Covers(Kept(a[i]), d);
      assert both[i] == a[i];
    }
    if StillCovered(b, d, denied) {
      var i :| 0 <= i < |b| && !(denied && IsUnconditional(b[i])) && Covers(Kept(b[i]), d);
      assert both[|a| + i] == b[i];
    }
  }

  /** Regions that are not tenant-wide lose nothing. */
  lemma NarrowRegionsAreKept(regions: seq<Region>, d: Place, denied: bool)
    requires forall i :: 0 <= i < |regions| ==> !regions[i].tenantWide
    ensures StillCovered(regions, d, denied) <==> CoveredBy(regions, d)
  {
    assert forall i :: 0 <= i < |regions| ==> Kept(regions[i]) == regions[i] && !IsUnconditional(regions[i]);
  }

  predicate IsWide(sources: seq<Entry>, tenantWide: bool) {
    tenantWide || SourceIds(sources, Tenant) != {}
  }

  /** What is left of the region above the folders: the libraries if it names any, else the whole tenant, unless
      that is a denied region with nothing to cut out of it. */
  predicate MainStillCovers(w: World, sources: seq<Entry>, cuts: set<string>, tenantWide: bool, d: Place, denied: bool) {
    var libraries := RegionLibraries(w, sources);
    && !InAny(cuts, d.path)
    && if libraries == {} then IsWide(sources, tenantWide) && !(denied && cuts == {}) else d.library in libraries
  }

  lemma OneRegionStillCovers(region: Region, d: Place, denied: bool)
    ensures StillCovered([region], d, denied) <==> !(denied && IsUnconditional(region)) && Covers(Kept(region), d)
  {
    assert [region][0] == region;
  }

  lemma MainRegionStillHolds(w: World, sources: seq<Entry>, cuts: set<string>, tenantWide: bool, d: Place, denied: bool)
    ensures StillCovered(MainRegion(w, sources, cuts, tenantWide), d, denied)
       <==> MainStillCovers(w, sources, cuts, tenantWide, d, denied)
  {
    var wide, libraries := IsWide(sources, tenantWide), RegionLibraries(w, sources);
    if wide || libraries != {} {
      var region := Region(wide, libraries, [], {}, cuts);
      assert MainRegion(w, sources, cuts, tenantWide) == [region];
      OneRegionStillCovers(region, d, denied);
      assert !InRoots([], d.path);
      assert Covers(Kept(region), d) <==>
             !InAny(cuts, d.path) && if libraries == {} then wide else d.library in libraries;
    }
  }

  /** The part of the regions that names folders and documents. */
  ghost predicate NamesTheDocument(w: World, document: string, survivesBreaks: bool, sources: seq<Entry>)
    requires DocumentChain(w, document).Some?
  {
    || Reaching(w, document, survivesBreaks, sources, {Folder})
    || Reaching(w, document, survivesBreaks, sources, {Document})
  }

  lemma RegionsStillCover(
    w: World, document: string, survivesBreaks: bool, sources: seq<Entry>, rows: seq<string>, tenantWide: bool,
    denied: bool)
    requires DocumentChain(w, document).Some? && WellIndexed(w, document)
    requires IsFolderRead(w, sources, rows) && forall i :: 0 <= i < |rows| ==> rows[i] in w.folders
    ensures StillCovered(RegionsFor(w, sources, rows, Cuts(w, survivesBreaks), tenantWide), PlaceOf(w, document), denied)
       <==> || MainStillCovers(w, sources, Cuts(w, survivesBreaks), tenantWide, PlaceOf(w, document), denied)
            || NamesTheDocument(w, document, survivesBreaks, sources)
  {
    var d, cuts := PlaceOf(w, document), Cuts(w, survivesBreaks);
    var main, folders := MainRegion(w, sources, cuts, tenantWide), FolderRegions(w, rows, cuts);
    StillCoveredByParts(main, folders, d, denied);
    StillCoveredByParts(main + folders, DocumentRegion(sources), d, denied);
    MainRegionStillHolds(w, sources, cuts, tenantWide, d, denied);
    NarrowRegionsAreKept(folders, d, denied);
    NarrowRegionsAreKept(DocumentRegion(sources), d, denied);
    FolderRegionsCover(w, document, survivesBreaks, sources, rows);
    DocumentRegionCovers(w, document, survivesBreaks, sources);
  }

  lemma RegionsCover(
    w: World, document: string, survivesBreaks: bool, sources: seq<Entry>, rows: seq<string>, tenantWide: bool)
    requires DocumentChain(w, document).Some? && WellIndexed(w, document)
    requires IsFolderRead(w, sources, rows) && forall i :: 0 <= i < |rows| ==> rows[i] in w.folders
    ensures CoveredBy(RegionsFor(w, sources, rows, Cuts(w, survivesBreaks), tenantWide), PlaceOf(w, document))
       <==> || MainCovers(w, sources, Cuts(w, survivesBreaks), tenantWide, PlaceOf(w, document))
            || NamesTheDocument(w, document, survivesBreaks, sources)
  {
    var d, cuts := PlaceOf(w, document), Cuts(w, survivesBreaks);
    var main, folders := MainRegion(w, sources, cuts, tenantWide), FolderRegions(w, rows, cuts);
    CoveredByParts(main, folders, d);
    CoveredByParts(main + folders, DocumentRegion(sources), d);
    MainRegionHolds(w, sources, cuts, tenantWide, d);
    FolderRegionsCover(w, document, survivesBreaks, sources, rows);
    DocumentRegionCovers(w, document, survivesBreaks, sources);
  }

  predicate MainCovers(w: World, sources: seq<Entry>, cuts: set<string>, tenantWide: bool, d: Place) {
    (IsWide(sources, tenantWide) || d.library in RegionLibraries(w, sources)) && !InAny(cuts, d.path)
  }

  /** A tenant-wide allow is lost on the document: libraries are named beside it and not this one, and nothing
      else lets the caller in or keeps them out. */
  ghost predicate LosesTheAllow(w: World, document: string, survivesBreaks: bool, rows: seq<Entry>, granted: bool)
    requires DocumentChain(w, document).Some?
  {
    var d, cuts := PlaceOf(w, document), Cuts(w, survivesBreaks);
    var allows, denies := WithEffect(rows, Allow), WithEffect(rows, Deny);
    && IsWide(allows, granted) && !InAny(cuts, d.path)
    && RegionLibraries(w, allows) != {} && d.library !in RegionLibraries(w, allows)
    && !NamesTheDocument(w, document, survivesBreaks, allows)
    && !MainCovers(w, denies, cuts, false, d) && !NamesTheDocument(w, document, survivesBreaks, denies)
  }

  /** A tenant-level deny is lost on the document: libraries are named beside it and not this one, or there is
      nothing to cut out of it; no other deny keeps the caller out, and what is left of the allows lets them in. */
  ghost predicate LosesTheDeny(w: World, document: string, survivesBreaks: bool, rows: seq<Entry>, granted: bool)
    requires DocumentChain(w, document).Some?
  {
    var d, cuts := PlaceOf(w, document), Cuts(w, survivesBreaks);
    var allows, denies := WithEffect(rows, Allow), WithEffect(rows, Deny);
    && SourceIds(denies, Tenant) != {} && !InAny(cuts, d.path)
    && (if RegionLibraries(w, denies) == {} then cuts == {} else d.library !in RegionLibraries(w, denies))
    && !NamesTheDocument(w, document, survivesBreaks, denies)
    && (|| (if RegionLibraries(w, allows) == {} then IsWide(allows, granted) else d.library in RegionLibraries(w, allows))
        || NamesTheDocument(w, document, survivesBreaks, allows))
  }

  /** The page is lost on the document: past the bound no allow that reaches it is left, the role grant is dropped,
      and no deny keeps the caller out. */
  ghost predicate LosesThePage(
    w: World, document: string, survivesBreaks: bool, rows: seq<Entry>, limit: nat, granted: bool)
    requires DocumentChain(w, document).Some?
  {
    var chain := DocumentChain(w, document).value;
    var effective := chain[Start(chain, survivesBreaks)..];
    && |rows| > limit && !Hits(effective, rows, Deny) && !Hits(effective, rows[..limit], Allow)
    && (Hits(effective, rows, Allow) || (granted && ReachesTenant(effective)))
  }

  /** A list against a direct read, document by document, on either side of the bound. It hides what the read allows
      exactly when the translation loses a tenant-wide allow on the document or the page was cut before it; it shows
      what the read refuses exactly when the translation loses a tenant-level deny on it. */
  lemma ListAgreesWithTheDirectRead(
    w: World, document: string, survivesBreaks: bool, stored: set<Entry>, c: Caller, permission: string,
    rows: seq<Entry>, read: seq<Entry>, limit: nat, allowFolders: seq<string>, denyFolders: seq<string>)
    requires DocumentChain(w, document).Some? && WellIndexed(w, document) && IsCaller(c)
    requires IsMatch(rows, stored, c) && AllSited(w, document, rows) && DeniesFirst(rows)
    requires AreFolderReads(w, rows, limit, allowFolders, denyFolders)
    requires var chain := DocumentChain(w, document).value;
             IsChainMatch(read, chain[Start(chain, survivesBreaks)..], stored, c)
    ensures var granted := permission in c.grants;
            var page, kept := Readable(rows, limit), granted && |rows| <= limit;
            var filter := VisibilityFilter(w, survivesBreaks, rows, limit, granted, allowFolders, denyFolders);
            var shown := Holds(DocumentVisibilityWhere(filter), PlaceOf(w, document));
            var allowed := Resolve(DocumentChain(w, document).value, survivesBreaks, read, c, permission).allowed;
            && (allowed && !shown) ==
                 (|| LosesTheAllow(w, document, survivesBreaks, page, kept)
                  || LosesThePage(w, document, survivesBreaks, rows, limit, granted))
            && (shown && !allowed) == LosesTheDeny(w, document, survivesBreaks, page, kept)
  {
    var granted := permission in c.grants;
    var chain := DocumentChain(w, document).value;
    var effective := chain[Start(chain, survivesBreaks)..];
    var filter := VisibilityFilter(w, survivesBreaks, rows, limit, granted, allowFolders, denyFolders);
    FilterReaches(w, document, survivesBreaks, rows, limit, granted, allowFolders, denyFolders);
    MatchedOnChain(effective, rows, stored, c, Allow);
    MatchedOnChain(effective, rows, stored, c, Deny);
    ResolveIsDenyWins(chain, survivesBreaks, read, stored, c, permission);
    PageKeepsDenies(effective, rows, limit);
    PageIsPartOfTheRead(effective, rows, limit, Deny);
    WhereHolds(filter, PlaceOf(w, document));
    AllowIsLostExactlyWhen(w, document, survivesBreaks, rows, limit, granted, allowFolders, denyFolders);
    DenyIsLostExactlyWhen(w, document, survivesBreaks, rows, limit, granted, allowFolders, denyFolders);
  }

  lemma PageIsPartOfTheRead(effective: seq<ChainNode>, rows: seq<Entry>, limit: nat, effect: Effect)
    ensures Hits(effective, Readable(rows, limit), effect) ==> Hits(effective, rows, effect)
  {
    assert forall e :: e in Readable(rows, limit) ==> e in rows;
  }

  lemma AllowIsLostExactlyWhen(
    w: World, document: string, survivesBreaks: bool, rows: seq<Entry>, limit: nat, granted: bool,
    allowFolders: seq<string>, denyFolders: seq<string>)
    requires DocumentChain(w, document).Some? && WellIndexed(w, document)
    requires AreFolderReads(w, rows, limit, allowFolders, denyFolders)
    ensures var filter := VisibilityFilter(w, survivesBreaks, rows, limit, granted, allowFolders, denyFolders);
            var d := PlaceOf(w, document);
            && (StillAllowed(filter, d) ==> CoveredBy(filter.allowed, d))
            && LosesTheAllow(w, document, survivesBreaks, Readable(rows, limit), granted && |rows| <= limit) ==
                 (CoveredBy(filter.allowed, d) && !StillAllowed(filter, d) && !CoveredBy(filter.denied, d))
  {
    var page, kept := Readable(rows, limit), granted && |rows| <= limit;
    var allows, denies := WithEffect(page, Allow), WithEffect(page, Deny);
    RegionsCover(w, document, survivesBreaks, allows, allowFolders, kept);
    RegionsStillCover(w, document, survivesBreaks, allows, allowFolders, kept, false);
    RegionsCover(w, document, survivesBreaks, denies, denyFolders, false);
  }

  lemma DenyIsLostExactlyWhen(
    w: World, document: string, survivesBreaks: bool, rows: seq<Entry>, limit: nat, granted: bool,
    allowFolders: seq<string>, denyFolders: seq<string>)
    requires DocumentChain(w, document).Some? && WellIndexed(w, document)
    requires AreFolderReads(w, rows, limit, allowFolders, denyFolders)
    ensures var filter := VisibilityFilter(w, survivesBreaks, rows, limit, granted, allowFolders, denyFolders);
            var d := PlaceOf(w, document);
            && (StillDenied(filter, d) ==> CoveredBy(filter.denied, d))
            && LosesTheDeny(w, document, survivesBreaks, Readable(rows, limit), granted && |rows| <= limit) ==
                 (CoveredBy(filter.denied, d) && !StillDenied(filter, d) && StillAllowed(filter, d))
  {
    var page, kept := Readable(rows, limit), granted && |rows| <= limit;
    var allows, denies := WithEffect(page, Allow), WithEffect(page, Deny);
    RegionsCover(w, document, survivesBreaks, denies, denyFolders, false);
    RegionsStillCover(w, document, survivesBreaks, denies, denyFolders, false, true);
    RegionsStillCover(w, document, survivesBreaks, allows, allowFolders, kept, false);
    LostDenyIs(w, document, survivesBreaks, page, kept);
  }

  lemma LostDenyIs(w: World, document: string, survivesBreaks: bool, page: seq<Entry>, kept: bool)
    requires DocumentChain(w, document).Some?
    ensures var d, cuts := PlaceOf(w, document), Cuts(w, survivesBreaks);
            var allows, denies := WithEffect(page, Allow), WithEffect(page, Deny);
            var named := NamesTheDocument(w, document, survivesBreaks, denies);
            && (MainStillCovers(w, denies, cuts, false, d, true) ==> MainCovers(w, denies, cuts, false, d))
            && LosesTheDeny(w, document, survivesBreaks, page, kept) ==
                 (&& (MainCovers(w, denies, cuts, false, d) || named)
                  && !(MainStillCovers(w, denies, cuts, false, d, true) || named)
                  && (|| MainStillCovers(w, allows, cuts, kept, d, false)
                      || NamesTheDocument(w, document, survivesBreaks, allows)))
  {
  }

  // ----- Both effects ----------------------------------------------------------------------------------------

  function Everything(cuts: set<string>): Region {
    Region(true, {}, [], {}, cuts)
  }

  lemma RegionsOfNothing(w: World, cuts: set<string>, tenantWide: bool)
    ensures RegionsFor(w, [], [], cuts, tenantWide) == if tenantWide then [Everything(cuts)] else []
  {
    assert SourceIds([], Tenant) == {} && SourceIds([], Document) == {};
    assert RegionLibraries(w, []) == {} by {
      assert SourceIds([], Library) == {} && OrganisationScopes([]) == {};
    }
  }

  lemma RegionsOfOne(w: World, e: Entry, cuts: set<string>, tenantWide: bool)
    requires e.scope.kind in {Tenant, Library}
    ensures RegionsFor(w, [e], [], cuts, tenantWide)
         == if e.scope.kind == Tenant then [Everything(cuts)]
            else [Region(tenantWide, {e.scope.id}, [], {}, cuts)]
  {
    var isTenant := e.scope.kind == Tenant;
    assert e in [e];
    assert SourceIds([e], Document) == {} && OrganisationScopes([e]) == {};
    assert SourceIds([e], Tenant) == if isTenant then {e.scope.id} else {};
    assert SourceIds([e], Library) == if isTenant then {} else {e.scope.id};
    assert RegionLibraries(w, [e]) == if isTenant then {} else {e.scope.id};
  }

  lemma EffectOfOne(e: Entry, effect: Effect)
    ensures WithEffect([e], effect) == if e.effect == effect then [e] else []
  {
    assert [e][1..] == [];
  }

  /** Where nothing breaks inheritance, a deny on the tenant refuses every direct read, and a list of the
      same caller, whose roles hold the permission, shows every document. */
  lemma DenyOnTheTenantIsNotListed(
    w: World, document: string, survivesBreaks: bool, c: Caller, permission: string, deny: Entry)
    requires DocumentChain(w, document).Some? && IsCaller(c)
    requires permission in c.grants && Cuts(w, survivesBreaks) == {}
    requires deny.scope == Scope(Tenant, w.tenant) && deny.effect == Deny && deny.subjectId in CallerSubjectIds(c)
    ensures IsMatch([deny], {deny}, c)
    ensures Holds(DocumentVisibilityWhere(VisibilityFilter(w, survivesBreaks, [deny], 1, true, [], [])),
                  PlaceOf(w, document))
    ensures !Resolve(DocumentChain(w, document).value, survivesBreaks, [deny], c, permission).allowed
  {
    TenantDenyFilter(w, survivesBreaks, deny);
    DroppedDeny(Everything({}), PlaceOf(w, document));
    TenantDenyRefuses(w, document, survivesBreaks, deny);
  }

  lemma TenantDenyFilter(w: World, survivesBreaks: bool, deny: Entry)
    requires Cuts(w, survivesBreaks) == {} && deny.scope.kind == Tenant && deny.effect == Deny
    ensures VisibilityFilter(w, survivesBreaks, [deny], 1, true, [], []) == Filter([Everything({})], [Everything({})])
  {
    EffectOfOne(deny, Allow);
    EffectOfOne(deny, Deny);
    RegionsOfNothing(w, {}, true);
    RegionsOfOne(w, deny, {}, false);
  }

  lemma TenantDenyRefuses(w: World, document: string, survivesBreaks: bool, deny: Entry)
    requires DocumentChain(w, document).Some? && Cuts(w, survivesBreaks) == {}
    requires deny.scope == Scope(Tenant, w.tenant) && deny.effect == Deny
    ensures var chain := DocumentChain(w, document).value;
            forall granted :: !Decide(chain[Start(chain, survivesBreaks)..], [deny], granted).allowed
  {
    var above, ids, chain := ChainParts(w, document);
    NothingIsCutOff(w, document, survivesBreaks);
    assert chain[Start(chain, survivesBreaks)..] == chain;
    RefusedFromTheTop(chain, deny);
  }

  lemma NothingIsCutOff(w: World, document: string, survivesBreaks: bool)
    requires DocumentChain(w, document).Some? && Cuts(w, survivesBreaks) == {}
    ensures Start(DocumentChain(w, document).value, survivesBreaks) == 0
  {
    var above, ids, chain := ChainParts(w, document);
    if !survivesBreaks {
      NothingIsBroken(w);
      forall j | 0 <= j < |ids| ensures ids[j] !in w.broken {
        assert ids[j] in w.folders && ids[j] !in w.broken * w.folders.Keys;
      }
    }
    StartIsBelowNoBreak(chain, survivesBreaks, 0);
  }

  lemma NothingIsBroken(w: World)
    ensures BrokenPaths(w) == {} <==> w.broken * w.folders.Keys == {}
  {
    if f :| f in w.broken && f in w.folders {
      assert w.folders[f].path in BrokenPaths(w);
      assert f in w.broken * w.folders.Keys;
    }
  }

  lemma RefusedFromTheTop(chain: seq<ChainNode>, deny: Entry)
    requires chain != [] && chain[0].scope == deny.scope && deny.effect == Deny
    ensures forall granted :: !Decide(chain, [deny], granted).allowed
  {
    assert OnChain(chain, deny.scope.id);
    assert deny in [deny];
    DecisionIsDenyWins(chain, [deny], true);
    DecisionIsDenyWins(chain, [deny], false);
  }

  lemma DroppedDeny(r: Region, d: Place)
    requires IsUnconditional(r)
    ensures Holds(DocumentVisibilityWhere(Filter([r], [r])), d) && !Reaches(Filter([r], [r]), d)
  {
    var filter := Filter([r], [r]);
    WhereHolds(filter, d);
    assert Covers(Kept(filter.allowed[0]), d) && Covers(filter.denied[0], d);
  }

  /** A role grant beside an entry on one library: the filter reaches the whole tenant, and a list shows that
      library alone. */
  lemma GrantBesideALibraryIsLost(w: World, d: Place, allow: Entry)
    requires allow.scope.kind == Library && allow.effect == Allow
    requires BrokenPaths(w) == {}
    ensures var filter := VisibilityFilter(w, false, [allow], 1, true, [], []);
            Reaches(filter, d) && (Holds(DocumentVisibilityWhere(filter), d) <==> d.library == allow.scope.id)
  {
    LibraryAllowFilter(w, allow);
    LostGrant(Region(true, {allow.scope.id}, [], {}, {}), d);
    assert !InRoots([], d.path);
  }

  lemma LibraryAllowFilter(w: World, allow: Entry)
    requires allow.scope.kind == Library && allow.effect == Allow && BrokenPaths(w) == {}
    ensures VisibilityFilter(w, false, [allow], 1, true, [], [])
         == Filter([Region(true, {allow.scope.id}, [], {}, {})], [])
  {
    EffectOfOne(allow, Allow);
    EffectOfOne(allow, Deny);
    RegionsOfNothing(w, {}, false);
    RegionsOfOne(w, allow, {}, true);
  }

  lemma LostGrant(r: Region, d: Place)
    requires LosesTheTenant(r) && r.excluded == {}
    ensures Reaches(Filter([r], []), d)
    ensures Holds(DocumentVisibilityWhere(Filter([r], [])), d) <==> Covers(r.(tenantWide := false), d)
  {
    var filter := Filter([r], []);
    WhereHolds(filter, d);
    assert Covers(filter.allowed[0], d) && Kept(filter.allowed[0]) == r.(tenantWide := false);
  }
}
