/** The visibility filter, against the direct read
    (apps/api/src/modules/library/infrastructure/prisma-acl.resolver.ts). */
module AclLists {
  import opened Text
  import opened MaterialisedPath
  import opened AclWalk
  import opened AclRegions
  import opened AclVisibility

  // ----- The regions of a list of entries -----------------------------------------------------------

  /** Some source of one of these kinds is on the document's effective chain. */
  ghost predicate Reaching(w: World, document: string, survivesBreaks: bool, sources: seq<Entry>, kinds: set<Kind>)
    requires DocumentChain(w, document).Some?
  {
    exists e :: e in sources && e.scope.kind in kinds
             && Contributes(DocumentChain(w, document).value, survivesBreaks, e.scope)
  }

  const ABOVE_FOLDERS: set<Kind> := {Tenant, Company, Entity, Department, Library}

  lemma MainRegionHolds(w: World, sources: seq<Entry>, cuts: set<string>, tenantWide: bool, d: Place)
    ensures CoveredBy(MainRegion(w, sources, cuts, tenantWide), d)
       <==> && (tenantWide || SourceIds(sources, Tenant) != {} || d.library in RegionLibraries(w, sources))
            && !InAny(cuts, d.path)
  {
    var wide, libraries := tenantWide || SourceIds(sources, Tenant) != {}, RegionLibraries(w, sources);
    if wide || d.library in libraries {
      assert MainRegion(w, sources, cuts, tenantWide)[0] == Region(wide, libraries, [], {}, cuts);
    }
  }

  lemma MainRegionCovers(w: World, document: string, survivesBreaks: bool, sources: seq<Entry>, tenantWide: bool)
    requires DocumentChain(w, document).Some? && WellIndexed(w, document)
    requires forall e :: e in sources && e.scope.kind == Tenant ==> e.scope.id == w.tenant
    ensures CoveredBy(MainRegion(w, sources, Cuts(w, survivesBreaks), tenantWide), PlaceOf(w, document))
       <==> || (tenantWide && !InAny(Cuts(w, survivesBreaks), PlaceOf(w, document).path))
            || Reaching(w, document, survivesBreaks, sources, ABOVE_FOLDERS)
  {
    var d, cuts := PlaceOf(w, document), Cuts(w, survivesBreaks);
    MainRegionHolds(w, sources, cuts, tenantWide, d);
    if Reaching(w, document, survivesBreaks, sources, ABOVE_FOLDERS) {
      ReachingIsInRegion(w, document, survivesBreaks, sources);
    }
    if !tenantWide && CoveredBy(MainRegion(w, sources, cuts, tenantWide), d) {
      RegionIsReaching(w, document, survivesBreaks, sources);
    }
  }

  lemma RegionIsReaching(w: World, document: string, survivesBreaks: bool, sources: seq<Entry>)
    requires DocumentChain(w, document).Some? && WellIndexed(w, document)
    requires forall e :: e in sources && e.scope.kind == Tenant ==> e.scope.id == w.tenant
    requires SourceIds(sources, Tenant) != {} || PlaceOf(w, document).library in RegionLibraries(w, sources)
    requires !InAny(Cuts(w, survivesBreaks), PlaceOf(w, document).path)
    ensures Reaching(w, document, survivesBreaks, sources, ABOVE_FOLDERS)
  {
    var e := RegionHasASource(w, document, sources);
    NodesAboveFolders(w, document, survivesBreaks, e.scope);
  }

  lemma ReachingIsInRegion(w: World, document: string, survivesBreaks: bool, sources: seq<Entry>)
    requires DocumentChain(w, document).Some? && WellIndexed(w, document)
    requires Reaching(w, document, survivesBreaks, sources, ABOVE_FOLDERS)
    ensures SourceIds(sources, Tenant) != {} || PlaceOf(w, document).library in RegionLibraries(w, sources)
    ensures !InAny(Cuts(w, survivesBreaks), PlaceOf(w, document).path)
  {
    var e :| e in sources && e.scope.kind in ABOVE_FOLDERS
          && Contributes(DocumentChain(w, document).value, survivesBreaks, e.scope);
    NodesAboveFolders(w, document, survivesBreaks, e.scope);
    SourceIsInRegion(w, document, sources, e);
  }

  lemma SourceIsInRegion(w: World, document: string, sources: seq<Entry>, e: Entry)
    requires DocumentChain(w, document).Some? && WellIndexed(w, document)
    requires e in sources && e.scope.kind in ABOVE_FOLDERS
    requires Names(LibraryChain(w, PlaceOf(w, document).library).value, e.scope)
    ensures SourceIds(sources, Tenant) != {} || PlaceOf(w, document).library in RegionLibraries(w, sources)
  {
    var library := PlaceOf(w, document).library;
    TenantIsOnTop(w, document);
    if e.scope.kind == Tenant {
      assert e.scope.id in SourceIds(sources, Tenant);
    } else if e.scope.kind == Library {
      assert e.scope.id in SourceIds(sources, Library);
    } else {
      assert e.scope in OrganisationScopes(sources);
      WideningInvertsTheChain(w, OrganisationScopes(sources), library);
    }
  }

  lemma RegionHasASource(w: World, document: string, sources: seq<Entry>) returns (e: Entry)
    requires DocumentChain(w, document).Some? && WellIndexed(w, document)
    requires forall e :: e in sources && e.scope.kind == Tenant ==> e.scope.id == w.tenant
    requires SourceIds(sources, Tenant) != {} || PlaceOf(w, document).library in RegionLibraries(w, sources)
    ensures e in sources && e.scope.kind in ABOVE_FOLDERS
    ensures Names(LibraryChain(w, PlaceOf(w, document).library).value, e.scope)
  {
    var library := PlaceOf(w, document).library;
    TenantIsOnTop(w, document);
    if SourceIds(sources, Tenant) != {} {
      var id :| id in SourceIds(sources, Tenant);
      e :| e in sources && e.scope.kind == Tenant && e.scope.id == id;
    } else if library in SourceIds(sources, Library) {
      e :| e in sources && e.scope.kind == Library && e.scope.id == library;
    } else {
      WideningInvertsTheChain(w, OrganisationScopes(sources), library);
      var s :| s in OrganisationScopes(sources) && Names(LibraryChain(w, library).value, s);
      e :| e in sources && IsOrganisational(e.scope) && e.scope == s;
    }
  }

  lemma FolderRegionsCover(
    w: World, document: string, survivesBreaks: bool, sources: seq<Entry>, rows: seq<string>)
    requires DocumentChain(w, document).Some? && WellIndexed(w, document)
    requires IsFolderRead(w, sources, rows)
    ensures forall i :: 0 <= i < |rows| ==> rows[i] in w.folders
    ensures CoveredBy(FolderRegions(w, rows, Cuts(w, survivesBreaks)), PlaceOf(w, document))
       <==> Reaching(w, document, survivesBreaks, sources, {Folder})
  {
    var d, cuts := PlaceOf(w, document), Cuts(w, survivesBreaks);
    var regions := FolderRegions(w, rows, cuts);
    if CoveredBy(regions, d) {
      var i :| 0 <= i < |regions| && Covers(regions[i], d);
      var f := rows[i];
      FolderNode(w, document, survivesBreaks, f);
      var e :| e in sources && e.scope == Scope(Folder, f);
      assert Contributes(DocumentChain(w, document).value, survivesBreaks, e.scope);
    }
    if Reaching(w, document, survivesBreaks, sources, {Folder}) {
      var e :| e in sources && e.scope.kind in {Folder}
            && Contributes(DocumentChain(w, document).value, survivesBreaks, e.scope);
      FolderNode(w, document, survivesBreaks, e.scope.id);
      assert e.scope == Scope(Folder, e.scope.id);
      assert e.scope.id in rows;
      var i :| 0 <= i < |rows| && rows[i] == e.scope.id;
      assert Covers(regions[i], d);
    }
  }

  lemma DocumentRegionCovers(w: World, document: string, survivesBreaks: bool, sources: seq<Entry>)
    requires DocumentChain(w, document).Some?
    ensures CoveredBy(DocumentRegion(sources), PlaceOf(w, document))
       <==> Reaching(w, document, survivesBreaks, sources, {Document})
  {
    var regions := DocumentRegion(sources);
    if CoveredBy(regions, PlaceOf(w, document)) {
      var e :| e in sources && e.scope.kind == Document && e.scope.id == document;
      assert e.scope == Scope(Document, document);
      DocumentNode(w, document, survivesBreaks, document);
    }
    if Reaching(w, document, survivesBreaks, sources, {Document}) {
      var e :| e in sources && e.scope.kind in {Document}
            && Contributes(DocumentChain(w, document).value, survivesBreaks, e.scope);
      assert e.scope == Scope(Document, e.scope.id);
      DocumentNode(w, document, survivesBreaks, e.scope.id);
      assert document in SourceIds(sources, Document);
      assert Covers(regions[0], PlaceOf(w, document));
    }
  }

  lemma CoveredByParts(a: seq<Region>, b: seq<Region>, d: Place)
    ensures CoveredBy(a + b, d) <==> CoveredBy(a, d) || CoveredBy(b, d)
  {
    if CoveredBy(a, d) {
      var i :| 0 <= i < |a| && Covers(a[i], d);
      assert (a + b)[i] == a[i];
    }
    if CoveredBy(b, d) {
      var i :| 0 <= i < |b| && Covers(b[i], d);
      assert (a + b)[|a| + i] == b[i];
    }
  }

  ghost predicate SomeOnChain(effective: seq<ChainNode>, sources: seq<Entry>) {
    exists e :: e in sources && OnChain(effective, e.scope.id)
  }

  ghost predicate AllSited(w: World, document: string, sources: seq<Entry>)
    requires DocumentChain(w, document).Some?
  {
    forall e :: e in sources ==> Sited(w, DocumentChain(w, document).value, e)
  }

  /** The regions are the walk inverted: a document whose chain resolves is in some region exactly when one
      of the sources is on its effective chain, or the tenant-wide grant still reaches it. */
  lemma RegionsInvertTheWalk(
    w: World, document: string, survivesBreaks: bool, sources: seq<Entry>, rows: seq<string>, tenantWide: bool)
    requires DocumentChain(w, document).Some? && WellIndexed(w, document)
    requires IsFolderRead(w, sources, rows) && AllSited(w, document, sources)
    ensures forall i :: 0 <= i < |rows| ==> rows[i] in w.folders
    ensures var chain := DocumentChain(w, document).value;
            var effective := chain[Start(chain, survivesBreaks)..];
            CoveredBy(RegionsFor(w, sources, rows, Cuts(w, survivesBreaks), tenantWide), PlaceOf(w, document))
              == ((tenantWide && ReachesTenant(effective)) || SomeOnChain(effective, sources))
  {
    var d, cuts := PlaceOf(w, document), Cuts(w, survivesBreaks);
    var chain := DocumentChain(w, document).value;
    var effective := chain[Start(chain, survivesBreaks)..];
    MainRegionCovers(w, document, survivesBreaks, sources, tenantWide);
    FolderRegionsCover(w, document, survivesBreaks, sources, rows);
    DocumentRegionCovers(w, document, survivesBreaks, sources);
    var main, folders := MainRegion(w, sources, cuts, tenantWide), FolderRegions(w, rows, cuts);
    CoveredByParts(main, folders, d);
    CoveredByParts(main + folders, DocumentRegion(sources), d);
    TenantIsReached(w, document, survivesBreaks);
    SourcesOnChain(w, document, survivesBreaks, sources);
  }

  lemma SourcesOnChain(w: World, document: string, survivesBreaks: bool, sources: seq<Entry>)
    requires DocumentChain(w, document).Some? && AllSited(w, document, sources)
    ensures var chain := DocumentChain(w, document).value;
            SomeOnChain(chain[Start(chain, survivesBreaks)..], sources) ==
              (|| Reaching(w, document, survivesBreaks, sources, ABOVE_FOLDERS)
               || Reaching(w, document, survivesBreaks, sources, {Folder})
               || Reaching(w, document, survivesBreaks, sources, {Document}))
  {
    var chain := DocumentChain(w, document).value;
    var effective := chain[Start(chain, survivesBreaks)..];
    forall e | e in sources
      ensures OnChain(effective, e.scope.id) <==> Contributes(chain, survivesBreaks, e.scope)
    {
      SitedOnChain(w, chain, survivesBreaks, e);
    }
    if SomeOnChain(effective, sources) {
      var e :| e in sources && OnChain(effective, e.scope.id);
      assert e.scope.kind in ABOVE_FOLDERS || e.scope.kind in {Folder} || e.scope.kind in {Document};
    }
  }

  // ----- The filter -----------------------------------------------------------------------------------

  datatype Filter = Filter(allowed: seq<Region>, denied: seq<Region>)

  /** Any allowed region, and no denied one. */
  predicate Reaches(f: Filter, d: Place) {
    CoveredBy(f.allowed, d) && !CoveredBy(f.denied, d)
  }

  function WithEffect(rows: seq<Entry>, effect: Effect): (kept: seq<Entry>)
    ensures forall e :: e in kept <==> e in rows && e.effect == effect
  {
    if rows == [] then []
    else (if rows[0].effect == effect then [rows[0]] else []) + WithEffect(rows[1..], effect)
  }

  /** The page of the caller's entries: a read past the bound is cut to it. */
  function Readable(rows: seq<Entry>, limit: nat): seq<Entry> {
    if |rows| > limit then rows[..limit] else rows
  }

  /** The read is ordered so that the entries that subtract come first. */
  predicate DeniesFirst(rows: seq<Entry>) {
    forall i, j :: 0 <= i < j < |rows| && rows[i].effect == Allow ==> rows[j].effect == Allow
  }

  /** `rows` are the caller's entries in the order read; past the bound the tenant-wide grant is dropped. */
  function VisibilityFilter(
    w: World, survivesBreaks: bool, rows: seq<Entry>, limit: nat, granted: bool,
    allowFolders: seq<string>, denyFolders: seq<string>): Filter
    requires forall i :: 0 <= i < |allowFolders| ==> allowFolders[i] in w.folders
    requires forall i :: 0 <= i < |denyFolders| ==> denyFolders[i] in w.folders
  {
    var readable := Readable(rows, limit);
    var cuts := Cuts(w, survivesBreaks);
    Filter(
      RegionsFor(w, WithEffect(readable, Allow), allowFolders, cuts, granted && |rows| <= limit),
      RegionsFor(w, WithEffect(readable, Deny), denyFolders, cuts, false))
  }

  /** The folder reads behind the two halves of the filter. */
  ghost predicate AreFolderReads(
    w: World, rows: seq<Entry>, limit: nat, allowFolders: seq<string>, denyFolders: seq<string>)
  {
    && IsFolderRead(w, WithEffect(Readable(rows, limit), Allow), allowFolders)
    && IsFolderRead(w, WithEffect(Readable(rows, limit), Deny), denyFolders)
    && (forall i :: 0 <= i < |allowFolders| ==> allowFolders[i] in w.folders)
    && (forall i :: 0 <= i < |denyFolders| ==> denyFolders[i] in w.folders)
  }

  lemma FilterReaches(
    w: World, document: string, survivesBreaks: bool, rows: seq<Entry>, limit: nat, granted: bool,
    allowFolders: seq<string>, denyFolders: seq<string>)
    requires DocumentChain(w, document).Some? && WellIndexed(w, document) && AllSited(w, document, rows)
    requires AreFolderReads(w, rows, limit, allowFolders, denyFolders)
    ensures var chain := DocumentChain(w, document).value;
            var effective := chain[Start(chain, survivesBreaks)..];
            var readable := Readable(rows, limit);
            var filter := VisibilityFilter(w, survivesBreaks, rows, limit, granted, allowFolders, denyFolders);
            && CoveredBy(filter.denied, PlaceOf(w, document)) == Hits(effective, readable, Deny)
            && CoveredBy(filter.allowed, PlaceOf(w, document)) ==
                 (Hits(effective, readable, Allow) || (granted && |rows| <= limit && ReachesTenant(effective)))
  {
    var chain := DocumentChain(w, document).value;
    var effective := chain[Start(chain, survivesBreaks)..];
    var readable := Readable(rows, limit);
    var allows, denies := WithEffect(readable, Allow), WithEffect(readable, Deny);
    RegionsInvertTheWalk(w, document, survivesBreaks, allows, allowFolders, granted && |rows| <= limit);
    RegionsInvertTheWalk(w, document, survivesBreaks, denies, denyFolders, false);
    EffectOnChain(effective, readable, Allow);
    EffectOnChain(effective, readable, Deny);
  }

  lemma EffectOnChain(effective: seq<ChainNode>, rows: seq<Entry>, effect: Effect)
    ensures SomeOnChain(effective, WithEffect(rows, effect)) <==> Hits(effective, rows, effect)
  {
    if SomeOnChain(effective, WithEffect(rows, effect)) {
      var e :| e in WithEffect(rows, effect) && OnChain(effective, e.scope.id);
      assert e in rows;
    }
    if Hits(effective, rows, effect) {
      var e :| e in rows && e.effect == effect && OnChain(effective, e.scope.id);
      assert e in WithEffect(rows, effect);
    }
  }

  lemma MatchedOnChain(effective: seq<ChainNode>, rows: seq<Entry>, stored: set<Entry>, c: Caller, effect: Effect)
    requires IsMatch(rows, stored, c)
    ensures Hits(effective, rows, effect) <==> Reached(effective, stored, c, effect)
  {
    if Hits(effective, rows, effect) {
      var e :| e in rows && e.effect == effect && OnChain(effective, e.scope.id);
      assert e in stored;
    }
    if Reached(effective, stored, c, effect) {
      var e :| e in stored && e.effect == effect && e.subjectId in CallerSubjectIds(c) && OnChain(effective, e.scope.id);
      assert e in rows;
    }
  }

  /** A list and a direct read agree: within the bound, the filter reaches a document exactly when the walk
      allows it. */
  lemma FilterAgreesWithTheDirectRead(
    w: World, document: string, survivesBreaks: bool, stored: set<Entry>, c: Caller, permission: string,
    rows: seq<Entry>, read: seq<Entry>, limit: nat, allowFolders: seq<string>, denyFolders: seq<string>)
    requires DocumentChain(w, document).Some? && WellIndexed(w, document) && IsCaller(c)
    requires IsMatch(rows, stored, c) && AllSited(w, document, rows) && |rows| <= limit
    requires AreFolderReads(w, rows, limit, allowFolders, denyFolders)
    requires var chain := DocumentChain(w, document).value;
             IsChainMatch(read, chain[Start(chain, survivesBreaks)..], stored, c)
    ensures Reaches(VisibilityFilter(w, survivesBreaks, rows, limit, permission in c.grants, allowFolders, denyFolders),
                    PlaceOf(w, document))
       <==> Resolve(DocumentChain(w, document).value, survivesBreaks, read, c, permission).allowed
  {
    var chain := DocumentChain(w, document).value;
    var effective := chain[Start(chain, survivesBreaks)..];
    FilterReaches(w, document, survivesBreaks, rows, limit, permission in c.grants, allowFolders, denyFolders);
    MatchedOnChain(effective, rows, stored, c, Allow);
    MatchedOnChain(effective, rows, stored, c, Deny);
    ResolveIsDenyWins(chain, survivesBreaks, read, stored, c, permission);
  }

  /** Past the bound the filter is the walk over the first entries up to it, and without the tenant-wide grant. */
  lemma CutFilterExactlyWhen(
    w: World, document: string, survivesBreaks: bool, rows: seq<Entry>, limit: nat, granted: bool,
    allowFolders: seq<string>, denyFolders: seq<string>)
    requires DocumentChain(w, document).Some? && WellIndexed(w, document) && AllSited(w, document, rows)
    requires AreFolderReads(w, rows, limit, allowFolders, denyFolders) && |rows| > limit
    ensures var chain := DocumentChain(w, document).value;
            var effective := chain[Start(chain, survivesBreaks)..];
            Reaches(VisibilityFilter(w, survivesBreaks, rows, limit, granted, allowFolders, denyFolders),
                    PlaceOf(w, document))
              == Decide(effective, rows[..limit], false).allowed
  {
    var chain := DocumentChain(w, document).value;
    FilterReaches(w, document, survivesBreaks, rows, limit, granted, allowFolders, denyFolders);
    DecisionIsDenyWins(chain[Start(chain, survivesBreaks)..], rows[..limit], false);
  }

  /** Past the bound the filter degrades closed, whatever is lost: it reaches nothing the walk refuses. A
      page that lost a deny holds no allow at all. */
  lemma TruncationOnlyNarrows(
    w: World, document: string, survivesBreaks: bool, stored: set<Entry>, c: Caller, permission: string,
    rows: seq<Entry>, read: seq<Entry>, limit: nat, allowFolders: seq<string>, denyFolders: seq<string>)
    requires DocumentChain(w, document).Some? && WellIndexed(w, document) && IsCaller(c)
    requires IsMatch(rows, stored, c) && AllSited(w, document, rows) && DeniesFirst(rows)
    requires AreFolderReads(w, rows, limit, allowFolders, denyFolders)
    requires var chain := DocumentChain(w, document).value;
             IsChainMatch(read, chain[Start(chain, survivesBreaks)..], stored, c)
    ensures Reaches(VisibilityFilter(w, survivesBreaks, rows, limit, permission in c.grants, allowFolders, denyFolders),
                    PlaceOf(w, document))
        ==> Resolve(DocumentChain(w, document).value, survivesBreaks, read, c, permission).allowed
  {
    var chain := DocumentChain(w, document).value;
    var effective := chain[Start(chain, survivesBreaks)..];
    FilterReaches(w, document, survivesBreaks, rows, limit, permission in c.grants, allowFolders, denyFolders);
    MatchedOnChain(effective, rows, stored, c, Allow);
    MatchedOnChain(effective, rows, stored, c, Deny);
    ResolveIsDenyWins(chain, survivesBreaks, read, stored, c, permission);
    PageKeepsDenies(effective, rows, limit);
  }

  /** If the page holds an allow on the chain then it holds every deny. */
  lemma PageKeepsDenies(effective: seq<ChainNode>, rows: seq<Entry>, limit: nat)
    requires DeniesFirst(rows)
    ensures Hits(effective, Readable(rows, limit), Allow) ==> Hits(effective, rows, Allow)
    ensures Hits(effective, Readable(rows, limit), Allow) && Hits(effective, rows, Deny)
        ==> Hits(effective, Readable(rows, limit), Deny)
  {
    var page := Readable(rows, limit);
    if Hits(effective, page, Allow) {
      var e :| e in page && e.effect == Allow && OnChain(effective, e.scope.id);
      var i :| 0 <= i < |page| && page[i] == e;
      assert rows[i] == e;
      if Hits(effective, rows, Deny) {
        var deny :| deny in rows && deny.effect == Deny && OnChain(effective, deny.scope.id);
        var j :| 0 <= j < |rows| && rows[j] == deny;
        assert j < i;
        assert page[j] == deny;
      }
    }
  }
}
