/** Deleting and restoring the rows of a stored tree
    (apps/api/src/modules/library/application/library-admin.service.ts,
    apps/api/src/modules/organization/application/scope-admin.service.ts,
    apps/api/src/modules/administration/application/configuration.service.ts). A deleted row leaves the tree with
    the path it had; moves rewrite live rows only. A restored category has its path derived again; a restored
    folder or department comes back with the path it was deleted with. */
module TreeBins {
  import opened Text
  import opened MaterialisedPath
  import opened TreeRuns

  datatype Kind = Folders | Departments | Categories

  /** A row in the bin: its parent and path as they were, and the deletion that took it, where one is recorded. */
  datatype Binned = Binned(node: Node, cascade: Option<string>)

  datatype Store = Store(live: Tree, bin: map<string, Binned>)

  datatype Change = Place(op: Op) | Delete(id: string, cascade: string) | Restore(id: string)

  const NOTHING: Store := Store(map[], map[])

  // ----- Deleting -----------------------------------------------------------------------------------

  /** What a deletion takes: a folder with everything below its path; elsewhere the row alone. */
  predicate IsTaken(kind: Kind, t: Tree, id: string, n: string)
    requires id in t && n in t
  {
    n == id || (kind == Folders && t[id].path + [SEPARATOR] <= t[n].path)
  }

  function Taken(kind: Kind, t: Tree, id: string): set<string>
    requires id in t
  {
    set n | n in t && IsTaken(kind, t, id, n)
  }

  /** A department or category with live children is not deleted; a folder's deletion has its own identifier. */
  predicate CanDelete(kind: Kind, s: Store, id: string, cascade: string) {
    && id in s.live
    && if kind == Folders then forall n :: n in s.bin ==> s.bin[n].cascade != Some(cascade)
       else forall n :: n in s.live ==> s.live[n].parent != Some(id)
  }

  function DeleteRows(kind: Kind, s: Store, id: string, cascade: string): Store
    requires id in s.live
  {
    var taken := Taken(kind, s.live, id);
    Store(s.live - taken,
          s.bin + map n | n in taken :: Binned(s.live[n], if kind == Folders then Some(cascade) else None))
  }

  // ----- Restoring ----------------------------------------------------------------------------------

  /** The parent has to be back first. A category is placed again, and may be refused there. */
  predicate CanRestore(kind: Kind, s: Store, id: string, maximumDepth: int) {
    && id in s.bin
    && var row := s.bin[id].node;
       && (row.parent.Some? ==> row.parent.value in s.live)
       && (kind == Categories ==>
             Rejections(Placement(Some(id), Some(row.path), row.parent, PathOf(s.live, row.parent), maximumDepth)) == [])
  }

  /** What a restore brings back: exactly what the deletion took, or the row alone where none is recorded. */
  function Batch(kind: Kind, s: Store, id: string): set<string>
    requires id in s.bin
  {
    var cascade := s.bin[id].cascade;
    set n | n in s.bin && (n == id || (kind == Folders && cascade.Some? && s.bin[n].cascade == cascade))
  }

  function RestoreRows(kind: Kind, s: Store, id: string): Store
    requires id in s.bin
  {
    var back := Batch(kind, s, id);
    Store(
      s.live + map n | n in back ::
        if kind == Categories then Node(s.bin[n].node.parent, PathFor(PathOf(s.live, s.bin[n].node.parent), n))
        else s.bin[n].node,
      s.bin - back)
  }

  // ----- Runs ---------------------------------------------------------------------------------------

  predicate Allowed(kind: Kind, s: Store, c: Change, maximumDepth: int) {
    match c
    case Place(op) => Accepted(s.live, op, maximumDepth) && (op.Create? ==> op.id !in s.bin)
    case Delete(id, cascade) => CanDelete(kind, s, id, cascade)
    case Restore(id) => CanRestore(kind, s, id, maximumDepth)
  }

  function Changed(kind: Kind, s: Store, c: Change, maximumDepth: int): Store {
    if !Allowed(kind, s, c, maximumDepth) then s
    else
      match c
      case Place(op) => s.(live := Apply(s.live, op))
      case Delete(id, cascade) => DeleteRows(kind, s, id, cascade)
      case Restore(id) => RestoreRows(kind, s, id)
  }

  function After(kind: Kind, changes: seq<Change>, maximumDepth: int): Store {
    if changes == [] then NOTHING
    else Changed(kind, After(kind, changes[..|changes| - 1], maximumDepth), changes[|changes| - 1], maximumDepth)
  }

  // ----- What the bin keeps -------------------------------------------------------------------------

  /** The row's parent went with it, in the same deletion. */
  predicate HangsInside(bin: map<string, Binned>, n: string) {
    && n in bin && bin[n].cascade.Some?
    && bin[n].node.parent.Some? && bin[n].node.parent.value in bin
    && bin[bin[n].node.parent.value].cascade == bin[n].cascade
  }

  /** A path that was once in place: the parent's own path, which did not pass through the parent, and the row. */
  ghost predicate WasPlaced(row: Node, id: string) {
    if row.parent.None? then row.path == id
    else exists above ::
      row.path == PathFor(Some(PathFor(above, row.parent.value)), id) && IsId(row.parent.value)
      && (above.Some? ==> row.parent.value !in IdsInPath(above.value))
  }

  /** Below a row that went in the same deletion, the path is still that row's and the identifier. */
  ghost predicate BinnedPath(bin: map<string, Binned>, n: string) {
    && n in bin && IsId(n) && WasPlaced(bin[n].node, n)
    && (HangsInside(bin, n) ==> bin[n].node.path == PathFor(Some(bin[bin[n].node.parent.value].node.path), n))
  }

  /** A deletion has one top row. */
  predicate OneTop(bin: map<string, Binned>, n: string, m: string) {
    n in bin && m in bin && bin[n].cascade.Some? && bin[n].cascade == bin[m].cascade ==>
      HangsInside(bin, n) || HangsInside(bin, m) || n == m
  }

  ghost predicate BinSound(kind: Kind, bin: map<string, Binned>) {
    && (forall n :: n in bin ==> BinnedPath(bin, n))
    && (forall n, m :: OneTop(bin, n, m))
    && (kind != Folders ==> forall n :: n in bin ==> bin[n].cascade.None?)
  }

  ghost predicate Sound(kind: Kind, s: Store) {
    && Consistent(s.live) && s.live.Keys !! s.bin.Keys && BinSound(kind, s.bin)
  }

  // ----- A deletion keeps the live rows indexed -----------------------------------------------------

  /** In a consistent tree what a folder's deletion takes is its subtree. */
  lemma TakenIsTheSubtree(t: Tree, id: string, n: string)
    requires Consistent(t) && id in t && n in t
    ensures IsTaken(Folders, t, id, n) <==> InSubtree(t, t[id].path, n)
  {
    if t[n].path == t[id].path {
      PathNamesItsNode(t, n, id);
    }
  }

  /** A row left behind did not hang from one that was taken. */
  lemma LeftHasItsParent(kind: Kind, s: Store, id: string, cascade: string, n: string)
    requires Consistent(s.live) && CanDelete(kind, s, id, cascade)
    requires n in s.live && n !in Taken(kind, s.live, id) && s.live[n].parent.Some?
    ensures s.live[n].parent.value in s.live && s.live[n].parent.value !in Taken(kind, s.live, id)
  {
    assert WellPlaced(s.live, n);
    var parent := s.live[n].parent.value;
    if kind == Folders {
      TakenIsTheSubtree(s.live, id, n);
      TakenIsTheSubtree(s.live, id, parent);
      OutsideHoldsParents(s.live, id, n);
    }
  }

  lemma DeleteKeepsPaths(kind: Kind, s: Store, id: string, cascade: string)
    requires Consistent(s.live) && CanDelete(kind, s, id, cascade)
    ensures Consistent(DeleteRows(kind, s, id, cascade).live)
  {
    var left := DeleteRows(kind, s, id, cascade).live;
    forall n | n in left ensures WellPlaced(left, n) {
      assert WellPlaced(s.live, n);
      if s.live[n].parent.Some? {
        LeftHasItsParent(kind, s, id, cascade, n);
      }
    }
  }

  /** Of what a folder's deletion takes, the folder alone has its parent outside. */
  lemma TopOfTheTaken(t: Tree, id: string, n: string)
    requires Consistent(t) && id in t && n in Taken(Folders, t, id)
    ensures n != id <==> t[n].parent.Some? && t[n].parent.value in Taken(Folders, t, id)
  {
    TakenIsTheSubtree(t, id, n);
    PathShape(t, n);
    if n != id {
      SubtreeHoldsParents(t, id, n);
      TakenIsTheSubtree(t, id, t[n].parent.value);
    } else if t[n].parent.Some? {
      TakenIsTheSubtree(t, id, t[n].parent.value);
      assert |t[t[n].parent.value].path| < |t[n].path|;
    }
  }

  lemma PlacedOnce(t: Tree, id: string)
    requires Consistent(t) && id in t
    ensures WasPlaced(t[id], id)
  {
    PathShape(t, id);
    if t[id].parent.Some? {
      var parent := t[id].parent.value;
      var above := PathOf(t, t[parent].parent);
      assert WellPlaced(t, parent) && WellPlaced(t, id);
      assert t[id].path == PathFor(Some(PathFor(above, parent)), id);
      if above.Some? && parent in IdsInPath(above.value) {
        NotAboveItself(t, parent);
      }
    }
  }

  lemma NotAboveItself(t: Tree, id: string)
    requires Consistent(t) && id in t && t[id].parent.Some? && t[id].parent.value in t
    ensures id !in IdsInPath(t[t[id].parent.value].path)
  {
    var parent := t[id].parent.value;
    var ids := IdsInPath(t[parent].path);
    if k :| 0 <= k < |ids| && ids[k] == id {
      PathListsTheChain(t, parent, |ids| - 1 - k);
      UpFromParent(t, id, |ids| - 1 - k);
      ConsistentIsAcyclic(t);
    }
  }

  lemma HangsAsBefore(kind: Kind, s: Store, id: string, cascade: string, n: string)
    requires Sound(kind, s) && CanDelete(kind, s, id, cascade) && n in DeleteRows(kind, s, id, cascade).bin
    ensures n in s.bin ==> (HangsInside(DeleteRows(kind, s, id, cascade).bin, n) <==> HangsInside(s.bin, n))
  {
  }

  lemma DeleteKeepsBin(kind: Kind, s: Store, id: string, cascade: string)
    requires Sound(kind, s) && CanDelete(kind, s, id, cascade)
    ensures BinSound(kind, DeleteRows(kind, s, id, cascade).bin)
  {
    var taken, bin := Taken(kind, s.live, id), DeleteRows(kind, s, id, cascade).bin;
    forall n | n in bin ensures n in s.bin ==> (HangsInside(bin, n) <==> HangsInside(s.bin, n)) {
      HangsAsBefore(kind, s, id, cascade, n);
    }
    forall n | n in taken && kind == Folders ensures HangsInside(bin, n) <==> n != id {
      TopOfTheTaken(s.live, id, n);
    }
    forall n | n in bin ensures BinnedPath(bin, n) {
      if n in taken {
        assert WellPlaced(s.live, n);
        PlacedOnce(s.live, n);
      } else {
        assert BinnedPath(s.bin, n);
      }
    }
    forall n, m ensures OneTop(bin, n, m) {
      assert OneTop(s.bin, n, m);
    }
  }

  // ----- A restore keeps them exactly when the path is current ----------------------------------------

  /** The path kept in the bin is the one a create would write now. */
  predicate Current(s: Store, id: string)
    requires id in s.bin
  {
    s.bin[id].node.path == PathFor(PathOf(s.live, s.bin[id].node.parent), id)
  }

  /** A row brought back below the restored one hangs from a row that comes back with it. */
  lemma RestOfTheBatch(kind: Kind, s: Store, id: string, n: string)
    requires Sound(kind, s) && id in s.bin && (s.bin[id].node.parent.Some? ==> s.bin[id].node.parent.value in s.live)
    requires n in Batch(kind, s, id) && n != id
    ensures kind == Folders && HangsInside(s.bin, n) && s.bin[n].node.parent.value in Batch(kind, s, id)
  {
    assert !HangsInside(s.bin, id);
    assert OneTop(s.bin, n, id);
  }

  lemma RestoreKeepsPaths(kind: Kind, s: Store, id: string, maximumDepth: int)
    requires Sound(kind, s) && CanRestore(kind, s, id, maximumDepth)
    requires kind == Categories || Current(s, id)
    ensures Consistent(RestoreRows(kind, s, id).live)
  {
    var live := RestoreRows(kind, s, id).live;
    forall n | n in live ensures WellPlaced(live, n) {
      if n in s.live {
        assert WellPlaced(s.live, n);
      } else {
        assert BinnedPath(s.bin, n);
        if n == id {
          BackOnTop(kind, s, id);
        } else {
          RestOfTheBatch(kind, s, id, n);
          assert BinnedPath(s.bin, s.bin[n].node.parent.value);
        }
      }
    }
  }

  lemma BackOnTop(kind: Kind, s: Store, id: string)
    requires Sound(kind, s) && id in s.bin && (s.bin[id].node.parent.Some? ==> s.bin[id].node.parent.value in s.live)
    ensures var live := RestoreRows(kind, s, id).live;
            && live[id].parent == s.bin[id].node.parent
            && PathOf(live, live[id].parent) == PathOf(s.live, s.bin[id].node.parent)
            && live[id].path == if kind == Categories then PathFor(PathOf(s.live, s.bin[id].node.parent), id)
                                else s.bin[id].node.path
  {
  }

  lemma RestoreKeepsBin(kind: Kind, s: Store, id: string)
    requires Sound(kind, s) && id in s.bin
    ensures BinSound(kind, RestoreRows(kind, s, id).bin)
  {
    var bin := RestoreRows(kind, s, id).bin;
    forall n | n in bin ensures HangsInside(bin, n) <==> HangsInside(s.bin, n) {
    }
    forall n | n in bin ensures BinnedPath(bin, n) {
      assert BinnedPath(s.bin, n);
    }
    forall n, m ensures OneTop(bin, n, m) {
      assert OneTop(s.bin, n, m);
    }
  }

  /** The exact condition: restoring a folder or department by its flag alone leaves the live rows indexed exactly
      when the path it kept is the one its parent's path now gives. A category needs none. */
  lemma RestoreKeepsPathsExactlyWhen(kind: Kind, s: Store, id: string, maximumDepth: int)
    requires Sound(kind, s) && CanRestore(kind, s, id, maximumDepth)
    ensures Consistent(RestoreRows(kind, s, id).live) <==> kind == Categories || Current(s, id)
    ensures kind == Categories || Current(s, id) ==> Sound(kind, RestoreRows(kind, s, id))
  {
    BackOnTop(kind, s, id);
    RestoreKeepsBin(kind, s, id);
    if kind == Categories || Current(s, id) {
      RestoreKeepsPaths(kind, s, id, maximumDepth);
    } else {
      assert !WellPlaced(RestoreRows(kind, s, id).live, id);
    }
  }

  /** Otherwise the prefix test no longer finds the row below its own parent. */
  lemma StaleIsMisplaced(s: Store, id: string)
    requires id in s.bin && id !in s.live && IsId(id) && WasPlaced(s.bin[id].node, id) && Consistent(s.live)
    requires s.bin[id].node.parent.Some? ==> s.bin[id].node.parent.value in s.live
    requires !Current(s, id)
    ensures s.bin[id].node.parent.Some?
    ensures !IsAtOrBelow(s.bin[id].node.path, s.live[s.bin[id].node.parent.value].path)
  {
    var row := s.bin[id].node;
    var parent := row.parent.value;
    var above :| row.path == PathFor(Some(PathFor(above, parent)), id) && IsId(parent)
              && (above.Some? ==> parent !in IdsInPath(above.value));
    assert WellPlaced(s.live, parent);
    LeftBehind(above, PathOf(s.live, s.live[parent].parent), parent, id);
  }

  /** Once the parent's path has changed, the child's old path is not below it. */
  lemma LeftBehind(above: Option<string>, above': Option<string>, parent: string, id: string)
    requires IsId(parent) && IsId(id) && id != parent && (above.Some? ==> parent !in IdsInPath(above.value))
    requires PathFor(above, parent) != PathFor(above', parent)
    ensures !IsAtOrBelow(PathFor(Some(PathFor(above, parent)), id), PathFor(above', parent))
  {
    var was, now := PathFor(above, parent), PathFor(above', parent);
    PathForReadsBack(above', parent);
    PathForReadsBack(Some(was), id);
    NotContinued(above, parent, now);
    var child := PathFor(Some(was), id);
    assert IdsInPath(now)[|IdsInPath(now)| - 1] == parent && IdsInPath(child)[|IdsInPath(child)| - 1] == id;
    if now + [SEPARATOR] <= child {
      BoundaryIsASeparator(was, id, now);
    }
  }

  /** A path through a node is not continued by one that meets the node first at its end. */
  lemma NotContinued(above: Option<string>, parent: string, now: string)
    requires IsId(parent) && parent in IdsInPath(now)
    requires above.Some? ==> parent !in IdsInPath(above.value)
    ensures !(now + [SEPARATOR] <= PathFor(above, parent))
  {
    var whole := PathFor(above, parent);
    if above.Some? && above.value != "" {
      if now + [SEPARATOR] <= whole {
        BoundaryIsASeparator(above.value, parent, now);
        if above.value != now {
          var rest := above.value[|now| + 1..];
          assert above.value == now + [SEPARATOR] + rest;
          IdsOfJoinedPaths(now, rest);
        }
      }
    } else {
      assert |now| < |whole| ==> whole[|now|] in parent;
    }
  }

  lemma StaleRestoreMisreads(kind: Kind, s: Store, id: string, maximumDepth: int)
    requires Sound(kind, s) && IsStale(kind, s, Restore(id), maximumDepth)
    ensures !Indexes(RestoreRows(kind, s, id).live)
  {
    var live := RestoreRows(kind, s, id).live;
    assert BinnedPath(s.bin, id);
    StaleIsMisplaced(s, id);
    BackOnTop(kind, s, id);
    var parent := s.bin[id].node.parent.value;
    UpFromParent(live, id, 0);
    assert Up(live, id, 1) == Some(parent);
    assert AtOrUnder(live, id, parent);
    assert !AgreesOnAncestry(live, id, parent);
  }

  /** The identifiers in a live row's path are live rows. */
  lemma PathNamesLiveRows(t: Tree, id: string, named: string)
    requires Consistent(t) && id in t && named in IdsInPath(t[id].path)
    ensures named in t
  {
    var ids := IdsInPath(t[id].path);
    var k :| 0 <= k < |ids| && ids[k] == named;
    PathListsTheChain(t, id, |ids| - 1 - k);
    UpShortensPath(t, id, |ids| - 1 - k);
  }

  lemma KeptPathNamesItsRow(row: Node, id: string)
    requires IsId(id) && WasPlaced(row, id)
    ensures id in IdsInPath(row.path)
  {
    if row.parent.None? {
      IdsOfId(id);
    } else {
      var above :| row.path == PathFor(Some(PathFor(above, row.parent.value)), id);
      PathForReadsBack(Some(PathFor(above, row.parent.value)), id);
    }
  }

  /** No live row is below the path a row in the bin kept. */
  lemma NothingLiveBelow(kind: Kind, s: Store, id: string, n: string)
    requires Sound(kind, s) && id in s.bin && n in s.live
    ensures !IsAtOrBelow(s.live[n].path, s.bin[id].node.path)
  {
    assert BinnedPath(s.bin, id);
    KeptPathNamesItsRow(s.bin[id].node, id);
    if IsAtOrBelow(s.live[n].path, s.bin[id].node.path) {
      NamesWhatItIsBelow(s.live[n].path, s.bin[id].node.path, id);
      PathNamesLiveRows(s.live, n, id);
    }
  }

  /** The cycle check of a restored category, made against the path it kept, refuses nothing: only depth can. */
  lemma RestoreIsRefusedOnlyForDepth(kind: Kind, s: Store, id: string, maximumDepth: int)
    requires Sound(kind, s) && id in s.bin
    requires s.bin[id].node.parent.Some? && s.bin[id].node.parent.value in s.live
    ensures var row := s.bin[id].node;
            Rejections(Placement(Some(id), Some(row.path), row.parent, PathOf(s.live, row.parent), maximumDepth))
              == if DepthOf(s.live[row.parent.value].path) + 1 > maximumDepth then [TooDeep] else []
  {
    NothingLiveBelow(kind, s, id, s.bin[id].node.parent.value);
  }

  // ----- What a deletion takes and a restore brings back -------------------------------------------------

  /** A folder's deletion takes the folder and everything under it by parent links, any other the row alone; what it
      takes is in the bin as it was, and nothing else is touched. */
  lemma DeletionTakesTheSubtree(kind: Kind, s: Store, id: string, cascade: string, n: string)
    requires Sound(kind, s) && CanDelete(kind, s, id, cascade) && n in s.live
    ensures var after := DeleteRows(kind, s, id, cascade);
            && (n !in after.live <==> if kind == Folders then AtOrUnder(s.live, n, id) else n == id)
            && (n in after.bin <==> n !in after.live)
            && (n in after.live ==> after.live[n] == s.live[n])
            && (n in after.bin ==> after.bin[n].node == s.live[n])
            && after.live.Keys <= s.live.Keys && (forall m :: m in s.bin ==> m in after.bin && after.bin[m] == s.bin[m])
  {
    if kind == Folders {
      TakenIsTheSubtree(s.live, id, n);
      ContainmentIsAncestry(s.live, n, id);
    }
  }

  lemma BatchOfADeletion(kind: Kind, s: Store, id: string, cascade: string)
    requires Sound(kind, s) && CanDelete(kind, s, id, cascade)
    ensures id in DeleteRows(kind, s, id, cascade).bin
    ensures Batch(kind, DeleteRows(kind, s, id, cascade), id) == Taken(kind, s.live, id)
  {
    var taken, after := Taken(kind, s.live, id), DeleteRows(kind, s, id, cascade);
    assert id in taken;
    forall n | n in after.bin ensures n in Batch(kind, after, id) <==> n in taken {
    }
  }

  /** A restore undoes the deletion: the store is what it was, rows, paths and bin. */
  lemma RestoreUndoesDeletion(kind: Kind, s: Store, id: string, cascade: string)
    requires Sound(kind, s) && CanDelete(kind, s, id, cascade)
    ensures id in DeleteRows(kind, s, id, cascade).bin
    ensures RestoreRows(kind, DeleteRows(kind, s, id, cascade), id) == s
  {
    BatchOfADeletion(kind, s, id, cascade);
    var after := DeleteRows(kind, s, id, cascade);
    var back := RestoreRows(kind, after, id);
    assert back.live.Keys == s.live.Keys;
    forall n | n in s.live ensures back.live[n] == s.live[n] {
      assert WellPlaced(s.live, n);
      if n == id && s.live[id].parent.Some? {
        PathShape(s.live, id);
        ParentIsNotTaken(kind, s.live, id);
      }
    }
    assert back.live == s.live;
    assert back.bin == s.bin;
  }

  lemma ParentIsNotTaken(kind: Kind, t: Tree, id: string)
    requires Consistent(t) && id in t && t[id].parent.Some?
    ensures t[id].parent.value in t && t[id].parent.value !in Taken(kind, t, id)
  {
    PathShape(t, id);
    assert |t[t[id].parent.value].path| < |t[id].path|;
  }

  /** The rows of one deletion are in the bin, as they were taken, and no others carry its identifier. */
  ghost predicate HoldsDeletion(kind: Kind, s: Store, id: string, rows: Tree) {
    && s.live.Keys !! s.bin.Keys && id in s.bin && Batch(kind, s, id) == rows.Keys
    && forall n :: n in rows ==> n in s.bin && s.bin[n].node == rows[n]
  }

  /** While the row stays in the bin, no other change adds to what its restore brings back, or takes from it. */
  lemma ChangeKeepsDeletion(kind: Kind, s: Store, c: Change, maximumDepth: int, id: string, rows: Tree)
    requires HoldsDeletion(kind, s, id, rows) && id in Changed(kind, s, c, maximumDepth).bin
    ensures HoldsDeletion(kind, Changed(kind, s, c, maximumDepth), id, rows)
  {
    var after := Changed(kind, s, c, maximumDepth);
    if Allowed(kind, s, c, maximumDepth) {
      match c
      case Place(op) =>
        assert Apply(s.live, op).Keys <= s.live.Keys + (if op.Create? then {op.id} else {});
      case Delete(other, cascade) =>
        forall n | n in after.bin ensures n in Batch(kind, after, id) <==> n in Batch(kind, s, id) {
        }
        assert Batch(kind, after, id) == Batch(kind, s, id);
      case Restore(other) =>
        var back := Batch(kind, s, other);
        assert id !in back;
        forall n | n in s.bin ensures n in Batch(kind, after, id) <==> n in Batch(kind, s, id) {
        }
        assert Batch(kind, after, id) == Batch(kind, s, id);
    }
  }

  function Onward(kind: Kind, s: Store, changes: seq<Change>, maximumDepth: int): Store {
    if changes == [] then s
    else Changed(kind, Onward(kind, s, changes[..|changes| - 1], maximumDepth), changes[|changes| - 1], maximumDepth)
  }

  /** Whatever happens while the deleted row stays in the bin, its restore brings back the rows its deletion took and
      no others: the folders below it too, with their parents and, but for a category, their paths. */
  lemma {:induction false} RestoreBringsBackTheDeleted(
    kind: Kind, s: Store, id: string, cascade: string, changes: seq<Change>, maximumDepth: int)
    requires Sound(kind, s) && CanDelete(kind, s, id, cascade)
    requires forall k :: 0 <= k <= |changes| ==>
               id in Onward(kind, DeleteRows(kind, s, id, cascade), changes[..k], maximumDepth).bin
    ensures var taken := map n | n in Taken(kind, s.live, id) :: s.live[n];
            HoldsDeletion(kind, Onward(kind, DeleteRows(kind, s, id, cascade), changes, maximumDepth), id, taken)
  {
    var deleted, taken := DeleteRows(kind, s, id, cascade), map n | n in Taken(kind, s.live, id) :: s.live[n];
    assert changes[..|changes|] == changes;
    if changes == [] {
      BatchOfADeletion(kind, s, id, cascade);
    } else {
      var front := changes[..|changes| - 1];
      assert forall k :: 0 <= k <= |front| ==> front[..k] == changes[..k];
      RestoreBringsBackTheDeleted(kind, s, id, cascade, front, maximumDepth);
      ChangeKeepsDeletion(kind, Onward(kind, deleted, front, maximumDepth), changes[|changes| - 1], maximumDepth, id, taken);
    }
  }

  /** And what is brought back is live afterwards and in the bin no more; nothing else moves. */
  lemma RestoredRowsAreLive(kind: Kind, s: Store, id: string, rows: Tree, n: string)
    requires HoldsDeletion(kind, s, id, rows)
    ensures var back := RestoreRows(kind, s, id);
            && (n in back.live <==> n in s.live || n in rows) && (n in back.bin <==> n in s.bin && n !in rows)
            && (n in s.live ==> back.live[n] == s.live[n])
            && (n in back.bin ==> back.bin[n] == s.bin[n])
            && (n in rows ==> back.live[n].parent == rows[n].parent)
            && (n in rows && kind != Categories ==> back.live[n] == rows[n])
  {
  }

  // ----- When a row can be deleted and restored -------------------------------------------------------

  /** A folder can be deleted when it is live and the deletion's identifier is new; any other row when nothing live
      is under it by parent links. */
  lemma DeletableExactlyWhen(kind: Kind, s: Store, id: string, cascade: string)
    requires Sound(kind, s)
    ensures CanDelete(kind, s, id, cascade) <==>
              && id in s.live
              && if kind == Folders then forall n :: n in s.bin ==> s.bin[n].cascade != Some(cascade)
                 else forall n :: AtOrUnder(s.live, n, id) ==> n == id
  {
    if kind != Folders && id in s.live {
      forall n | AtOrUnder(s.live, n, id) && n != id ensures HasChild(s.live, id) {
        UnderThroughAChild(s.live, n, id);
      }
      if HasChild(s.live, id) {
        var n :| n in s.live && s.live[n].parent == Some(id);
        assert Up(s.live, n, 0) == Some(n);
        assert Up(s.live, n, 1) == Some(id);
        PathShape(s.live, n);
        assert AtOrUnder(s.live, n, id) && n != id;
      }
    }
  }

  predicate HasChild(t: Tree, id: string) {
    exists n :: n in t && t[n].parent == Some(id)
  }

  lemma UnderThroughAChild(t: Tree, n: string, id: string)
    requires Consistent(t) && AtOrUnder(t, n, id) && n != id
    ensures HasChild(t, id)
  {
    var steps: nat :| Up(t, n, steps) == Some(id);
    assert steps > 0;
    UpShortensPath(t, n, steps - 1);
    assert t[Up(t, n, steps - 1).value].parent == Some(id);
  }

  /** A binned row can be restored when its parent is live, and a category when there is room below its parent. */
  lemma RestorableExactlyWhen(kind: Kind, s: Store, id: string, maximumDepth: int)
    requires Sound(kind, s)
    ensures CanRestore(kind, s, id, maximumDepth) <==>
              && id in s.bin
              && var parent := s.bin[id].node.parent;
                 parent.Some? ==>
                   parent.value in s.live && (kind == Categories ==> HasRoom(s.live, parent.value, maximumDepth))
  {
    if id in s.bin {
      var parent := s.bin[id].node.parent;
      if parent.Some? && parent.value in s.live {
        RestoreIsRefusedOnlyForDepth(kind, s, id, maximumDepth);
        RoomIsDepth(s.live, parent.value, maximumDepth);
      }
    }
  }

  // ----- What every run conserves ---------------------------------------------------------------------

  function Rows(s: Store): set<string> {
    s.live.Keys + s.bin.Keys
  }

  lemma DeletionConservesRows(kind: Kind, s: Store, id: string, cascade: string)
    requires s.live.Keys !! s.bin.Keys && id in s.live
    ensures var after := DeleteRows(kind, s, id, cascade);
            after.live.Keys !! after.bin.Keys && Rows(after) == Rows(s)
  {
    assert DeleteRows(kind, s, id, cascade).bin.Keys == s.bin.Keys + Taken(kind, s.live, id);
  }

  lemma RestoreConservesRows(kind: Kind, s: Store, id: string)
    requires s.live.Keys !! s.bin.Keys && id in s.bin
    ensures var after := RestoreRows(kind, s, id);
            after.live.Keys !! after.bin.Keys && Rows(after) == Rows(s)
  {
    assert RestoreRows(kind, s, id).live.Keys == s.live.Keys + Batch(kind, s, id);
  }

  /** No change loses a row or has it both live and deleted: an accepted create adds its own, and nothing else does. */
  lemma ChangeConservesRows(kind: Kind, s: Store, c: Change, maximumDepth: int)
    requires s.live.Keys !! s.bin.Keys
    ensures var after := Changed(kind, s, c, maximumDepth);
            && after.live.Keys !! after.bin.Keys
            && Rows(after) == Rows(s) + if Allowed(kind, s, c, maximumDepth) && c.Place? && c.op.Create? then {c.op.id}
                                        else {}
  {
    if Allowed(kind, s, c, maximumDepth) {
      match c
      case Place(op) =>
        assert Apply(s.live, op).Keys == s.live.Keys + if op.Create? then {op.id} else {};
      case Delete(id, cascade) =>
        DeletionConservesRows(kind, s, id, cascade);
      case Restore(id) =>
        RestoreConservesRows(kind, s, id);
    }
  }

  /** The changes of a run that were performed: those allowed when they come. */
  function Performed(kind: Kind, changes: seq<Change>, maximumDepth: int): seq<Change> {
    if changes == [] then []
    else
      var before := Performed(kind, changes[..|changes| - 1], maximumDepth);
      var last := changes[|changes| - 1];
      if Allowed(kind, After(kind, before, maximumDepth), last, maximumDepth) then before + [last] else before
  }

  ghost predicate Creates(changes: seq<Change>, id: string) {
    exists k :: 0 <= k < |changes| && changes[k].Place? && changes[k].op.Create? && changes[k].op.id == id
  }

  lemma CreatesOneMore(changes: seq<Change>, c: Change, id: string)
    ensures Creates(changes + [c], id) <==> Creates(changes, id) || (c.Place? && c.op.Create? && c.op.id == id)
  {
    var all := changes + [c];
    if Creates(changes, id) {
      var k :| 0 <= k < |changes| && changes[k].Place? && changes[k].op.Create? && changes[k].op.id == id;
      assert all[k] == changes[k];
    }
    if c.Place? && c.op.Create? && c.op.id == id {
      assert all[|changes|] == c;
    }
  }

  /** Over every run, stale restores and all: refused changes might as well not have been asked for; and a row is live
      or in the bin, never both, exactly when some change performed created it. */
  lemma {:induction false} EveryRunConservesRows(kind: Kind, changes: seq<Change>, maximumDepth: int, id: string)
    ensures var s := After(kind, changes, maximumDepth);
            && s == After(kind, Performed(kind, changes, maximumDepth), maximumDepth)
            && s.live.Keys !! s.bin.Keys
            && (id in Rows(s) <==> Creates(Performed(kind, changes, maximumDepth), id))
  {
    if changes != [] {
      var front, last := changes[..|changes| - 1], changes[|changes| - 1];
      EveryRunConservesRows(kind, front, maximumDepth, id);
      var before := Performed(kind, front, maximumDepth);
      ChangeConservesRows(kind, After(kind, front, maximumDepth), last, maximumDepth);
      AfterOneMore(kind, before, last, maximumDepth);
      CreatesOneMore(before, last, id);
    }
  }

  function Placements(ops: seq<Op>): seq<Change> {
    seq(|ops|, i requires 0 <= i < |ops| => Place(ops[i]))
  }

  /** Without deletions the store's runs are the tree's. */
  lemma {:induction false} PlacementsAreARun(kind: Kind, ops: seq<Op>, maximumDepth: int)
    ensures After(kind, Placements(ops), maximumDepth) == Store(Run(map[], ops, maximumDepth), map[])
  {
    if ops != [] {
      PlacementsAreARun(kind, ops[..|ops| - 1], maximumDepth);
      assert Placements(ops)[..|ops| - 1] == Placements(ops[..|ops| - 1]);
    }
  }

  // ----- Whole runs -----------------------------------------------------------------------------------

  /** A restore that brings back a path the tree has since left. */
  predicate IsStale(kind: Kind, s: Store, c: Change, maximumDepth: int) {
    kind != Categories && c.Restore? && CanRestore(kind, s, c.id, maximumDepth) && !Current(s, c.id)
  }

  lemma ChangeKeepsSoundExactlyWhen(kind: Kind, s: Store, c: Change, maximumDepth: int)
    requires Sound(kind, s)
    ensures Consistent(Changed(kind, s, c, maximumDepth).live) <==> !IsStale(kind, s, c, maximumDepth)
    ensures !IsStale(kind, s, c, maximumDepth) ==> Sound(kind, Changed(kind, s, c, maximumDepth))
  {
    if Allowed(kind, s, c, maximumDepth) {
      match c
      case Place(op) =>
        StepKeepsPaths(s.live, op, maximumDepth);
        assert Apply(s.live, op).Keys <= s.live.Keys + (if op.Create? then {op.id} else {});
      case Delete(id, cascade) =>
        DeleteKeepsPaths(kind, s, id, cascade);
        DeleteKeepsBin(kind, s, id, cascade);
      case Restore(id) =>
        RestoreKeepsPathsExactlyWhen(kind, s, id, maximumDepth);
    }
  }

  lemma ChangeKeepsIndexExactlyWhen(kind: Kind, s: Store, c: Change, maximumDepth: int)
    requires Sound(kind, s)
    ensures Indexes(Changed(kind, s, c, maximumDepth).live) <==> !IsStale(kind, s, c, maximumDepth)
  {
    ChangeKeepsSoundExactlyWhen(kind, s, c, maximumDepth);
    if IsStale(kind, s, c, maximumDepth) {
      StaleRestoreMisreads(kind, s, c.id, maximumDepth);
    } else {
      ConsistentIndexes(Changed(kind, s, c, maximumDepth).live);
    }
  }

  predicate StaleAt(kind: Kind, changes: seq<Change>, k: nat, maximumDepth: int)
    requires k < |changes|
  {
    IsStale(kind, After(kind, changes[..k], maximumDepth), changes[k], maximumDepth)
  }

  /** No change of the run brings back a stale path. */
  ghost predicate NothingStale(kind: Kind, changes: seq<Change>, maximumDepth: int) {
    forall k :: 0 <= k < |changes| ==> !StaleAt(kind, changes, k, maximumDepth)
  }

  ghost predicate IndexesAfter(kind: Kind, changes: seq<Change>, k: nat, maximumDepth: int)
    requires k <= |changes|
  {
    Indexes(After(kind, changes[..k], maximumDepth).live)
  }

  /** At every point of the run the stored paths of the live rows are their parent chains. */
  ghost predicate IndexesThroughout(kind: Kind, changes: seq<Change>, maximumDepth: int) {
    forall k :: 0 <= k <= |changes| ==> IndexesAfter(kind, changes, k, maximumDepth)
  }

  lemma StaleInFront(kind: Kind, changes: seq<Change>, maximumDepth: int)
    requires changes != []
    ensures var front := changes[..|changes| - 1];
            NothingStale(kind, changes, maximumDepth) ==
              (&& NothingStale(kind, front, maximumDepth)
               && !IsStale(kind, After(kind, front, maximumDepth), changes[|changes| - 1], maximumDepth))
  {
    var last := |changes| - 1;
    var front := changes[..last];
    forall k | 0 <= k < last ensures StaleAt(kind, front, k, maximumDepth) == StaleAt(kind, changes, k, maximumDepth) {
      assert front[..k] == changes[..k];
    }
    assert StaleAt(kind, changes, last, maximumDepth)
        == IsStale(kind, After(kind, front, maximumDepth), changes[last], maximumDepth);
  }

  lemma IndexesInFront(kind: Kind, changes: seq<Change>, maximumDepth: int)
    requires changes != []
    ensures IndexesThroughout(kind, changes, maximumDepth) ==
              (&& IndexesThroughout(kind, changes[..|changes| - 1], maximumDepth)
               && IndexesAfter(kind, changes, |changes|, maximumDepth))
  {
    var front := changes[..|changes| - 1];
    forall k | 0 <= k <= |front|
      ensures IndexesAfter(kind, front, k, maximumDepth) == IndexesAfter(kind, changes, k, maximumDepth)
    {
      assert front[..k] == changes[..k];
    }
  }

  lemma {:induction false} RunIsSound(kind: Kind, changes: seq<Change>, maximumDepth: int)
    requires NothingStale(kind, changes, maximumDepth)
    ensures Sound(kind, After(kind, changes, maximumDepth))
  {
    if changes != [] {
      StaleInFront(kind, changes, maximumDepth);
      RunIsSound(kind, changes[..|changes| - 1], maximumDepth);
      ChangeKeepsSoundExactlyWhen(
        kind, After(kind, changes[..|changes| - 1], maximumDepth), changes[|changes| - 1], maximumDepth);
    }
  }

  /** Over every run of creates, moves, deletions and restores: the live rows are indexed throughout exactly when no
      restore brought back a path its parent had left. Of categories that is every run. */
  lemma {:induction false} EveryRunIndexesItsTree(kind: Kind, changes: seq<Change>, maximumDepth: int)
    ensures IndexesThroughout(kind, changes, maximumDepth) <==> NothingStale(kind, changes, maximumDepth)
    ensures kind == Categories ==> NothingStale(kind, changes, maximumDepth)
  {
    if changes == [] {
      ConsistentIndexes(NOTHING.live);
      assert IndexesAfter(kind, [], 0, maximumDepth);
    } else {
      var front := changes[..|changes| - 1];
      EveryRunIndexesItsTree(kind, front, maximumDepth);
      StaleInFront(kind, changes, maximumDepth);
      IndexesInFront(kind, changes, maximumDepth);
      assert changes[..|changes|] == changes;
      if NothingStale(kind, front, maximumDepth) {
        RunIsSound(kind, front, maximumDepth);
        ChangeKeepsIndexExactlyWhen(kind, After(kind, front, maximumDepth), changes[|changes| - 1], maximumDepth);
      }
    }
  }

  // ----- A run that leaves the index ------------------------------------------------------------------

  /** Below `r`: `a` with its child `b`, and `c`. */
  const PLACED: Tree := map[
    "r" := Node(None, "r"), "a" := Node(Some("r"), "r.a"), "b" := Node(Some("a"), "r.a.b"),
    "c" := Node(Some("r"), "r.c")]

  const CREATES: seq<Change> := [
    Place(Create("r", None)), Place(Create("a", Some("r"))), Place(Create("b", Some("a"))),
    Place(Create("c", Some("r")))]

  /** `b` is deleted, `a` is moved under `c`, and `b` is restored. */
  const STALE_RUN: seq<Change> :=
    CREATES + [Delete("b", "x"), Place(Move("a", Some("c"))), Restore("b")]

  /** The live rows then: `b` names its parent and not its path. */
  const STALE: Tree := map[
    "r" := Node(None, "r"), "a" := Node(Some("c"), "r.c.a"), "b" := Node(Some("a"), "r.a.b"),
    "c" := Node(Some("r"), "r.c")]

  lemma SmallDepths()
    ensures IdsInPath("r") == ["r"] && IdsInPath("r.a") == ["r", "a"] && IdsInPath("r.c") == ["r", "c"]
    ensures IdsInPath("r.a.b") == ["r", "a", "b"]
  {
    IdsOfId("r");
    PathForReadsBack(Some("r"), "a");
    PathForReadsBack(Some("r"), "c");
    PathForReadsBack(Some("r.a"), "b");
    SmallPaths();
  }

  lemma SmallPaths()
    ensures PathFor(Some("r"), "a") == "r.a" && PathFor(Some("r"), "c") == "r.c" && PathFor(Some("r.a"), "b") == "r.a.b"
  {
  }

  lemma AfterOneMore(kind: Kind, changes: seq<Change>, c: Change, maximumDepth: int)
    ensures After(kind, changes + [c], maximumDepth) == Changed(kind, After(kind, changes, maximumDepth), c, maximumDepth)
  {
    assert (changes + [c])[..|changes|] == changes;
  }

  lemma ChildIsCreated(kind: Kind, t: Tree, parent: string, id: string, maximumDepth: int)
    requires parent in t && id !in t && IsId(id) && DepthOf(t[parent].path) + 1 <= maximumDepth
    ensures Changed(kind, Store(t, map[]), Place(Create(id, Some(parent))), maximumDepth)
         == Store(t[id := Node(Some(parent), PathFor(Some(t[parent].path), id))], map[])
  {
  }

  lemma TwoArePlaced(kind: Kind, maximumDepth: int)
    requires maximumDepth >= 3
    ensures After(kind, CREATES[..2], maximumDepth)
         == Store(map["r" := Node(None, "r"), "a" := Node(Some("r"), "r.a")], map[])
  {
    SmallDepths();
    SmallPaths();
    var one: Tree := map["r" := Node(None, "r")];
    assert CREATES[..0] + [CREATES[0]] == CREATES[..1] && CREATES[..1] + [CREATES[1]] == CREATES[..2];
    AfterOneMore(kind, CREATES[..0], CREATES[0], maximumDepth);
    AfterOneMore(kind, CREATES[..1], CREATES[1], maximumDepth);
    assert After(kind, CREATES[..1], maximumDepth) == Store(one, map[]);
    ChildIsCreated(kind, one, "r", "a", maximumDepth);
  }

  lemma FourArePlaced(kind: Kind, maximumDepth: int)
    requires maximumDepth >= 3
    ensures After(kind, CREATES, maximumDepth) == Store(PLACED, map[])
  {
    SmallDepths();
    SmallPaths();
    TwoArePlaced(kind, maximumDepth);
    var two: Tree := map["r" := Node(None, "r"), "a" := Node(Some("r"), "r.a")];
    var three := two["b" := Node(Some("a"), "r.a.b")];
    assert CREATES[..2] + [CREATES[2]] == CREATES[..3] && CREATES[..3] + [CREATES[3]] == CREATES;
    AfterOneMore(kind, CREATES[..2], CREATES[2], maximumDepth);
    AfterOneMore(kind, CREATES[..3], CREATES[3], maximumDepth);
    ChildIsCreated(kind, two, "a", "b", maximumDepth);
    ChildIsCreated(kind, three, "r", "c", maximumDepth);
    assert three["c" := Node(Some("r"), "r.c")] == PLACED;
  }

  lemma ChildIsDeleted(kind: Kind, maximumDepth: int)
    ensures var left := Changed(kind, Store(PLACED, map[]), Delete("b", "x"), maximumDepth);
            && left.live == PLACED - {"b"}
            && left.bin == map["b" := Binned(PLACED["b"], if kind == Folders then Some("x") else None)]
  {
    assert Taken(kind, PLACED, "b") == {"b"} by {
      assert "r.a.b" + [SEPARATOR] == "r.a.b.";
    }
  }

  /** Moving a node that nothing is below changes its own row. */
  lemma LoneMove(t: Tree, id: string, parent: Option<string>)
    requires id in t && forall n :: n in t && n != id ==> !IsAtOrBelow(t[n].path, t[id].path)
    ensures MoveNode(t, id, parent) == t[id := Node(parent, PathFor(PathOf(t, parent), id))]
  {
    var to := PathFor(PathOf(t, parent), id);
    assert t[id].path[|t[id].path|..] == "";
    assert Reroot(t[id].path, t[id].path, to) == to;
  }

  lemma ParentIsMoved(maximumDepth: int)
    requires maximumDepth >= 3
    ensures var t := PLACED - {"b"};
            Accepted(t, Move("a", Some("c")), maximumDepth) && Apply(t, Move("a", Some("c"))) == STALE - {"b"}
  {
    MoveIsAccepted(maximumDepth);
    var t := PLACED - {"b"};
    NotBelowTheMoved();
    LoneMove(t, "a", Some("c"));
    assert t["a" := Node(Some("c"), "r.c.a")] == STALE - {"b"};
  }

  lemma MoveIsAccepted(maximumDepth: int)
    requires maximumDepth >= 3
    ensures Accepted(PLACED - {"b"}, Move("a", Some("c")), maximumDepth)
  {
    NotBelowTheMoved();
    SmallDepths();
  }

  lemma NotBelowTheMoved()
    ensures !IsAtOrBelow("r", "r.a") && !IsAtOrBelow("r.c", "r.a") && PathFor(Some("r.c"), "a") == "r.c.a"
  {
    assert "r.a" + [SEPARATOR] == "r.a.";
  }

  lemma ChildComesBack(kind: Kind, s: Store, maximumDepth: int)
    requires kind != Categories && s.live == STALE - {"b"}
    requires s.bin == map["b" := Binned(PLACED["b"], if kind == Folders then Some("x") else None)]
    ensures IsStale(kind, s, Restore("b"), maximumDepth)
    ensures Changed(kind, s, Restore("b"), maximumDepth) == Store(STALE, map[])
  {
    assert PathFor(Some("r.c.a"), "b") == "r.c.a.b";
    assert Batch(kind, s, "b") == {"b"};
    assert Changed(kind, s, Restore("b"), maximumDepth).live == STALE;
  }

  /** Every step of the run is accepted, for folders and for departments alike, and it ends with the live row `b`
      under the parent `a` and not below it by path. */
  lemma RestoreLeavesTheIndex(kind: Kind, maximumDepth: int)
    requires kind != Categories && maximumDepth >= 3
    ensures After(kind, STALE_RUN, maximumDepth) == Store(STALE, map[])
    ensures AtOrUnder(STALE, "b", "a") && !IsAtOrBelow(STALE["b"].path, STALE["a"].path)
    ensures !Indexes(STALE)
  {
    var deleted := Delete("b", "x");
    var moved := Place(Move("a", Some("c")));
    AfterOneMore(kind, CREATES, deleted, maximumDepth);
    AfterOneMore(kind, CREATES + [deleted], moved, maximumDepth);
    AfterOneMore(kind, CREATES + [deleted] + [moved], Restore("b"), maximumDepth);
    assert CREATES + [deleted] + [moved] + [Restore("b")] == STALE_RUN;
    FourArePlaced(kind, maximumDepth);
    ChildIsDeleted(kind, maximumDepth);
    ParentIsMoved(maximumDepth);
    ChildComesBack(kind, After(kind, CREATES + [deleted] + [moved], maximumDepth), maximumDepth);
    StaleMisreads();
  }

  lemma StaleMisreads()
    ensures AtOrUnder(STALE, "b", "a") && !IsAtOrBelow(STALE["b"].path, STALE["a"].path)
    ensures !Indexes(STALE)
  {
    UpFromParent(STALE, "b", 0);
    assert Up(STALE, "b", 1) == Some("a");
    assert "r.c.a" + [SEPARATOR] == "r.c.a." && "r.a.b"[2] != "r.c.a."[2];
    assert !AgreesOnAncestry(STALE, "b", "a");
  }
}
