/** The stored tree as a state machine: nodes are created with `pathFor`, moved with `rewriteSubtree`
    where `checkTreePlacement` allows it, and at every point of every run the paths agree with the
    parent relation they index. */
module TreeRuns {
  import opened Text
  import opened MaterialisedPath

  datatype Node = Node(parent: Option<string>, path: string)

  type Tree = map<string, Node>

  // ----- The reference: ancestry by following parents --------------------------------------------

  /** The node reached by `steps` parent links, if there are that many. */
  function Up(t: Tree, id: string, steps: nat): Option<string> {
    if steps == 0 then (if id in t then Some(id) else None)
    else
      match Up(t, id, steps - 1)
      case None => None
      case Some(node) => if node in t then t[node].parent else None
  }

  ghost predicate AtOrUnder(t: Tree, id: string, ancestor: string) {
    exists steps: nat :: Up(t, id, steps) == Some(ancestor)
  }

  /** No node is its own ancestor. */
  ghost predicate Acyclic(t: Tree) {
    forall id, steps: nat :: Up(t, id, steps) == Some(id) ==> steps == 0
  }

  // ----- Operations -----------------------------------------------------------------------------

  datatype Op = Create(id: string, parent: Option<string>) | Move(id: string, parent: Option<string>)

  function PathOf(t: Tree, id: Option<string>): Option<string> {
    if id.Some? && id.value in t then Some(t[id.value].path) else None
  }

  /** The nodes read before a move: the node itself and every path beginning with its path and a dot. */
  predicate InSubtree(t: Tree, path: string, id: string) {
    id in t && IsAtOrBelow(t[id].path, path)
  }

  /** What the placement check is asked. Creating, there is no node yet to be its own ancestor. */
  function PlacementOf(t: Tree, op: Op, maximumDepth: int): Placement {
    match op
    case Create(_, parent) => Placement(None, None, parent, PathOf(t, parent), maximumDepth)
    case Move(id, parent) => Placement(Some(id), PathOf(t, Some(id)), parent, PathOf(t, parent), maximumDepth)
  }

  /** The operation names nodes that exist, a fresh identifier when it creates one, and is not refused. */
  predicate Accepted(t: Tree, op: Op, maximumDepth: int) {
    && (op.Create? ==> IsId(op.id) && op.id !in t)
    && (op.Move? ==> op.id in t)
    && (op.parent.Some? ==> op.parent.value in t)
    && Rejections(PlacementOf(t, op, maximumDepth)) == []
  }

  function MoveNode(t: Tree, id: string, parent: Option<string>): Tree
    requires id in t
  {
    var from := t[id].path;
    var to := PathFor(PathOf(t, parent), id);
    map n | n in t ::
      Node(if n == id then parent else t[n].parent,
           if InSubtree(t, from, n) then Reroot(t[n].path, from, to) else t[n].path)
  }

  function Apply(t: Tree, op: Op): Tree
    requires op.Move? ==> op.id in t
  {
    match op
    case Create(id, parent) => t[id := Node(parent, PathFor(PathOf(t, parent), id))]
    case Move(id, parent) => MoveNode(t, id, parent)
  }

  /** A refused operation changes nothing. */
  function Step(t: Tree, op: Op, maximumDepth: int): Tree {
    if Accepted(t, op, maximumDepth) then Apply(t, op) else t
  }

  function Run(t: Tree, ops: seq<Op>, maximumDepth: int): Tree {
    if ops == [] then t
    else Step(Run(t, ops[..|ops| - 1], maximumDepth), ops[|ops| - 1], maximumDepth)
  }

  // ----- The writes of a move ---------------------------------------------------------------------

  ghost predicate Lists(rows: seq<Row>, id: string) {
    exists i :: 0 <= i < |rows| && rows[i].id == id
  }

  /** Rows read from the tree: each a stored node at or below the path. */
  ghost predicate ReadFrom(t: Tree, path: string, rows: seq<Row>) {
    forall i :: 0 <= i < |rows| ==> InSubtree(t, path, rows[i].id) && rows[i].path == t[rows[i].id].path
  }

  /** The rows a subtree read returns, in any order: none is left out. */
  ghost predicate IsListing(t: Tree, path: string, rows: seq<Row>) {
    && ReadFrom(t, path, rows)
    && forall id :: InSubtree(t, path, id) ==> Lists(rows, id)
  }

  function WritePaths(t: Tree, rows: seq<Row>): Tree {
    if rows == [] then t
    else
      var written := WritePaths(t, rows[..|rows| - 1]);
      var last := rows[|rows| - 1];
      if last.id in written then written[last.id := written[last.id].(path := last.path)] else written
  }

  lemma ListsSplit(rows: seq<Row>, id: string)
    requires rows != []
    ensures Lists(rows, id) <==> Lists(rows[..|rows| - 1], id) || rows[|rows| - 1].id == id
  {
    var front := rows[..|rows| - 1];
    if Lists(rows, id) && rows[|rows| - 1].id != id {
      var i :| 0 <= i < |rows| && rows[i].id == id;
      assert front[i].id == id;
    }
    if Lists(front, id) {
      var i :| 0 <= i < |front| && front[i].id == id;
      assert rows[i].id == id;
    }
  }

  /** Each listed node ends with the rewritten path, every other node with the path it had. */
  lemma {:induction false} WrittenPaths(t: Tree, from: string, to: string, rows: seq<Row>, id: string)
    requires ReadFrom(t, from, rows)
    requires id in t
    ensures var written := WritePaths(t, RewriteSubtree(rows, from, to));
            && written.Keys == t.Keys
            && written[id] ==
               if Lists(rows, id) then t[id].(path := Reroot(t[id].path, from, to)) else t[id]
  {
    if rows != [] {
      var front, last := rows[..|rows| - 1], rows[|rows| - 1];
      assert ReadFrom(t, from, front) by {
        forall i | 0 <= i < |front|
          ensures InSubtree(t, from, front[i].id) && front[i].path == t[front[i].id].path
        {
          assert front[i] == rows[i];
        }
      }
      WrittenPaths(t, from, to, front, id);
      ListsSplit(rows, id);
      assert RewriteSubtree(rows, from, to)[..|rows| - 1] == RewriteSubtree(front, from, to);
    }
  }

  /** Writing the rewritten rows and the moved node's parent is the move, whatever order the rows came in. */
  lemma RewrittenRowsMakeTheMove(t: Tree, id: string, parent: Option<string>, rows: seq<Row>)
    requires id in t && IsListing(t, t[id].path, rows)
    ensures var written := WritePaths(t, RewriteSubtree(rows, t[id].path, PathFor(PathOf(t, parent), id)));
            id in written && written[id := written[id].(parent := parent)] == MoveNode(t, id, parent)
  {
    var from, to := t[id].path, PathFor(PathOf(t, parent), id);
    var written := WritePaths(t, RewriteSubtree(rows, from, to));
    WrittenPaths(t, from, to, rows, id);
    forall n | n in t
      ensures written[n] ==
              if InSubtree(t, from, n) then t[n].(path := Reroot(t[n].path, from, to)) else t[n]
    {
      WrittenPaths(t, from, to, rows, n);
      ListedIsInSubtree(t, from, rows, n);
    }
  }

  lemma ListedIsInSubtree(t: Tree, path: string, rows: seq<Row>, id: string)
    requires IsListing(t, path, rows)
    ensures Lists(rows, id) <==> InSubtree(t, path, id)
  {
    if Lists(rows, id) {
      var i :| 0 <= i < |rows| && rows[i].id == id;
    }
  }

  // ----- What every operation keeps ---------------------------------------------------------------

  /** The stored path is the parent's path, a dot and the node's identifier; a root's is its own. */
  predicate WellPlaced(t: Tree, id: string) {
    && id in t && IsId(id)
    && (t[id].parent.Some? ==> t[id].parent.value in t)
    && t[id].path == PathFor(PathOf(t, t[id].parent), id)
  }

  ghost predicate Consistent(t: Tree) {
    forall id {:trigger WellPlaced(t, id)} :: id in t ==> WellPlaced(t, id)
  }

  lemma PathShape(t: Tree, id: string)
    requires Consistent(t) && id in t
    ensures IsId(id) && t[id].path != ""
    ensures t[id].parent.Some? ==>
              t[id].parent.value in t && t[id].path == t[t[id].parent.value].path + [SEPARATOR] + id
    ensures t[id].parent.None? ==> t[id].path == id
  {
    assert WellPlaced(t, id);
    if t[id].parent.Some? {
      assert WellPlaced(t, t[id].parent.value);
    }
  }

  /** The last identifier of a path is the node it belongs to, so no two nodes share a path. */
  lemma PathNamesItsNode(t: Tree, id: string, other: string)
    requires Consistent(t) && id in t && other in t
    requires t[id].path == t[other].path
    ensures id == other
  {
    assert WellPlaced(t, id) && WellPlaced(t, other);
    PathForReadsBack(PathOf(t, t[id].parent), id);
    PathForReadsBack(PathOf(t, t[other].parent), other);
    var ids := IdsInPath(t[id].path);
    assert ids[|ids| - 1] == id && ids[|ids| - 1] == other;
  }

  /** A node strictly inside a subtree has its parent in the subtree too. */
  lemma SubtreeHoldsParents(t: Tree, root: string, id: string)
    requires Consistent(t) && root in t && id in t && id != root
    requires InSubtree(t, t[root].path, id)
    ensures t[id].parent.Some? && InSubtree(t, t[root].path, t[id].parent.value)
  {
    PathShape(t, id);
    if t[id].path == t[root].path {
      PathNamesItsNode(t, id, root);
    }
    var from := t[root].path;
    assert t[id].path[|from|] == SEPARATOR;
    assert t[id].parent.Some?;
    BoundaryIsASeparator(t[t[id].parent.value].path, id, from);
  }

  /** And a node outside it has its parent outside. */
  lemma OutsideHoldsParents(t: Tree, root: string, id: string)
    requires Consistent(t) && root in t && id in t
    requires !InSubtree(t, t[root].path, id) && t[id].parent.Some?
    ensures !InSubtree(t, t[root].path, t[id].parent.value)
  {
    PathShape(t, id);
    var parent := t[id].parent.value;
    if InSubtree(t, t[root].path, parent) {
      assert t[parent].path + [SEPARATOR] <= t[id].path;
      AtOrBelowTransitive(t[id].path, t[parent].path, t[root].path);
    }
  }

  lemma CreateKeepsPaths(t: Tree, id: string, parent: Option<string>)
    requires Consistent(t) && IsId(id) && id !in t
    requires parent.Some? ==> parent.value in t
    ensures Consistent(Apply(t, Create(id, parent)))
  {
    var grown := Apply(t, Create(id, parent));
    forall n | n in grown
      ensures WellPlaced(grown, n)
    {
      if n != id {
        assert WellPlaced(t, n);
      }
    }
  }

  /** Below the moved node, the rewrite commutes with building a child's path from its parent's. */
  lemma RerootOfAChild(path: string, id: string, from: string, to: string)
    requires |from| <= |path|
    ensures Reroot(path + [SEPARATOR] + id, from, to) == Reroot(path, from, to) + [SEPARATOR] + id
  {
    var child := path + [SEPARATOR] + id;
    assert child[|from|..] == path[|from|..] + [SEPARATOR] + id;
  }

  lemma MoveKeepsPlace(t: Tree, root: string, parent: Option<string>, id: string)
    requires Consistent(t) && root in t && id in t
    requires parent.Some? ==> parent.value in t && !InSubtree(t, t[root].path, parent.value)
    ensures WellPlaced(MoveNode(t, root, parent), id)
  {
    var from, to := t[root].path, PathFor(PathOf(t, parent), root);
    var moved := MoveNode(t, root, parent);
    PathShape(t, id);
    PathShape(t, root);
    if id == root {
      assert moved[id] == Node(parent, to);
    } else if t[id].parent.Some? {
      var up := t[id].parent.value;
      if InSubtree(t, from, id) {
        SubtreeHoldsParents(t, root, id);
        RerootOfAChild(t[up].path, id, from, to);
        assert Reroot(t[up].path, from, to) != "";
      } else {
        OutsideHoldsParents(t, root, id);
        PathShape(t, up);
      }
    } else if InSubtree(t, from, id) {
      SubtreeHoldsParents(t, root, id);
    }
  }

  lemma AcceptedParentIsOutside(t: Tree, id: string, parent: Option<string>, maximumDepth: int)
    requires Accepted(t, Move(id, parent), maximumDepth)
    ensures parent.Some? ==> !InSubtree(t, t[id].path, parent.value)
  {
  }

  lemma StepKeepsPaths(t: Tree, op: Op, maximumDepth: int)
    requires Consistent(t)
    ensures Consistent(Step(t, op, maximumDepth))
  {
    if Accepted(t, op, maximumDepth) {
      match op
      case Create(id, parent) =>
        CreateKeepsPaths(t, id, parent);
      case Move(id, parent) =>
        AcceptedParentIsOutside(t, id, parent, maximumDepth);
        forall n | n in t
          ensures WellPlaced(MoveNode(t, id, parent), n)
        {
          MoveKeepsPlace(t, id, parent, n);
        }
    }
  }

  lemma {:induction false} RunKeepsPaths(t: Tree, ops: seq<Op>, maximumDepth: int)
    requires Consistent(t)
    ensures Consistent(Run(t, ops, maximumDepth))
  {
    if ops != [] {
      RunKeepsPaths(t, ops[..|ops| - 1], maximumDepth);
      StepKeepsPaths(Run(t, ops[..|ops| - 1], maximumDepth), ops[|ops| - 1], maximumDepth);
    }
  }

  // ----- What consistent paths mean ---------------------------------------------------------------

  lemma {:induction false} UpFromParent(t: Tree, id: string, steps: nat)
    requires id in t && t[id].parent.Some? && t[id].parent.value in t
    ensures Up(t, id, steps + 1) == Up(t, t[id].parent.value, steps)
  {
    if steps == 0 {
      assert Up(t, id, 0) == Some(id);
    } else {
      UpFromParent(t, id, steps - 1);
    }
  }

  /** Each parent link shortens the path and leads to a node the path lies below. */
  lemma {:induction false} UpShortensPath(t: Tree, id: string, steps: nat)
    requires Consistent(t)
    ensures Up(t, id, steps).Some? ==>
              var above := Up(t, id, steps).value;
              && id in t && above in t
              && IsAtOrBelow(t[id].path, t[above].path)
              && |t[above].path| + steps <= |t[id].path|
  {
    if steps > 0 && Up(t, id, steps).Some? {
      UpShortensPath(t, id, steps - 1);
      var below := Up(t, id, steps - 1).value;
      PathShape(t, below);
      var above := t[below].parent.value;
      assert t[above].path + [SEPARATOR] <= t[below].path;
      AtOrBelowTransitive(t[id].path, t[below].path, t[above].path);
    }
  }

  lemma {:induction false} BelowIsReached(t: Tree, id: string, ancestor: string) returns (steps: nat)
    requires Consistent(t) && id in t && ancestor in t
    requires IsAtOrBelow(t[id].path, t[ancestor].path)
    ensures Up(t, id, steps) == Some(ancestor)
    decreases |t[id].path|
  {
    if t[id].path == t[ancestor].path {
      PathNamesItsNode(t, id, ancestor);
      steps := 0;
    } else {
      SubtreeHoldsParents(t, ancestor, id);
      PathShape(t, id);
      var k := BelowIsReached(t, t[id].parent.value, ancestor);
      UpFromParent(t, id, k);
      steps := k + 1;
    }
  }

  /** The prefix comparison answers exactly the question the parent links answer. */
  lemma ContainmentIsAncestry(t: Tree, id: string, ancestor: string)
    requires Consistent(t) && id in t && ancestor in t
    ensures AgreesOnAncestry(t, id, ancestor)
  {
    if IsAtOrBelow(t[id].path, t[ancestor].path) {
      var steps := BelowIsReached(t, id, ancestor);
    }
    if AtOrUnder(t, id, ancestor) {
      var steps: nat :| Up(t, id, steps) == Some(ancestor);
      UpShortensPath(t, id, steps);
    }
  }

  lemma ConsistentIsAcyclic(t: Tree)
    requires Consistent(t)
    ensures Acyclic(t)
  {
    forall id, steps: nat | Up(t, id, steps) == Some(id)
      ensures steps == 0
    {
      UpShortensPath(t, id, steps);
    }
  }

  /** Read back, a path lists the node's ancestors from the root down: the identifier `steps` from the
      end is the node `steps` parent links up, and there are no more of either. */
  predicate ListsAncestor(t: Tree, id: string, steps: nat)
    requires id in t
  {
    var ids := IdsInPath(t[id].path);
    Up(t, id, steps) == if steps < |ids| then Some(ids[|ids| - 1 - steps]) else None
  }

  lemma {:induction false} PathListsTheChain(t: Tree, id: string, steps: nat)
    requires Consistent(t) && id in t
    ensures ListsAncestor(t, id, steps)
    decreases |t[id].path|
  {
    PathShape(t, id);
    assert WellPlaced(t, id);
    PathForReadsBack(PathOf(t, t[id].parent), id);
    if steps > 0 {
      if t[id].parent.Some? {
        var parent := t[id].parent.value;
        PathListsTheChain(t, parent, steps - 1);
        UpFromParent(t, id, steps - 1);
        assert IdsInPath(t[id].path) == IdsInPath(t[parent].path) + [id];
      } else {
        NothingAboveARoot(t, id, steps);
      }
    } else {
      assert Up(t, id, 0) == Some(id);
    }
  }

  lemma {:induction false} NothingAboveARoot(t: Tree, id: string, steps: nat)
    requires id in t && t[id].parent.None? && steps > 0
    ensures Up(t, id, steps) == None
  {
    if steps > 1 {
      NothingAboveARoot(t, id, steps - 1);
    } else {
      assert Up(t, id, 0) == Some(id);
    }
  }

  /** The prefix comparison and the parent links agree on a pair of nodes. */
  ghost predicate AgreesOnAncestry(t: Tree, id: string, ancestor: string)
    requires id in t && ancestor in t
  {
    IsAtOrBelow(t[id].path, t[ancestor].path) <==> AtOrUnder(t, id, ancestor)
  }

  /** The paths index the tree: no cycles; the stored path read back is the parent chain; and containment by prefix
      is ancestry by parent links. */
  ghost predicate Indexes(t: Tree) {
    && Acyclic(t)
    && (forall id, ancestor :: id in t && ancestor in t ==> AgreesOnAncestry(t, id, ancestor))
    && (forall id, steps: nat :: id in t ==> ListsAncestor(t, id, steps))
  }

  lemma ConsistentIndexes(t: Tree)
    requires Consistent(t)
    ensures Indexes(t)
  {
    ConsistentIsAcyclic(t);
    forall id, ancestor | id in t && ancestor in t
      ensures AgreesOnAncestry(t, id, ancestor)
    {
      ContainmentIsAncestry(t, id, ancestor);
    }
    forall id, steps: nat | id in t
      ensures ListsAncestor(t, id, steps)
    {
      PathListsTheChain(t, id, steps);
    }
  }

  // ----- When an operation is accepted --------------------------------------------------------------

  /** Counting parent links, one more level fits below the node. */
  predicate HasRoom(t: Tree, node: string, maximumDepth: int) {
    maximumDepth >= 1 && Up(t, node, maximumDepth - 1).None?
  }

  lemma RoomIsDepth(t: Tree, node: string, maximumDepth: int)
    requires Consistent(t) && node in t
    ensures HasRoom(t, node, maximumDepth) <==> DepthOf(t[node].path) + 1 <= maximumDepth
  {
    if maximumDepth >= 1 {
      PathListsTheChain(t, node, maximumDepth - 1);
    }
  }

  /** The checks on paths refuse, in terms of parent links, exactly what they should: a parent that is not there or
      has no room below it, an identifier taken or not one, a move of a missing node or to a place under itself. */
  lemma AcceptedExactlyWhen(t: Tree, op: Op, maximumDepth: int)
    requires Consistent(t)
    ensures Accepted(t, op, maximumDepth) <==>
              && (op.parent.Some? ==> op.parent.value in t && HasRoom(t, op.parent.value, maximumDepth))
              && match op
                 case Create(id, _) => IsId(id) && id !in t
                 case Move(id, parent) => id in t && (parent.Some? ==> !AtOrUnder(t, parent.value, id))
  {
    if op.parent.Some? && op.parent.value in t {
      RoomIsDepth(t, op.parent.value, maximumDepth);
      if op.Move? && op.id in t {
        ContainmentIsAncestry(t, op.parent.value, op.id);
        assert Up(t, op.id, 0) == Some(op.id);
      }
    }
  }

  // ----- What a create and a move do ----------------------------------------------------------------

  /** What a path names, it is below. */
  lemma NamedIsAbove(t: Tree, n: string, id: string)
    requires Consistent(t) && n in t && id in t && id in IdsInPath(t[n].path)
    ensures InSubtree(t, t[id].path, n)
  {
    var ids := IdsInPath(t[n].path);
    var k :| 0 <= k < |ids| && ids[k] == id;
    PathListsTheChain(t, n, |ids| - 1 - k);
    ContainmentIsAncestry(t, n, id);
  }

  /** A node ends below the moved one's new path exactly when it was below the old one. */
  lemma MovedSubtree(t: Tree, id: string, parent: Option<string>, n: string)
    requires Consistent(t) && id in t && n in t && (parent.Some? ==> parent.value in t)
    ensures InSubtree(MoveNode(t, id, parent), PathFor(PathOf(t, parent), id), n) <==> InSubtree(t, t[id].path, n)
  {
    var to := PathFor(PathOf(t, parent), id);
    PathShape(t, id);
    if InSubtree(t, t[id].path, n) {
      RerootKeepsRelativeDepth(t[n].path, t[id].path, to);
    } else if IsAtOrBelow(t[n].path, to) {
      PathForReadsBack(PathOf(t, parent), id);
      NamesWhatItIsBelow(t[n].path, to, id);
      NamedIsAbove(t, n, id);
    }
  }

  /** A move hangs the node under its new parent and no other node anywhere else, takes along exactly the nodes that
      hung below it by parent links, and leaves every other path alone. */
  lemma MoveTakesTheSubtree(t: Tree, id: string, parent: Option<string>, n: string)
    requires Consistent(t) && id in t && n in t
    requires parent.Some? ==> parent.value in t && !InSubtree(t, t[id].path, parent.value)
    ensures var moved := MoveNode(t, id, parent);
            && moved.Keys == t.Keys && moved[n].parent == (if n == id then parent else t[n].parent)
            && (AtOrUnder(moved, n, id) <==> AtOrUnder(t, n, id))
            && (!AtOrUnder(t, n, id) ==> moved[n] == t[n])
  {
    var moved := MoveNode(t, id, parent);
    forall m | m in t ensures WellPlaced(moved, m) {
      MoveKeepsPlace(t, id, parent, m);
    }
    MovedSubtree(t, id, parent, n);
    RootIsMoved(t, id, parent);
    ContainmentIsAncestry(t, n, id);
    ContainmentIsAncestry(moved, n, id);
  }

  lemma RootIsMoved(t: Tree, id: string, parent: Option<string>)
    requires id in t
    ensures MoveNode(t, id, parent)[id] == Node(parent, PathFor(PathOf(t, parent), id))
  {
    assert t[id].path[|t[id].path|..] == "";
    assert Reroot(t[id].path, t[id].path, PathFor(PathOf(t, parent), id)) == PathFor(PathOf(t, parent), id);
  }

  /** Moving a node back where it was restores the whole tree. */
  lemma MoveUndone(t: Tree, id: string, parent: Option<string>)
    requires Consistent(t) && id in t
    requires parent.Some? ==> parent.value in t && !InSubtree(t, t[id].path, parent.value)
    ensures id in MoveNode(t, id, parent) && MoveNode(MoveNode(t, id, parent), id, t[id].parent) == t
  {
    var moved, from, to := MoveNode(t, id, parent), t[id].path, PathFor(PathOf(t, parent), id);
    RootIsMoved(t, id, parent);
    PathShape(t, id);
    assert PathFor(PathOf(moved, t[id].parent), id) == from by {
      assert WellPlaced(t, id);
      if t[id].parent.Some? {
        assert |t[t[id].parent.value].path| < |from|;
      }
    }
    forall n | n in t ensures MoveNode(moved, id, t[id].parent)[n] == t[n] {
      MovedSubtree(t, id, parent, n);
      if InSubtree(t, from, n) {
        RerootUndone(t[n].path, from, to);
      }
    }
  }

  /** A create adds its node under its parent and changes nothing else; where a path is asked for, it is there. */
  lemma CreateAddsOne(t: Tree, id: string, parent: Option<string>, n: string)
    requires Consistent(t) && IsId(id) && id !in t && (parent.Some? ==> parent.value in t)
    ensures var grown := Apply(t, Create(id, parent));
            && grown.Keys == t.Keys + {id} && grown[id].parent == parent
            && (n in t ==> grown[n] == t[n])
            && (n in t ==> (AtOrUnder(grown, id, n) <==> parent.Some? && AtOrUnder(t, parent.value, n)))
  {
    var grown := Apply(t, Create(id, parent));
    if n in t {
      CreateKeepsPaths(t, id, parent);
      ContainmentIsAncestry(grown, id, n);
      NewPathIsBelow(t, grown, id, parent, n);
      if parent.Some? {
        ContainmentIsAncestry(t, parent.value, n);
      }
    }
  }

  lemma NothingInsideAnId(id: string, path: string)
    requires IsId(id)
    ensures !(path + [SEPARATOR] <= id)
  {
    assert |path| < |id| ==> id[|path|] in id;
  }

  lemma NewPathIsBelow(t: Tree, grown: Tree, id: string, parent: Option<string>, n: string)
    requires Consistent(t) && Consistent(grown) && id !in t && n in t && (parent.Some? ==> parent.value in t)
    requires grown == Apply(t, Create(id, parent))
    ensures IsAtOrBelow(grown[id].path, t[n].path) <==> parent.Some? && IsAtOrBelow(t[parent.value].path, t[n].path)
  {
    PathShape(grown, id);
    NothingInsideAnId(id, t[n].path);
    if t[n].path == grown[id].path {
      PathNamesItsNode(grown, id, n);
    }
    if t[n].path + [SEPARATOR] <= grown[id].path {
      if parent.Some? {
        BoundaryIsASeparator(t[parent.value].path, id, t[n].path);
      }
    }
  }

  // ----- The depth ceiling ------------------------------------------------------------------------

  ghost predicate WithinCeiling(t: Tree, maximumDepth: int) {
    forall id :: id in t ==> DepthOf(t[id].path) <= maximumDepth
  }

  /** The height of the subtree a move takes, as measured over its rows. */
  predicate Fits(t: Tree, op: Op, rows: seq<Row>, maximumDepth: int)
    requires op.Move? ==> op.id in t
  {
    op.Move? ==>
      (if op.parent.Some? && op.parent.value in t then DepthOf(t[op.parent.value].path) else 0)
      + RelativeDepthOf(rows, t[op.id].path) <= maximumDepth
  }

  /** Placement and height checked together, every operation keeps the whole tree within the ceiling. */
  lemma StepKeepsCeiling(t: Tree, op: Op, rows: seq<Row>, maximumDepth: int)
    requires Consistent(t) && WithinCeiling(t, maximumDepth) && maximumDepth >= 1
    requires Accepted(t, op, maximumDepth)
    requires op.Move? ==> IsListing(t, t[op.id].path, rows)
    requires Fits(t, op, rows, maximumDepth)
    ensures WithinCeiling(Apply(t, op), maximumDepth)
  {
    var parentPath := PathOf(t, op.parent);
    if op.Move? {
      assert WellPlaced(t, op.id);
    }
    PathForReadsBack(parentPath, op.id);
    var to := PathFor(parentPath, op.id);
    match op
    case Create(id, parent) =>
      assert forall n :: n in Apply(t, op) && n != id ==> Apply(t, op)[n] == t[n];
    case Move(id, parent) =>
      var from := t[id].path;
      var parentDepth := if parentPath.Some? then DepthOf(parentPath.value) else 0;
      RelativeDepthIsTheMaximum(rows, from);
      forall n | n in t
        ensures DepthOf(MoveNode(t, id, parent)[n].path) <= maximumDepth
      {
        if InSubtree(t, from, n) {
          ListedIsInSubtree(t, from, rows, n);
          var i :| 0 <= i < |rows| && rows[i].id == n;
          RerootKeepsRelativeDepth(t[n].path, from, to);
          assert rows[i].path == t[n].path;
        }
      }
  }

  /** One operation as the services perform it, with the subtree rows a move reads. */
  ghost function MeasuredStep(t: Tree, op: Op, rows: seq<Row>, maximumDepth: int): Tree {
    if && Accepted(t, op, maximumDepth)
       && (op.Move? ==> IsListing(t, t[op.id].path, rows))
       && Fits(t, op, rows, maximumDepth)
    then Apply(t, op) else t
  }

  ghost function MeasuredRun(t: Tree, ops: seq<(Op, seq<Row>)>, maximumDepth: int): Tree {
    if ops == [] then t
    else
      var (op, rows) := ops[|ops| - 1];
      MeasuredStep(MeasuredRun(t, ops[..|ops| - 1], maximumDepth), op, rows, maximumDepth)
  }

  /** The operations of a measured run that were performed: those that pass, when they come, placement and height. */
  ghost function Performed(t: Tree, ops: seq<(Op, seq<Row>)>, maximumDepth: int): seq<Op> {
    if ops == [] then []
    else
      var before := Performed(t, ops[..|ops| - 1], maximumDepth);
      var (op, rows) := ops[|ops| - 1];
      var now := Run(t, before, maximumDepth);
      if && Accepted(now, op, maximumDepth)
         && (op.Move? ==> IsListing(now, now[op.id].path, rows))
         && Fits(now, op, rows, maximumDepth)
      then before + [op] else before
  }

  /** The height check only leaves operations out: a measured run is the plain run of those it performed. */
  lemma {:induction false} MeasuredRunIsARun(t: Tree, ops: seq<(Op, seq<Row>)>, maximumDepth: int)
    ensures MeasuredRun(t, ops, maximumDepth) == Run(t, Performed(t, ops, maximumDepth), maximumDepth)
  {
    if ops != [] {
      MeasuredRunIsARun(t, ops[..|ops| - 1], maximumDepth);
      var before := Performed(t, ops[..|ops| - 1], maximumDepth);
      var op := ops[|ops| - 1].0;
      assert (before + [op])[..|before|] == before;
    }
  }

  lemma {:induction false} MeasuredRunKeepsCeiling(ops: seq<(Op, seq<Row>)>, maximumDepth: int)
    requires maximumDepth >= 1
    ensures Consistent(MeasuredRun(map[], ops, maximumDepth))
    ensures WithinCeiling(MeasuredRun(map[], ops, maximumDepth), maximumDepth)
  {
    if ops != [] {
      MeasuredRunKeepsCeiling(ops[..|ops| - 1], maximumDepth);
      var t := MeasuredRun(map[], ops[..|ops| - 1], maximumDepth);
      var (op, rows) := ops[|ops| - 1];
      StepKeepsPaths(t, op, maximumDepth);
      if MeasuredStep(t, op, rows, maximumDepth) != t {
        StepKeepsCeiling(t, op, rows, maximumDepth);
      }
    }
  }

  /** Two roots, the first with one child. */
  function ThreeNodes(a: string, b: string, c: string): Tree {
    map[a := Node(None, a), b := Node(Some(a), PathFor(Some(a), b)), c := Node(None, c)]
  }

  lemma ThreeNodesFit(a: string, b: string, c: string)
    requires IsId(a) && IsId(b) && IsId(c) && a != b && b != c && a != c
    ensures Consistent(ThreeNodes(a, b, c)) && WithinCeiling(ThreeNodes(a, b, c), 2)
    ensures Accepted(ThreeNodes(a, b, c), Move(a, Some(c)), 2)
  {
    var t := ThreeNodes(a, b, c);
    assert WellPlaced(t, a) && WellPlaced(t, b) && WellPlaced(t, c);
    IdsOfId(a);
    IdsOfId(c);
    PathForReadsBack(Some(a), b);
    assert !IsAtOrBelow(c, a) by {
      assert SEPARATOR !in c;
      assert |a| < |c| ==> c[|a|] in c;
    }
  }

  lemma ThreeNodesMoved(a: string, b: string, c: string)
    requires IsId(a) && IsId(b) && IsId(c) && a != b && b != c && a != c
    ensures MoveNode(ThreeNodes(a, b, c), a, Some(c))[b].path == c + [SEPARATOR] + a + [SEPARATOR] + b
  {
    var t := ThreeNodes(a, b, c);
    assert InSubtree(t, a, b);
    RerootOfAChild(a, b, a, c + [SEPARATOR] + a);
  }

  lemma ThreeDeep(a: string, b: string, c: string)
    requires IsId(a) && IsId(b) && IsId(c)
    ensures DepthOf(c + [SEPARATOR] + a + [SEPARATOR] + b) == 3
  {
    IdsOfId(a);
    IdsOfId(b);
    IdsOfId(c);
    IdsOfJoinedPaths(c, a);
    IdsOfJoinedPaths(c + [SEPARATOR] + a, b);
  }

  /** The ceiling is kept by an accepted move exactly when the height check passes. */
  lemma MoveKeepsCeilingExactlyWhen(t: Tree, id: string, parent: Option<string>, rows: seq<Row>, maximumDepth: int)
    requires Consistent(t) && WithinCeiling(t, maximumDepth) && maximumDepth >= 1
    requires Accepted(t, Move(id, parent), maximumDepth) && IsListing(t, t[id].path, rows)
    ensures WithinCeiling(Apply(t, Move(id, parent)), maximumDepth) <==> Fits(t, Move(id, parent), rows, maximumDepth)
  {
    if Fits(t, Move(id, parent), rows, maximumDepth) {
      StepKeepsCeiling(t, Move(id, parent), rows, maximumDepth);
    }
    if WithinCeiling(Apply(t, Move(id, parent)), maximumDepth) {
      var deepest := DeepestMoved(t, id, parent, rows);
      assert deepest in MoveNode(t, id, parent);
    }
  }

  /** Some node of the moved subtree ends as deep as the parent's depth and the subtree's height together. */
  lemma DeepestMoved(t: Tree, id: string, parent: Option<string>, rows: seq<Row>) returns (deepest: string)
    requires Consistent(t) && id in t && IsListing(t, t[id].path, rows) && (parent.Some? ==> parent.value in t)
    ensures deepest in t
    ensures DepthOf(MoveNode(t, id, parent)[deepest].path)
         == (if parent.Some? then DepthOf(t[parent.value].path) else 0) + RelativeDepthOf(rows, t[id].path)
  {
    var from, to := t[id].path, PathFor(PathOf(t, parent), id);
    var parentDepth := if parent.Some? then DepthOf(t[parent.value].path) else 0;
    assert WellPlaced(t, id);
    PathForReadsBack(PathOf(t, parent), id);
    ListedIsInSubtree(t, from, rows, id);
    var root :| 0 <= root < |rows| && rows[root].id == id;
    assert rows[root].path == from;
    assert forall i :: 0 <= i < |rows| ==> IsAtOrBelow(rows[i].path, from);
    HeightBoundsTheMove(rows, from, to, parentDepth);
    var i :| 0 <= i < |rows| &&
      DepthOf(RewriteSubtree(rows, from, to)[i].path) == parentDepth + RelativeDepthOf(rows, from);
    deepest := rows[i].id;
    assert InSubtree(t, from, deepest) && rows[i].path == t[deepest].path;
  }

  function ThreeCreates(a: string, b: string, c: string): seq<Op> {
    [Create(a, None), Create(b, Some(a)), Create(c, None)]
  }

  /** Creating the three nodes in turn, within a ceiling of two. */
  lemma ThreeNodesAreReached(a: string, b: string, c: string)
    requires IsId(a) && IsId(b) && IsId(c) && a != b && b != c && a != c
    ensures Run(map[], ThreeCreates(a, b, c), 2) == ThreeNodes(a, b, c)
  {
    var one, two, three := [Create(a, None)], [Create(a, None), Create(b, Some(a))], ThreeCreates(a, b, c);
    assert one[..0] == [] && two[..1] == one && three[..2] == two;
    IdsOfId(a);
    assert Run(map[], one, 2) == map[a := Node(None, a)];
    assert Run(map[], two, 2) == map[a := Node(None, a), b := Node(Some(a), PathFor(Some(a), b))];
  }

  /** The placement check alone sees only the moved node: with a ceiling of two it lets `a`, which has a
      child, move under `c`, and the child ends at depth three. */
  lemma PlacementAloneBreaksTheCeiling(a: string, b: string, c: string)
    requires IsId(a) && IsId(b) && IsId(c) && a != b && b != c && a != c
    ensures WithinCeiling(Run(map[], ThreeCreates(a, b, c), 2), 2)
    ensures !WithinCeiling(Run(map[], ThreeCreates(a, b, c) + [Move(a, Some(c))], 2), 2)
  {
    var t := ThreeNodes(a, b, c);
    ThreeNodesAreReached(a, b, c);
    ThreeNodesFit(a, b, c);
    ThreeNodesMoved(a, b, c);
    ThreeDeep(a, b, c);
    var ops := ThreeCreates(a, b, c) + [Move(a, Some(c))];
    assert ops[..3] == ThreeCreates(a, b, c) && ops[3] == Move(a, Some(c));
    assert Run(map[], ops, 2) == Apply(t, Move(a, Some(c)));
    assert b in Apply(t, Move(a, Some(c)));
  }
}
