/** Materialised-path arithmetic (packages/domain/src/tree.ts): how ancestry is written into a string,
    read back, and rewritten when a subtree moves. */
module MaterialisedPath {
  import opened Text

  const SEPARATOR := '.'

  function PathFor(parentPath: Option<string>, id: string): string {
    if parentPath.Some? && parentPath.value != "" then parentPath.value + [SEPARATOR] + id else id
  }

  function NonEmpty(parts: seq<string>): seq<string> {
    if parts == [] then []
    else (if parts[0] == "" then [] else [parts[0]]) + NonEmpty(parts[1..])
  }

  function IdsInPath(path: string): seq<string> {
    NonEmpty(Split(path, SEPARATOR))
  }

  function AncestorIdsOf(path: string): seq<string> {
    var ids := IdsInPath(path);
    if ids == [] then [] else ids[..|ids| - 1]
  }

  function DepthOf(path: string): nat {
    |IdsInPath(path)|
  }

  predicate IsAtOrBelow(candidatePath: string, ancestorPath: string) {
    candidatePath == ancestorPath || ancestorPath + [SEPARATOR] <= candidatePath
  }

  /** An identifier: a UUID contains no dot. */
  predicate IsId(id: string) {
    id != "" && SEPARATOR !in id
  }

  datatype Rejection = TooDeep | ParentIsSelf | ParentIsDescendant

  datatype Placement = Placement(
    nodeId: Option<string>, nodePath: Option<string>,
    parentId: Option<string>, parentPath: Option<string>,
    maximumDepth: int)

  /** The reasons a placement is refused, in the order they are reported. */
  function Rejections(p: Placement): seq<Rejection> {
    if p.parentId.None? then []
    else
      (if p.nodeId == p.parentId then [ParentIsSelf] else [])
      + (if p.nodePath.Some? && p.parentPath.Some? && IsAtOrBelow(p.parentPath.value, p.nodePath.value)
         then [ParentIsDescendant] else [])
      + (if p.parentPath.Some? && DepthOf(p.parentPath.value) + 1 > p.maximumDepth then [TooDeep] else [])
  }

  /** The order in which reasons are reported. */
  function Rank(rejection: Rejection): nat {
    match rejection
    case ParentIsSelf => 0
    case ParentIsDescendant => 1
    case TooDeep => 2
  }

  /** Every reason is reported, not the first, each once and in order; a root is never refused. */
  method CheckTreePlacement(p: Placement) returns (rejections: seq<Rejection>)
    ensures rejections == Rejections(p)
    ensures p.parentId.None? ==> rejections == []
    ensures p.parentId.Some? ==>
              && (ParentIsSelf in rejections <==> p.nodeId == p.parentId)
              && (ParentIsDescendant in rejections <==>
                    p.nodePath.Some? && p.parentPath.Some? && IsAtOrBelow(p.parentPath.value, p.nodePath.value))
              && (TooDeep in rejections <==>
                    p.parentPath.Some? && DepthOf(p.parentPath.value) >= p.maximumDepth)
    ensures forall i, j :: 0 <= i < j < |rejections| ==> Rank(rejections[i]) < Rank(rejections[j])
  {
    rejections := [];
    if p.parentId.None? {
      return;
    }
    if p.nodeId.Some? && p.parentId == p.nodeId {
      rejections := rejections + [ParentIsSelf];
    }
    if p.nodePath.Some? && p.parentPath.Some? && IsAtOrBelow(p.parentPath.value, p.nodePath.value) {
      rejections := rejections + [ParentIsDescendant];
    }
    if p.parentPath.Some? && DepthOf(p.parentPath.value) + 1 > p.maximumDepth {
      rejections := rejections + [TooDeep];
    }
  }

  datatype Row = Row(id: string, path: string)

  /** The path a node of the moved subtree takes. */
  function Reroot(path: string, fromPath: string, toPath: string): string {
    toPath + if |fromPath| <= |path| then path[|fromPath|..] else ""
  }

  function RewriteSubtree(rows: seq<Row>, fromPath: string, toPath: string): seq<Row> {
    seq(|rows|, i requires 0 <= i < |rows| => Row(rows[i].id, Reroot(rows[i].path, fromPath, toPath)))
  }

  function Max(a: int, b: int): int {
    if a < b then b else a
  }

  /** The reduction runs from the first row to the last, starting from one. */
  function RelativeDepthOf(rows: seq<Row>, rootPath: string): int {
    if rows == [] then 1
    else Max(RelativeDepthOf(rows[..|rows| - 1], rootPath),
             DepthOf(rows[|rows| - 1].path) - DepthOf(rootPath) + 1)
  }

  // ----- Splitting and depth --------------------------------------------------------------------

  lemma {:induction false} NonEmptyAppend(a: seq<string>, b: seq<string>)
    ensures NonEmpty(a + b) == NonEmpty(a) + NonEmpty(b)
  {
    if a == [] {
      assert a + b == b;
    } else {
      var head := if a[0] == "" then [] else [a[0]];
      calc {
        NonEmpty(a + b);
      == { assert (a + b)[0] == a[0] && (a + b)[1..] == a[1..] + b; }
        head + NonEmpty(a[1..] + b);
      == { NonEmptyAppend(a[1..], b); }
        head + (NonEmpty(a[1..]) + NonEmpty(b));
      ==
        NonEmpty(a) + NonEmpty(b);
      }
    }
  }

  /** Reading a path back is a homomorphism: the identifiers of two joined paths are those of both. */
  lemma IdsOfJoinedPaths(a: string, b: string)
    ensures IdsInPath(a + [SEPARATOR] + b) == IdsInPath(a) + IdsInPath(b)
    ensures DepthOf(a + [SEPARATOR] + b) == DepthOf(a) + DepthOf(b)
  {
    SplitAppend(a, b, SEPARATOR);
    NonEmptyAppend(Split(a, SEPARATOR), Split(b, SEPARATOR));
  }

  lemma IdsOfId(id: string)
    requires IsId(id)
    ensures IdsInPath(id) == [id]
  {
    SplitPiece(id, SEPARATOR);
    assert NonEmpty([id]) == [id] + NonEmpty([]);
  }

  /** Building a path and reading it back: the parent's identifiers, then the node's own. */
  lemma PathForReadsBack(parentPath: Option<string>, id: string)
    requires IsId(id)
    ensures IdsInPath(PathFor(parentPath, id))
         == (if parentPath.Some? then IdsInPath(parentPath.value) else []) + [id]
    ensures AncestorIdsOf(PathFor(parentPath, id))
         == if parentPath.Some? then IdsInPath(parentPath.value) else []
  {
    IdsOfId(id);
    if parentPath.Some? {
      if parentPath.value == "" {
        assert NonEmpty([""]) == NonEmpty([]);
      } else {
        IdsOfJoinedPaths(parentPath.value, id);
      }
    }
  }

  // ----- Containment ----------------------------------------------------------------------------

  /** The boundary check: below a child's path is at or below the parent's, because the child's own
      identifier holds no separator. */
  lemma BoundaryIsASeparator(path: string, id: string, ancestor: string)
    requires SEPARATOR !in id
    requires ancestor + [SEPARATOR] <= path + [SEPARATOR] + id
    ensures IsAtOrBelow(path, ancestor)
  {
    var whole := path + [SEPARATOR] + id;
    assert whole[|ancestor|] == SEPARATOR;
    assert forall i :: |path| < i < |whole| ==> whole[i] == id[i - |path| - 1];
    assert |ancestor| <= |path|;
    assert ancestor == whole[..|ancestor|];
    if |ancestor| < |path| {
      assert ancestor + [SEPARATOR] == whole[..|ancestor| + 1] == path[..|ancestor| + 1];
    }
  }

  lemma AtOrBelowTransitive(a: string, b: string, c: string)
    requires IsAtOrBelow(a, b) && IsAtOrBelow(b, c)
    ensures IsAtOrBelow(a, c)
  {
  }

  /** Below a path, everything that path names is named. */
  lemma NamesWhatItIsBelow(path: string, ancestor: string, id: string)
    requires IsAtOrBelow(path, ancestor) && id in IdsInPath(ancestor)
    ensures id in IdsInPath(path)
  {
    if path != ancestor {
      var rest := path[|ancestor| + 1..];
      assert path == ancestor + [SEPARATOR] + rest;
      IdsOfJoinedPaths(ancestor, rest);
    }
  }

  // ----- Moving a subtree -----------------------------------------------------------------------

  /** A move relocates a subtree and never reshapes it: the rewritten row sits as far below the new
      root as it did below the old one. No assumption on the paths. */
  lemma RerootKeepsRelativeDepth(path: string, fromPath: string, toPath: string)
    requires IsAtOrBelow(path, fromPath)
    ensures IsAtOrBelow(Reroot(path, fromPath, toPath), toPath)
    ensures DepthOf(Reroot(path, fromPath, toPath)) - DepthOf(toPath) == DepthOf(path) - DepthOf(fromPath)
    ensures DepthOf(fromPath) <= DepthOf(path)
  {
    if path == fromPath {
      assert Reroot(path, fromPath, toPath) == toPath;
    } else {
      var below := path[|fromPath| + 1..];
      assert path == fromPath + [SEPARATOR] + below;
      assert Reroot(path, fromPath, toPath) == toPath + [SEPARATOR] + below;
      IdsOfJoinedPaths(fromPath, below);
      IdsOfJoinedPaths(toPath, below);
    }
  }

  /** Moving there and back restores every path. */
  lemma RerootUndone(path: string, fromPath: string, toPath: string)
    requires IsAtOrBelow(path, fromPath)
    ensures var moved := Reroot(path, fromPath, toPath);
            Reroot(moved, toPath, fromPath) == path
  {
    assert path == fromPath + path[|fromPath|..];
  }

  /** What the reduction computes: at least one, at least every row's relative depth, and one of them. */
  lemma {:induction false} RelativeDepthIsTheMaximum(rows: seq<Row>, rootPath: string)
    ensures 1 <= RelativeDepthOf(rows, rootPath)
    ensures forall i :: 0 <= i < |rows| ==>
              DepthOf(rows[i].path) - DepthOf(rootPath) + 1 <= RelativeDepthOf(rows, rootPath)
    ensures RelativeDepthOf(rows, rootPath) == 1 ||
            exists i :: 0 <= i < |rows| &&
              DepthOf(rows[i].path) - DepthOf(rootPath) + 1 == RelativeDepthOf(rows, rootPath)
  {
    if rows != [] {
      var front := rows[..|rows| - 1];
      RelativeDepthIsTheMaximum(front, rootPath);
      forall i | 0 <= i < |rows|
        ensures DepthOf(rows[i].path) - DepthOf(rootPath) + 1 <= RelativeDepthOf(rows, rootPath)
      {
        if i < |front| {
          assert front[i] == rows[i];
        }
      }
      if RelativeDepthOf(rows, rootPath) != 1 {
        if RelativeDepthOf(rows, rootPath) == RelativeDepthOf(front, rootPath) {
          var i :| 0 <= i < |front| &&
            DepthOf(front[i].path) - DepthOf(rootPath) + 1 == RelativeDepthOf(front, rootPath);
          assert front[i] == rows[i];
        }
      }
    }
  }

  /** The height check is exact: after the rewrite no row is deeper than the parent's depth plus the
      subtree's height, and some row, the root or a leaf, is exactly that deep. */
  lemma HeightBoundsTheMove(rows: seq<Row>, fromPath: string, toPath: string, parentDepth: nat)
    requires forall i :: 0 <= i < |rows| ==> IsAtOrBelow(rows[i].path, fromPath)
    requires exists i :: 0 <= i < |rows| && rows[i].path == fromPath
    requires DepthOf(toPath) == parentDepth + 1
    ensures forall i :: 0 <= i < |rows| ==>
              DepthOf(RewriteSubtree(rows, fromPath, toPath)[i].path) <= parentDepth + RelativeDepthOf(rows, fromPath)
    ensures exists i :: 0 <= i < |rows| &&
              DepthOf(RewriteSubtree(rows, fromPath, toPath)[i].path) == parentDepth + RelativeDepthOf(rows, fromPath)
  {
    RelativeDepthIsTheMaximum(rows, fromPath);
    var moved := RewriteSubtree(rows, fromPath, toPath);
    forall i | 0 <= i < |rows|
      ensures DepthOf(moved[i].path) == DepthOf(rows[i].path) - DepthOf(fromPath) + parentDepth + 1
    {
      RerootKeepsRelativeDepth(rows[i].path, fromPath, toPath);
    }
    if RelativeDepthOf(rows, fromPath) == 1 {
      var root :| 0 <= root < |rows| && rows[root].path == fromPath;
      assert DepthOf(moved[root].path) == parentDepth + 1;
    } else {
      var deepest :| 0 <= deepest < |rows| &&
        DepthOf(rows[deepest].path) - DepthOf(fromPath) + 1 == RelativeDepthOf(rows, fromPath);
      assert DepthOf(moved[deepest].path) == parentDepth + RelativeDepthOf(rows, fromPath);
    }
  }

  /** Measured again after the move, the subtree's height is what it was. */
  lemma {:induction false} RewriteKeepsHeight(rows: seq<Row>, fromPath: string, toPath: string)
    requires forall i :: 0 <= i < |rows| ==> IsAtOrBelow(rows[i].path, fromPath)
    ensures RelativeDepthOf(RewriteSubtree(rows, fromPath, toPath), toPath) == RelativeDepthOf(rows, fromPath)
  {
    if rows != [] {
      var front := rows[..|rows| - 1];
      RewriteKeepsHeight(front, fromPath, toPath);
      assert RewriteSubtree(rows, fromPath, toPath)[..|rows| - 1] == RewriteSubtree(front, fromPath, toPath);
      RerootKeepsRelativeDepth(rows[|rows| - 1].path, fromPath, toPath);
    }
  }
}
