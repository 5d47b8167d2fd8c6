/** Comparing two revisions paragraph by paragraph and word by word
    (apps/api/src/modules/revision/domain/text-diff.ts). */
module TextDiff {
  import opened Text

  // ----- Common subsequences ------------------------------------------------------------------------

  /** Matched positions, in order. */
  type Pairs = seq<(nat, nat)>

  /** A common subsequence of what lies from `i` and `j` on: each pair lies past the one before it on both
      sides, and matches the same text. */
  ghost predicate IsCommon(a: seq<string>, b: seq<string>, pairs: Pairs, i: nat, j: nat) {
    pairs == [] ||
    var p := pairs[0];
    && i <= p.0 < |a| && j <= p.1 < |b| && a[p.0] == b[p.1]
    && IsCommon(a, b, pairs[1..], p.0 + 1, p.1 + 1)
  }

  /** The same, pair by pair: positions that rise on both sides. */
  lemma {:induction false} CommonRises(a: seq<string>, b: seq<string>, pairs: Pairs, i: nat, j: nat)
    requires IsCommon(a, b, pairs, i, j)
    ensures forall k :: 0 <= k < |pairs| ==> i <= pairs[k].0 < |a| && j <= pairs[k].1 < |b|
    ensures forall k :: 0 <= k < |pairs| ==> a[pairs[k].0] == b[pairs[k].1]
    ensures forall k, l :: 0 <= k < l < |pairs| ==> pairs[k].0 < pairs[l].0 && pairs[k].1 < pairs[l].1
    decreases |pairs|
  {
    if pairs != [] {
      var rest := pairs[1..];
      CommonRises(a, b, rest, pairs[0].0 + 1, pairs[0].1 + 1);
      assert forall k :: 1 <= k < |pairs| ==> pairs[k] == rest[k - 1];
    }
  }

  lemma CommonFromEarlier(a: seq<string>, b: seq<string>, pairs: Pairs, i: nat, j: nat, i': nat, j': nat)
    requires IsCommon(a, b, pairs, i, j) && i' <= i && j' <= j
    ensures IsCommon(a, b, pairs, i', j')
  {
  }

  /** The recurrence the table holds. */
  function Length(a: seq<string>, b: seq<string>, i: nat, j: nat): nat
    requires i <= |a| && j <= |b|
    decreases |a| - i + |b| - j
  {
    if i == |a| || j == |b| then 0
    else if a[i] == b[j] then Length(a, b, i + 1, j + 1) + 1
    else
      var down, across := Length(a, b, i + 1, j), Length(a, b, i, j + 1);
      if down >= across then down else across
  }

  /** The walk through the finished table; a tie drops from the first side. */
  function Trace(a: seq<string>, b: seq<string>, i: nat, j: nat): Pairs
    requires i <= |a| && j <= |b|
    decreases |a| - i + |b| - j
  {
    if i == |a| || j == |b| then []
    else if a[i] == b[j] then [(i, j)] + Trace(a, b, i + 1, j + 1)
    else if Length(a, b, i + 1, j) >= Length(a, b, i, j + 1) then Trace(a, b, i + 1, j)
    else Trace(a, b, i, j + 1)
  }

  lemma OneMorePair(a: seq<string>, b: seq<string>, pairs: Pairs, i: nat, j: nat)
    requires i < |a| && j < |b| && a[i] == b[j] && IsCommon(a, b, pairs, i + 1, j + 1)
    ensures IsCommon(a, b, [(i, j)] + pairs, i, j)
  {
    assert ([(i, j)] + pairs)[1..] == pairs;
  }

  lemma {:induction false} TraceIsCommon(a: seq<string>, b: seq<string>, i: nat, j: nat)
    requires i <= |a| && j <= |b|
    ensures IsCommon(a, b, Trace(a, b, i, j), i, j)
    ensures |Trace(a, b, i, j)| == Length(a, b, i, j)
    decreases |a| - i + |b| - j
  {
    if i < |a| && j < |b| {
      if a[i] == b[j] {
        TraceIsCommon(a, b, i + 1, j + 1);
        OneMorePair(a, b, Trace(a, b, i + 1, j + 1), i, j);
      } else if Length(a, b, i + 1, j) >= Length(a, b, i, j + 1) {
        TraceIsCommon(a, b, i + 1, j);
        CommonFromEarlier(a, b, Trace(a, b, i + 1, j), i + 1, j, i, j);
      } else {
        TraceIsCommon(a, b, i, j + 1);
        CommonFromEarlier(a, b, Trace(a, b, i, j + 1), i, j + 1, i, j);
      }
    }
  }

  /** No common subsequence is longer. */
  lemma {:induction false} TraceIsLongest(a: seq<string>, b: seq<string>, pairs: Pairs, i: nat, j: nat)
    requires i <= |a| && j <= |b| && IsCommon(a, b, pairs, i, j)
    ensures |pairs| <= Length(a, b, i, j)
    decreases |a| - i + |b| - j
  {
    if pairs != [] {
      var p := pairs[0];
      if a[i] == b[j] {
        CommonFromEarlier(a, b, pairs[1..], p.0 + 1, p.1 + 1, i + 1, j + 1);
        TraceIsLongest(a, b, pairs[1..], i + 1, j + 1);
      } else if p.0 > i {
        TraceIsLongest(a, b, pairs, i + 1, j);
      } else {
        TraceIsLongest(a, b, pairs, i, j + 1);
      }
    }
  }

  // ----- The table and the walk -----------------------------------------------------------------------

  datatype Matching = Matching(fromMatched: seq<bool>, toMatched: seq<bool>, pairs: Pairs)

  ghost predicate InFirst(pairs: Pairs, i: nat) {
    exists k :: 0 <= k < |pairs| && pairs[k].0 == i
  }

  ghost predicate InSecond(pairs: Pairs, j: nat) {
    exists k :: 0 <= k < |pairs| && pairs[k].1 == j
  }

  ghost predicate MarksFirst(m: Matching, i: nat)
    requires i < |m.fromMatched|
  {
    m.fromMatched[i] <==> InFirst(m.pairs, i)
  }

  ghost predicate MarksSecond(m: Matching, j: nat)
    requires j < |m.toMatched|
  {
    m.toMatched[j] <==> InSecond(m.pairs, j)
  }

  /** The flags mark exactly the matched positions of the walk. */
  ghost predicate IsMatching(a: seq<string>, b: seq<string>, m: Matching) {
    && m.pairs == Trace(a, b, 0, 0)
    && |m.fromMatched| == |a| && |m.toMatched| == |b|
    && (forall i :: 0 <= i < |a| ==> MarksFirst(m, i))
    && (forall j :: 0 <= j < |b| ==> MarksSecond(m, j))
  }

  /** The cells from `base` on hold row `i` of the recurrence, from column `j` on. */
  ghost predicate RowHolds(a: seq<string>, b: seq<string>, cells: seq<nat>, i: nat, base: nat, j: nat)
    requires i <= |a|
  {
    forall l: nat :: j <= l <= |b| ==> HoldsAt(a, b, cells, i, base, l)
  }

  ghost predicate HoldsAt(a: seq<string>, b: seq<string>, cells: seq<nat>, i: nat, base: nat, l: nat)
    requires i <= |a| && l <= |b|
  {
    base + l < |cells| && cells[base + l] == Length(a, b, i, l)
  }

  ghost predicate FullRow(a: seq<string>, b: seq<string>, cells: seq<nat>, i: nat)
    requires i <= |a|
  {
    RowHolds(a, b, cells, i, i * (|b| + 1), 0)
  }

  /** A row of which only the last cell, the zero past its end, is known. */
  ghost predicate EmptyRow(a: seq<string>, b: seq<string>, cells: seq<nat>, i: nat)
    requires i <= |a|
  {
    RowHolds(a, b, cells, i, i * (|b| + 1), |b|)
  }

  /** The rows lie one after another, each with a cell for every tail of the second text. */
  ghost predicate TableHolds(a: seq<string>, b: seq<string>, cells: seq<nat>) {
    && |cells| == (|a| + 1) * (|b| + 1)
    && forall i: nat :: i <= |a| ==> FullRow(a, b, cells, i)
  }

  /** One cell, from the three to its right and below. */
  method FillCell(a: seq<string>, b: seq<string>, table: array<nat>, i: nat, base: nat, j: nat)
    requires i < |a| && j < |b|
    requires RowHolds(a, b, table[..], i + 1, base + |b| + 1, 0) && RowHolds(a, b, table[..], i, base, j + 1)
    modifies table
    ensures RowHolds(a, b, table[..], i, base, j)
    ensures forall c :: 0 <= c < table.Length && c != base + j ==> table[c] == old(table[c])
  {
    var cols := |b| + 1;
    RowAt(a, b, table[..], i + 1, base + cols, 0, j);
    RowAt(a, b, table[..], i + 1, base + cols, 0, j + 1);
    RowAt(a, b, table[..], i, base, j + 1, j + 1);
    var below, across := table[base + cols + j], table[base + j + 1];
    var value := if a[i] == b[j] then table[base + cols + j + 1] + 1 else if below >= across then below else across;
    assert value == Length(a, b, i, j);
    ghost var before := table[..];
    table[base + j] := value;
    CellKeepsRow(a, b, before, table[..], i, base, j);
  }

  lemma RowAt(a: seq<string>, b: seq<string>, cells: seq<nat>, i: nat, base: nat, j: nat, l: nat)
    requires i <= |a| && j <= l <= |b| && RowHolds(a, b, cells, i, base, j)
    ensures base + l < |cells| && cells[base + l] == Length(a, b, i, l)
  {
    assert HoldsAt(a, b, cells, i, base, l);
  }

  lemma CellKeepsRow(a: seq<string>, b: seq<string>, before: seq<nat>, cells: seq<nat>, i: nat, base: nat, j: nat)
    requires i <= |a| && j <= |b| && RowHolds(a, b, before, i, base, j + 1)
    requires base + j < |before| && cells == before[base + j := Length(a, b, i, j)]
    ensures RowHolds(a, b, cells, i, base, j)
  {
    forall l: nat | j <= l <= |b| ensures HoldsAt(a, b, cells, i, base, l) {
      if l > j {
        RowAt(a, b, before, i, base, j + 1, l);
      }
    }
  }

  /** A row that lies wholly to one side of the cells that changed is as it was. */
  lemma RowIsKept(a: seq<string>, b: seq<string>, before: seq<nat>, cells: seq<nat>, i: nat, base: nat, j: nat,
                  from: nat, to: nat)
    requires i <= |a| && RowHolds(a, b, before, i, base, j) && |cells| == |before|
    requires forall c :: 0 <= c < |cells| && (c < from || to <= c) ==> cells[c] == before[c]
    requires base + |b| < from || to <= base
    ensures RowHolds(a, b, cells, i, base, j)
  {
    forall l: nat | j <= l <= |b| ensures HoldsAt(a, b, cells, i, base, l) {
      RowAt(a, b, before, i, base, j, l);
    }
  }

  method FillRow(a: seq<string>, b: seq<string>, table: array<nat>, i: nat, base: nat)
    requires i < |a|
    requires RowHolds(a, b, table[..], i + 1, base + |b| + 1, 0) && RowHolds(a, b, table[..], i, base, |b|)
    modifies table
    ensures RowHolds(a, b, table[..], i, base, 0)
    ensures forall c :: 0 <= c < table.Length && (c < base || base + |b| <= c) ==> table[c] == old(table[c])
  {
    var j := |b| - 1;
    while j >= 0
      invariant -1 <= j < |b|
      invariant RowHolds(a, b, table[..], i, base, j + 1)
      invariant RowHolds(a, b, table[..], i + 1, base + |b| + 1, 0)
      invariant forall c :: 0 <= c < table.Length && (c < base || base + |b| <= c) ==> table[c] == old(table[c])
    {
      ghost var before := table[..];
      FillCell(a, b, table, i, base, j);
      RowIsKept(a, b, before, table[..], i + 1, base + |b| + 1, 0, base + j, base + j + 1);
      j := j - 1;
    }
  }

  /** Where the filling stands: rows past `i` are filled, and every row ends in a zero. */
  ghost predicate FilledPast(a: seq<string>, b: seq<string>, cells: seq<nat>, i: int) {
    && |cells| == (|a| + 1) * (|b| + 1)
    && (forall k: nat :: i < k <= |a| ==> FullRow(a, b, cells, k))
    && (forall k: nat :: k <= i && k <= |a| ==> EmptyRow(a, b, cells, k))
  }

  lemma RowsApart(i: nat, k: nat, cols: nat)
    ensures (i + 1) * cols == i * cols + cols
    ensures k < i ==> k * cols + cols <= i * cols
    ensures i < k ==> i * cols + cols <= k * cols
  {
    if k < i {
      MultiplyKeepsOrder(k + 1, i, cols);
    } else if i < k {
      MultiplyKeepsOrder(i + 1, k, cols);
    }
  }

  lemma MultiplyKeepsOrder(x: nat, y: nat, z: nat)
    requires x <= y
    ensures x * z <= y * z
  {
  }

  lemma OneMoreRowFilled(a: seq<string>, b: seq<string>, before: seq<nat>, cells: seq<nat>, i: nat)
    requires i < |a| && FilledPast(a, b, before, i) && |cells| == |before|
    requires RowHolds(a, b, cells, i, i * (|b| + 1), 0)
    requires var base := i * (|b| + 1);
             forall c :: 0 <= c < |cells| && (c < base || base + |b| <= c) ==> cells[c] == before[c]
    ensures FilledPast(a, b, cells, i - 1)
  {
    var cols := |b| + 1;
    var base := i * cols;
    forall k: nat | i < k <= |a| ensures FullRow(a, b, cells, k) {
      RowsApart(i, k, cols);
      assert FullRow(a, b, before, k);
      RowIsKept(a, b, before, cells, k, k * cols, 0, base, base + |b|);
    }
    forall k: nat | k < i ensures EmptyRow(a, b, cells, k) {
      RowsApart(i, k, cols);
      assert EmptyRow(a, b, before, k);
      RowIsKept(a, b, before, cells, k, k * cols, |b|, base, base + |b|);
    }
    assert FullRow(a, b, cells, i);
  }

  lemma FreshTableHolds(a: seq<string>, b: seq<string>, cells: seq<nat>)
    requires |cells| == (|a| + 1) * (|b| + 1)
    requires forall c :: 0 <= c < |cells| ==> cells[c] == 0
    ensures FilledPast(a, b, cells, |a| - 1)
  {
    var cols := |b| + 1;
    forall k: nat | k < |a| ensures EmptyRow(a, b, cells, k) {
      RowsApart(|a|, k, cols);
    }
    RowsApart(|a|, |a|, cols);
    assert FullRow(a, b, cells, |a|);
  }

  /** The dynamic-programming table, filled from the last row and column backwards. */
  method FillTable(a: seq<string>, b: seq<string>) returns (table: array<nat>)
    ensures TableHolds(a, b, table[..])
  {
    var rows, cols := |a| + 1, |b| + 1;
    table := new nat[rows * cols](_ => 0);
    FreshTableHolds(a, b, table[..]);
    var i := |a| - 1;
    while i >= 0
      invariant -1 <= i < |a|
      invariant FilledPast(a, b, table[..], i)
    {
      ghost var before := table[..];
      RowsApart(i, i + 1, cols);
      assert FullRow(a, b, before, i + 1) && EmptyRow(a, b, before, i);
      FillRow(a, b, table, i, i * cols);
      OneMoreRowFilled(a, b, before, table[..], i);
      i := i - 1;
    }
  }

  lemma PairAppended(pairs: Pairs, pair: (nat, nat))
    ensures forall i :: InFirst(pairs + [pair], i) <==> InFirst(pairs, i) || pair.0 == i
    ensures forall j :: InSecond(pairs + [pair], j) <==> InSecond(pairs, j) || pair.1 == j
  {
    var longer := pairs + [pair];
    assert longer[|pairs|] == pair;
    assert forall k :: 0 <= k < |pairs| ==> longer[k] == pairs[k];
    forall i ensures InFirst(longer, i) <==> InFirst(pairs, i) || pair.0 == i {
      if InFirst(pairs, i) {
        var k :| 0 <= k < |pairs| && pairs[k].0 == i;
        assert longer[k].0 == i;
      }
    }
    forall j ensures InSecond(longer, j) <==> InSecond(pairs, j) || pair.1 == j {
      if InSecond(pairs, j) {
        var k :| 0 <= k < |pairs| && pairs[k].1 == j;
        assert longer[k].1 == j;
      }
    }
  }

  lemma TraceStep(a: seq<string>, b: seq<string>, i: nat, j: nat)
    requires i < |a| && j < |b|
    ensures a[i] == b[j] ==> Trace(a, b, i, j) == [(i, j)] + Trace(a, b, i + 1, j + 1)
    ensures a[i] != b[j] && Length(a, b, i + 1, j) >= Length(a, b, i, j + 1) ==>
              Trace(a, b, i, j) == Trace(a, b, i + 1, j)
    ensures a[i] != b[j] && Length(a, b, i + 1, j) < Length(a, b, i, j + 1) ==>
              Trace(a, b, i, j) == Trace(a, b, i, j + 1)
  {
  }

  lemma TableAt(a: seq<string>, b: seq<string>, cells: seq<nat>, i: nat, j: nat)
    requires TableHolds(a, b, cells) && i <= |a| && j <= |b|
    ensures i * (|b| + 1) + j < |cells| && cells[i * (|b| + 1) + j] == Length(a, b, i, j)
  {
    assert FullRow(a, b, cells, i);
    RowAt(a, b, cells, i, i * (|b| + 1), 0, j);
  }

  /** The choice between the two neighbours, read off the table. */
  method DropsFirst(a: seq<string>, b: seq<string>, table: array<nat>, i: nat, j: nat) returns (first: bool)
    requires TableHolds(a, b, table[..]) && i < |a| && j < |b|
    ensures first <==> Length(a, b, i + 1, j) >= Length(a, b, i, j + 1)
  {
    var cols := |b| + 1;
    TableAt(a, b, table[..], i + 1, j);
    TableAt(a, b, table[..], i, j + 1);
    return table[(i + 1) * cols + j] >= table[i * cols + (j + 1)];
  }

  /** Longest common subsequence: the positions matched, and both sides' flags. */
  method Lcs(a: seq<string>, b: seq<string>) returns (m: Matching)
    ensures IsMatching(a, b, m)
  {
    var table := FillTable(a, b);
    ghost var cells := table[..];
    var fromMatched := new bool[|a|](_ => false);
    var toMatched := new bool[|b|](_ => false);
    var pairs: Pairs := [];
    var i: nat, j: nat := 0, 0;
    ghost var whole := Trace(a, b, i, j);
    while i < |a| && j < |b|
      invariant i <= |a| && j <= |b| && table[..] == cells
      invariant pairs + Trace(a, b, i, j) == whole
      invariant forall k :: 0 <= k < |a| ==> (fromMatched[k] <==> InFirst(pairs, k))
      invariant forall k :: 0 <= k < |b| ==> (toMatched[k] <==> InSecond(pairs, k))
      decreases |a| - i + |b| - j
      modifies fromMatched, toMatched
    {
      TraceStep(a, b, i, j);
      if a[i] == b[j] {
        PairAppended(pairs, (i, j));
        assert pairs + Trace(a, b, i, j) == (pairs + [(i, j)]) + Trace(a, b, i + 1, j + 1);
        fromMatched[i] := true;
        toMatched[j] := true;
        pairs := pairs + [(i, j)];
        i, j := i + 1, j + 1;
      } else {
        var first := DropsFirst(a, b, table, i, j);
        if first {
          i := i + 1;
        } else {
          j := j + 1;
        }
      }
    }
    assert Trace(a, b, i, j) == [];
    m := Matching(fromMatched[..], toMatched[..], pairs);
    assert forall k :: 0 <= k < |a| ==> m.fromMatched[k] == fromMatched[k];
    assert forall k :: 0 <= k < |b| ==> m.toMatched[k] == toMatched[k];
  }

  // ----- The alignment --------------------------------------------------------------------------------

  datatype Line = Equal(value: string) | Removed(value: string) | Added(value: string)

  function RemovedLines(values: seq<string>): seq<Line> {
    seq(|values|, k requires 0 <= k < |values| => Removed(values[k]))
  }

  function AddedLines(values: seq<string>): seq<Line> {
    seq(|values|, k requires 0 <= k < |values| => Added(values[k]))
  }

  /** What lies before the next matched pair: the lines removed, then the lines added. */
  function Gap(a: seq<string>, b: seq<string>, i: nat, j: nat, stop: (nat, nat)): seq<Line>
    requires i <= stop.0 <= |a| && j <= stop.1 <= |b|
  {
    RemovedLines(a[i..stop.0]) + AddedLines(b[j..stop.1])
  }

  /** Removed-then-added runs between the matched lines. */
  ghost function Alignment(a: seq<string>, b: seq<string>, pairs: Pairs, i: nat, j: nat): seq<Line>
    requires i <= |a| && j <= |b| && IsCommon(a, b, pairs, i, j)
    decreases |pairs|
  {
    if pairs == [] then RemovedLines(a[i..]) + AddedLines(b[j..])
    else
      var pair := pairs[0];
      Gap(a, b, i, j, pair) + [Equal(a[pair.0])] + Alignment(a, b, pairs[1..], pair.0 + 1, pair.1 + 1)
  }

  predicate OnSide(line: Line, from: bool) {
    if from then !line.Added? else !line.Removed?
  }

  function Side(lines: seq<Line>, from: bool): seq<string> {
    if lines == [] then []
    else (if OnSide(lines[0], from) then [lines[0].value] else []) + Side(lines[1..], from)
  }

  function FromSide(lines: seq<Line>): seq<string> {
    Side(lines, true)
  }

  function ToSide(lines: seq<Line>): seq<string> {
    Side(lines, false)
  }

  lemma {:induction false} SideAppend(x: seq<Line>, y: seq<Line>, from: bool)
    ensures Side(x + y, from) == Side(x, from) + Side(y, from)
  {
    if x == [] {
      assert x + y == y;
    } else {
      var head := if OnSide(x[0], from) then [x[0].value] else [];
      calc {
        Side(x + y, from);
      == { assert (x + y)[0] == x[0] && (x + y)[1..] == x[1..] + y; }
        head + Side(x[1..] + y, from);
      == { SideAppend(x[1..], y, from); }
        head + (Side(x[1..], from) + Side(y, from));
      ==
        Side(x, from) + Side(y, from);
      }
    }
  }

  lemma SideSplits(lines: seq<Line>, from: bool)
    requires lines != []
    ensures OnSide(lines[0], from) ==> Side(lines, from) == [lines[0].value] + Side(lines[1..], from)
    ensures !OnSide(lines[0], from) ==> Side(lines, from) == Side(lines[1..], from)
  {
  }

  lemma SidesAppend(x: seq<Line>, y: seq<Line>)
    ensures FromSide(x + y) == FromSide(x) + FromSide(y)
    ensures ToSide(x + y) == ToSide(x) + ToSide(y)
  {
    SideAppend(x, y, true);
    SideAppend(x, y, false);
  }

  lemma {:induction false} SidesOfRuns(values: seq<string>)
    ensures FromSide(RemovedLines(values)) == values && ToSide(RemovedLines(values)) == []
    ensures FromSide(AddedLines(values)) == [] && ToSide(AddedLines(values)) == values
  {
    if values != [] {
      SidesOfRuns(values[1..]);
      assert RemovedLines(values)[1..] == RemovedLines(values[1..]);
      assert AddedLines(values)[1..] == AddedLines(values[1..]);
    }
  }

  lemma SidesOfARun(removed: seq<string>, added: seq<string>)
    ensures FromSide(RemovedLines(removed) + AddedLines(added)) == removed
    ensures ToSide(RemovedLines(removed) + AddedLines(added)) == added
  {
    SidesOfRuns(removed);
    SidesOfRuns(added);
    SidesAppend(RemovedLines(removed), AddedLines(added));
  }

  lemma AlignmentUnfolds(a: seq<string>, b: seq<string>, pairs: Pairs, i: nat, j: nat)
    requires i <= |a| && j <= |b| && pairs != [] && IsCommon(a, b, pairs, i, j)
    ensures var p := pairs[0];
            && i <= p.0 < |a| && j <= p.1 < |b| && a[p.0] == b[p.1]
            && IsCommon(a, b, pairs[1..], p.0 + 1, p.1 + 1)
            && Alignment(a, b, pairs, i, j)
               == Gap(a, b, i, j, p) + [Equal(a[p.0])] + Alignment(a, b, pairs[1..], p.0 + 1, p.1 + 1)
  {
  }

  /** An alignment tells both texts, in order and in full. */
  lemma {:induction false} AlignmentTellsBothSides(a: seq<string>, b: seq<string>, pairs: Pairs, i: nat, j: nat)
    requires i <= |a| && j <= |b| && IsCommon(a, b, pairs, i, j)
    ensures FromSide(Alignment(a, b, pairs, i, j)) == a[i..]
    ensures ToSide(Alignment(a, b, pairs, i, j)) == b[j..]
    decreases |pairs|
  {
    if pairs == [] {
      SidesOfARun(a[i..], b[j..]);
    } else {
      var p := pairs[0];
      AlignmentUnfolds(a, b, pairs, i, j);
      AlignmentTellsBothSides(a, b, pairs[1..], p.0 + 1, p.1 + 1);
      SidesUpToAMatch(a, b, i, j, p, Alignment(a, b, pairs[1..], p.0 + 1, p.1 + 1));
    }
  }

  lemma SidesUpToAMatch(a: seq<string>, b: seq<string>, i: nat, j: nat, p: (nat, nat), rest: seq<Line>)
    requires i <= p.0 < |a| && j <= p.1 < |b| && a[p.0] == b[p.1]
    requires FromSide(rest) == a[p.0 + 1..] && ToSide(rest) == b[p.1 + 1..]
    ensures var lines := Gap(a, b, i, j, p) + [Equal(a[p.0])] + rest;
            FromSide(lines) == a[i..] && ToSide(lines) == b[j..]
  {
    SidesAroundAMatch(a[i..p.0], b[j..p.1], a[p.0], rest);
    Parts(a, i, p.0);
    Parts(b, j, p.1);
  }

  /** It is as much shorter than the two texts together as it has matched lines. */
  lemma {:induction false} AlignmentLength(a: seq<string>, b: seq<string>, pairs: Pairs, i: nat, j: nat)
    requires i <= |a| && j <= |b| && IsCommon(a, b, pairs, i, j)
    ensures |Alignment(a, b, pairs, i, j)| == |a| - i + |b| - j - |pairs|
    decreases |pairs|
  {
    if pairs != [] {
      AlignmentUnfolds(a, b, pairs, i, j);
      AlignmentLength(a, b, pairs[1..], pairs[0].0 + 1, pairs[0].1 + 1);
    }
  }

  lemma Parts(a: seq<string>, i: nat, k: nat)
    requires i <= k < |a|
    ensures a[i..] == a[i..k] + [a[k]] + a[k + 1..]
  {
  }

  lemma SidesAroundAMatch(removed: seq<string>, added: seq<string>, value: string, rest: seq<Line>)
    ensures var lines := RemovedLines(removed) + AddedLines(added) + [Equal(value)] + rest;
            && FromSide(lines) == removed + [value] + FromSide(rest)
            && ToSide(lines) == added + [value] + ToSide(rest)
  {
    var run, same := RemovedLines(removed) + AddedLines(added), [Equal(value)];
    SidesOfARun(removed, added);
    SidesAppend(run, same);
    SidesAppend(run + same, rest);
    SideSplits(same, true);
    SideSplits(same, false);
    assert same[1..] == [];
  }

  /** The positions any alignment matches. */
  function PairsOf(lines: seq<Line>, i: nat, j: nat): Pairs {
    if lines == [] then []
    else
      match lines[0]
      case Equal(_) => [(i, j)] + PairsOf(lines[1..], i + 1, j + 1)
      case Removed(_) => PairsOf(lines[1..], i + 1, j)
      case Added(_) => PairsOf(lines[1..], i, j + 1)
  }

  lemma {:induction false} MatchedPairsAreCommon(a: seq<string>, b: seq<string>, lines: seq<Line>, i: nat, j: nat)
    requires i <= |a| && j <= |b| && FromSide(lines) == a[i..] && ToSide(lines) == b[j..]
    ensures IsCommon(a, b, PairsOf(lines, i, j), i, j)
    decreases |lines|
  {
    if lines != [] {
      var rest := lines[1..];
      NextLine(a, b, lines, i, j);
      match lines[0]
      case Equal(value) =>
        MatchedPairsAreCommon(a, b, rest, i + 1, j + 1);
        OneMorePair(a, b, PairsOf(rest, i + 1, j + 1), i, j);
      case Removed(value) =>
        MatchedPairsAreCommon(a, b, rest, i + 1, j);
        CommonFromEarlier(a, b, PairsOf(rest, i + 1, j), i + 1, j, i, j);
      case Added(value) =>
        MatchedPairsAreCommon(a, b, rest, i, j + 1);
        CommonFromEarlier(a, b, PairsOf(rest, i, j + 1), i, j + 1, i, j);
    }
  }

  lemma {:induction false} MatchedPairsCount(a: seq<string>, b: seq<string>, lines: seq<Line>, i: nat, j: nat)
    requires i <= |a| && j <= |b| && FromSide(lines) == a[i..] && ToSide(lines) == b[j..]
    ensures |lines| == |a| - i + |b| - j - |PairsOf(lines, i, j)|
    decreases |lines|
  {
    if lines != [] {
      var line := lines[0];
      NextLine(a, b, lines, i, j);
      MatchedPairsCount(a, b, lines[1..], if line.Added? then i else i + 1, if line.Removed? then j else j + 1);
    }
  }

  /** A telling's first line takes one value off the sides it is on. */
  lemma NextLine(a: seq<string>, b: seq<string>, lines: seq<Line>, i: nat, j: nat)
    requires i <= |a| && j <= |b| && lines != [] && FromSide(lines) == a[i..] && ToSide(lines) == b[j..]
    ensures var line := lines[0];
            && (!line.Added? ==> i < |a| && a[i] == line.value)
            && (!line.Removed? ==> j < |b| && b[j] == line.value)
            && FromSide(lines[1..]) == (if line.Added? then a[i..] else a[i + 1..])
            && ToSide(lines[1..]) == (if line.Removed? then b[j..] else b[j + 1..])
  {
    SideSplits(lines, true);
    SideSplits(lines, false);
    if !lines[0].Added? {
      TailOf(a, i, lines[0].value, FromSide(lines[1..]));
    }
    if !lines[0].Removed? {
      TailOf(b, j, lines[0].value, ToSide(lines[1..]));
    }
  }

  lemma TailOf(a: seq<string>, i: nat, value: string, rest: seq<string>)
    requires i <= |a| && a[i..] == [value] + rest
    ensures i < |a| && a[i] == value && a[i + 1..] == rest
  {
    assert a[i..][0] == value && a[i..][1..] == rest;
  }

  ghost function Aligned(a: seq<string>, b: seq<string>): seq<Line> {
    TraceIsCommon(a, b, 0, 0);
    Alignment(a, b, Trace(a, b, 0, 0), 0, 0)
  }

  /** The comparison tells both texts, and no telling of the two is shorter. */
  lemma AlignedIsShortest(a: seq<string>, b: seq<string>)
    ensures FromSide(Aligned(a, b)) == a && ToSide(Aligned(a, b)) == b
    ensures forall lines :: FromSide(lines) == a && ToSide(lines) == b ==> |Aligned(a, b)| <= |lines|
  {
    TraceIsCommon(a, b, 0, 0);
    AlignmentTellsBothSides(a, b, Trace(a, b, 0, 0), 0, 0);
    AlignmentLength(a, b, Trace(a, b, 0, 0), 0, 0);
    forall lines | FromSide(lines) == a && ToSide(lines) == b
      ensures |Aligned(a, b)| <= |lines|
    {
      MatchedPairsAreCommon(a, b, lines, 0, 0);
      MatchedPairsCount(a, b, lines, 0, 0);
      TraceIsLongest(a, b, PairsOf(lines, 0, 0), 0, 0);
    }
  }
}
