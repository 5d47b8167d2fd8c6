/** Which of the shortest comparisons is shown (apps/api/src/modules/revision/domain/text-diff.ts): where several are as
    short, ties in the table decide, and between matched lines the removed ones come before the added ones. */
module DiffChoice {
  import opened Text
  import opened TextDiff

  // ----- Common subsequences, pair by pair ----------------------------------------------------------------

  ghost predicate Rises(a: seq<string>, b: seq<string>, pairs: Pairs, i: nat, j: nat) {
    && (forall k :: 0 <= k < |pairs| ==> i <= pairs[k].0 < |a| && j <= pairs[k].1 < |b|)
    && (forall k :: 0 <= k < |pairs| ==> a[pairs[k].0] == b[pairs[k].1])
    && (forall k, l :: 0 <= k < l < |pairs| ==> pairs[k].0 < pairs[l].0 && pairs[k].1 < pairs[l].1)
  }

  lemma {:induction false} RisingIsCommon(a: seq<string>, b: seq<string>, pairs: Pairs, i: nat, j: nat)
    requires Rises(a, b, pairs, i, j)
    ensures IsCommon(a, b, pairs, i, j)
    decreases |pairs|
  {
    if pairs != [] {
      var rest := pairs[1..];
      assert forall k :: 0 <= k < |rest| ==> rest[k] == pairs[k + 1];
      assert Rises(a, b, rest, pairs[0].0 + 1, pairs[0].1 + 1);
      RisingIsCommon(a, b, rest, pairs[0].0 + 1, pairs[0].1 + 1);
    }
  }

  /** The front of one and the back of another, where the one's last pair lies before the other's next. */
  lemma Splice(a: seq<string>, b: seq<string>, one: Pairs, other: Pairs, k: nat, l: nat, i: nat, j: nat, i': nat, j': nat)
    requires Rises(a, b, one, i, j) && Rises(a, b, other, i', j')
    requires 0 < k <= |one| && l < |other| && one[k - 1].0 < other[l].0 && one[k - 1].1 < other[l].1
    ensures Rises(a, b, one[..k] + other[l..], i, j)
  {
    var both := one[..k] + other[l..];
    assert forall x :: 0 <= x < |both| ==> both[x] == if x < k then one[x] else other[l + x - k];
    forall x, y | 0 <= x < y < |both| ensures both[x].0 < both[y].0 && both[x].1 < both[y].1 {
      if x < k <= y {
        assert one[x].0 <= one[k - 1].0 && one[x].1 <= one[k - 1].1;
        assert other[l].0 <= other[l + y - k].0 && other[l].1 <= other[l + y - k].1;
      }
    }
  }

  // ----- The walk keeps to the front of the second text ---------------------------------------------------

  /** The walk's k-th match comes no later in the second text than this one's. */
  ghost predicate NoLater(walk: Pairs, pairs: Pairs, k: nat)
    requires |pairs| == |walk|
  {
    k < |walk| ==> walk[k].1 <= pairs[k].1
  }

  /** Below a row that a rival uses and the walk does not: the two cross before the k-th match, or there would be a
      common subsequence longer than either. */
  lemma Crossing(a: seq<string>, b: seq<string>, walk: Pairs, rival: Pairs, k: nat, i: nat, j: nat) returns (p: nat)
    requires i < |a| && j <= |b| && |walk| == |rival| == Length(a, b, i, j) && k < |walk|
    requires Rises(a, b, walk, i + 1, j) && Rises(a, b, rival, i, j) && rival[0].0 == i
    requires rival[k].1 < walk[k].1
    ensures 0 < p <= k && walk[p].0 <= rival[p].0
  {
    if forall p :: 0 < p <= k ==> rival[p].0 < walk[p].0 {
      var longer := rival[..k + 1] + walk[k..];
      Splice(a, b, rival, walk, k + 1, k, i, j, i + 1, j);
      RisingIsCommon(a, b, longer, i, j);
      TraceIsLongest(a, b, longer, i, j);
      assert false;
    }
    p :| 0 < p <= k && walk[p].0 <= rival[p].0;
  }

  lemma {:induction false} WalkIsEarliest(a: seq<string>, b: seq<string>, pairs: Pairs, i: nat, j: nat, k: nat)
    requires i <= |a| && j <= |b| && IsCommon(a, b, pairs, i, j) && |pairs| == Length(a, b, i, j)
    ensures |Trace(a, b, i, j)| == |pairs| && NoLater(Trace(a, b, i, j), pairs, k)
    decreases |a| - i + |b| - j, k
  {
    TraceIsCommon(a, b, i, j);
    if k < |pairs| && i < |a| && j < |b| {
      TraceStep(a, b, i, j);
      if a[i] == b[j] {
        MatchIsEarliest(a, b, pairs, i, j, k);
      } else if Length(a, b, i + 1, j) < Length(a, b, i, j + 1) {
        SecondIsNotUsed(a, b, pairs, i, j);
        WalkIsEarliest(a, b, pairs, i, j + 1, k);
      } else if pairs[0].0 > i {
        WalkIsEarliest(a, b, pairs, i + 1, j, k);
      } else {
        RivalIsLater(a, b, pairs, i, j, k);
      }
    }
  }

  lemma {:induction false} MatchIsEarliest(a: seq<string>, b: seq<string>, pairs: Pairs, i: nat, j: nat, k: nat)
    requires i < |a| && j < |b| && IsCommon(a, b, pairs, i, j) && |pairs| == Length(a, b, i, j)
    requires a[i] == b[j] && k < |pairs|
    ensures |Trace(a, b, i, j)| == |pairs| && NoLater(Trace(a, b, i, j), pairs, k)
    decreases |a| - i + |b| - j, k, 0
  {
    TraceIsCommon(a, b, i, j);
    TraceStep(a, b, i, j);
    if k > 0 {
      var rest := pairs[1..];
      CommonFromEarlier(a, b, rest, pairs[0].0 + 1, pairs[0].1 + 1, i + 1, j + 1);
      WalkIsEarliest(a, b, rest, i + 1, j + 1, k - 1);
    }
  }

  /** Where only dropping from the second text keeps the length, nothing as long matches its next line. */
  lemma SecondIsNotUsed(a: seq<string>, b: seq<string>, pairs: Pairs, i: nat, j: nat)
    requires i < |a| && j < |b| && IsCommon(a, b, pairs, i, j) && |pairs| == Length(a, b, i, j) && pairs != []
    requires a[i] != b[j] && Length(a, b, i + 1, j) < Length(a, b, i, j + 1)
    ensures IsCommon(a, b, pairs, i, j + 1)
  {
    if pairs[0].0 > i {
      TraceIsLongest(a, b, pairs, i + 1, j);
    }
  }

  lemma {:induction false} RivalIsLater(a: seq<string>, b: seq<string>, rival: Pairs, i: nat, j: nat, k: nat)
    requires i < |a| && j < |b| && IsCommon(a, b, rival, i, j) && |rival| == Length(a, b, i, j) && k < |rival|
    requires a[i] != b[j] && Length(a, b, i + 1, j) >= Length(a, b, i, j + 1) && rival[0].0 == i
    ensures |Trace(a, b, i, j)| == |rival| && NoLater(Trace(a, b, i, j), rival, k)
    decreases |a| - i + |b| - j, k, 0
  {
    var walk := Trace(a, b, i + 1, j);
    TraceStep(a, b, i, j);
    TraceIsCommon(a, b, i + 1, j);
    CommonRises(a, b, walk, i + 1, j);
    CommonRises(a, b, rival, i, j);
    if rival[k].1 < walk[k].1 {
      var p := Crossing(a, b, walk, rival, k, i, j);
      WalkIsEarliest(a, b, rival, i, j, p - 1);
      var spliced := Detour(a, b, walk, rival, p, k, i, j);
      WalkIsEarliest(a, b, spliced, i + 1, j, k);
    }
  }

  /** The walk as far as the crossing, and the rival from there on, does without the row too. */
  lemma Detour(a: seq<string>, b: seq<string>, walk: Pairs, rival: Pairs, p: nat, k: nat, i: nat, j: nat)
    returns (spliced: Pairs)
    requires Rises(a, b, walk, i + 1, j) && Rises(a, b, rival, i, j) && |walk| == |rival| && 0 < p <= k < |walk|
    requires walk[p].0 <= rival[p].0 && NoLater(walk, rival, p - 1)
    ensures IsCommon(a, b, spliced, i + 1, j) && |spliced| == |rival| && spliced[k] == rival[k]
  {
    assert walk[p - 1].0 < walk[p].0 && rival[p - 1].1 < rival[p].1;
    spliced := walk[..p] + rival[p..];
    Splice(a, b, walk, rival, p, p, i + 1, j, i, j);
    RisingIsCommon(a, b, spliced, i + 1, j);
  }

  // ----- Removed before added -----------------------------------------------------------------------------

  predicate AddedBeforeRemoved(lines: seq<Line>, k: nat)
    requires k + 1 < |lines|
  {
    lines[k].Added? && lines[k + 1].Removed?
  }

  /** No line added stands directly before one removed. */
  ghost predicate RemovedFirst(lines: seq<Line>) {
    forall k: nat :: k + 1 < |lines| ==> !AddedBeforeRemoved(lines, k)
  }

  lemma GapRemovesFirst(removed: seq<string>, added: seq<string>)
    ensures RemovedFirst(RemovedLines(removed) + AddedLines(added))
  {
  }

  lemma RemovedFirstAround(lines: seq<Line>, gap: seq<Line>, same: Line, rest: seq<Line>)
    requires RemovedFirst(gap) && same.Equal? && RemovedFirst(rest) && lines == gap + [same] + rest
    ensures RemovedFirst(lines)
  {
    forall k: nat | k + 1 < |lines| ensures !AddedBeforeRemoved(lines, k) {
      if k + 1 < |gap| {
        assert AddedBeforeRemoved(lines, k) == AddedBeforeRemoved(gap, k);
      } else if |gap| < k {
        assert AddedBeforeRemoved(lines, k) == AddedBeforeRemoved(rest, k - |gap| - 1);
      }
    }
  }

  lemma {:induction false} AlignmentRemovesFirst(a: seq<string>, b: seq<string>, pairs: Pairs, i: nat, j: nat)
    requires i <= |a| && j <= |b| && IsCommon(a, b, pairs, i, j)
    ensures RemovedFirst(Alignment(a, b, pairs, i, j))
    decreases |pairs|
  {
    var lines := Alignment(a, b, pairs, i, j);
    if pairs == [] {
      LastGapRemovesFirst(a[i..], b[j..], lines);
    } else {
      var p := pairs[0];
      AlignmentUnfolds(a, b, pairs, i, j);
      var rest := Alignment(a, b, pairs[1..], p.0 + 1, p.1 + 1);
      AlignmentRemovesFirst(a, b, pairs[1..], p.0 + 1, p.1 + 1);
      RemovedFirstToAMatch(a, b, i, j, p, rest, lines);
    }
  }

  lemma LastGapRemovesFirst(removed: seq<string>, added: seq<string>, lines: seq<Line>)
    requires lines == RemovedLines(removed) + AddedLines(added)
    ensures RemovedFirst(lines)
  {
    GapRemovesFirst(removed, added);
  }

  lemma RemovedFirstToAMatch(a: seq<string>, b: seq<string>, i: nat, j: nat, p: (nat, nat), rest: seq<Line>,
                             lines: seq<Line>)
    requires i <= p.0 < |a| && j <= p.1 < |b| && RemovedFirst(rest)
    requires lines == Gap(a, b, i, j, p) + [Equal(a[p.0])] + rest
    ensures RemovedFirst(lines)
  {
    GapRemovesFirst(a[i..p.0], b[j..p.1]);
    RemovedFirstAround(lines, Gap(a, b, i, j, p), Equal(a[p.0]), rest);
  }

  // ----- The comparison that is shown ---------------------------------------------------------------------

  lemma {:induction false} AlignmentMatches(a: seq<string>, b: seq<string>, pairs: Pairs, i: nat, j: nat)
    requires i <= |a| && j <= |b| && IsCommon(a, b, pairs, i, j)
    ensures PairsOf(Alignment(a, b, pairs, i, j), i, j) == pairs
    decreases |pairs|
  {
    if pairs == [] {
      GapMatchesNothing(a[i..], b[j..], i, j);
    } else {
      var p := pairs[0];
      AlignmentUnfolds(a, b, pairs, i, j);
      AlignmentMatches(a, b, pairs[1..], p.0 + 1, p.1 + 1);
      PairsToAMatch(a, b, i, j, p, Alignment(a, b, pairs[1..], p.0 + 1, p.1 + 1));
      assert pairs == [p] + pairs[1..];
    }
  }

  lemma GapMatchesNothing(removed: seq<string>, added: seq<string>, i: nat, j: nat)
    ensures PairsOf(RemovedLines(removed) + AddedLines(added), i, j) == []
  {
    var lines := RemovedLines(removed) + AddedLines(added);
    NoPairsInAGap(removed, added, [], i, j);
    assert lines + [] == lines;
  }

  lemma PairsToAMatch(a: seq<string>, b: seq<string>, i: nat, j: nat, p: (nat, nat), rest: seq<Line>)
    requires i <= p.0 < |a| && j <= p.1 < |b|
    ensures PairsOf(Gap(a, b, i, j, p) + [Equal(a[p.0])] + rest, i, j) == [p] + PairsOf(rest, p.0 + 1, p.1 + 1)
  {
    var lines, same := Gap(a, b, i, j, p) + [Equal(a[p.0])] + rest, [Equal(a[p.0])] + rest;
    NoPairsInAGap(a[i..p.0], b[j..p.1], same, i, j);
    assert lines == Gap(a, b, i, j, p) + same && same[1..] == rest;
  }

  lemma {:induction false} NoPairsInAGap(removed: seq<string>, added: seq<string>, rest: seq<Line>, i: nat, j: nat)
    ensures PairsOf(RemovedLines(removed) + AddedLines(added) + rest, i, j)
         == PairsOf(rest, i + |removed|, j + |added|)
    decreases |removed| + |added|
  {
    var lines := RemovedLines(removed) + AddedLines(added) + rest;
    if removed != [] {
      NoPairsInAGap(removed[1..], added, rest, i + 1, j);
      assert lines[1..] == RemovedLines(removed[1..]) + AddedLines(added) + rest;
    } else if added != [] {
      NoPairsInAGap(removed, added[1..], rest, i, j + 1);
      assert lines[1..] == RemovedLines(removed) + AddedLines(added[1..]) + rest;
    } else {
      assert lines == rest;
    }
  }

  /** Of all tellings as short, the one shown matches every line as early in the second text as any of them does, and
      between matches tells what was removed before what was added. */
  lemma ShownIsEarliest(a: seq<string>, b: seq<string>, lines: seq<Line>, k: nat)
    requires FromSide(lines) == a && ToSide(lines) == b && |lines| == |Aligned(a, b)|
    ensures RemovedFirst(Aligned(a, b))
    ensures var shown, other := PairsOf(Aligned(a, b), 0, 0), PairsOf(lines, 0, 0);
            |shown| == |other| && NoLater(shown, other, k)
  {
    TraceIsCommon(a, b, 0, 0);
    AlignmentRemovesFirst(a, b, Trace(a, b, 0, 0), 0, 0);
    AlignmentMatches(a, b, Trace(a, b, 0, 0), 0, 0);
    AlignmentLength(a, b, Trace(a, b, 0, 0), 0, 0);
    MatchedPairsAreCommon(a, b, lines, 0, 0);
    MatchedPairsCount(a, b, lines, 0, 0);
    WalkIsEarliest(a, b, PairsOf(lines, 0, 0), 0, 0, k);
  }
}
