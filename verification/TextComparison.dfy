/** The comparison a reader sees: aligned paragraphs, edited pairs, and the words marked inside them
    (apps/api/src/modules/revision/domain/text-diff.ts). */
module TextComparison {
  import opened Text
  import opened TextDiff
  import opened Paragraphs

  // ----- The alignment, by one pass over the matched pairs ----------------------------------------------

  function Lines(values: seq<string>, from: bool): seq<Line> {
    if from then RemovedLines(values) else AddedLines(values)
  }

  /** The unmatched values of one side, up to the next matched pair. */
  method EmitRun(values: seq<string>, matched: seq<bool>, start: nat, stop: nat, from: bool)
    returns (lines: seq<Line>)
    requires start <= stop <= |values| && |matched| == |values|
    ensures (forall k :: start <= k < stop ==> !matched[k]) ==> lines == Lines(values[start..stop], from)
  {
    lines := [];
    var index := start;
    while index < stop
      invariant start <= index <= stop
      invariant (forall k :: start <= k < stop ==> !matched[k]) ==> lines == Lines(values[start..index], from)
    {
      if !matched[index] {
        lines := lines + [if from then Removed(values[index]) else Added(values[index])];
      }
      index := index + 1;
    }
  }

  /** Between one pair and the next nothing is matched. */
  lemma GapIsUnmatched(a: seq<string>, b: seq<string>, m: Matching, n: nat, i: nat, j: nat, stop: (nat, nat))
    requires IsMatching(a, b, m) && n <= |m.pairs| && IsCommon(a, b, m.pairs, 0, 0)
    requires i <= stop.0 <= |a| && j <= stop.1 <= |b|
    requires Behind(m.pairs, n, i, j)
    requires n < |m.pairs| ==> stop == m.pairs[n]
    ensures forall k :: i <= k < stop.0 ==> !m.fromMatched[k]
    ensures forall k :: j <= k < stop.1 ==> !m.toMatched[k]
  {
    CommonRises(a, b, m.pairs, 0, 0);
    forall l | 0 <= l < |m.pairs|
      ensures m.pairs[l].0 < i || stop.0 <= m.pairs[l].0
      ensures m.pairs[l].1 < j || stop.1 <= m.pairs[l].1
    {
      if n < l {
        assert m.pairs[n].0 < m.pairs[l].0 && m.pairs[n].1 < m.pairs[l].1;
      }
    }
    forall k | i <= k < stop.0 ensures !m.fromMatched[k] {
      assert MarksFirst(m, k);
    }
    forall k | j <= k < stop.1 ensures !m.toMatched[k] {
      assert MarksSecond(m, k);
    }
  }

  /** The lines between one matched pair and the next. */
  method EmitGap(a: seq<string>, b: seq<string>, m: Matching, n: nat, i: nat, j: nat, stop: (nat, nat))
    returns (lines: seq<Line>)
    requires IsMatching(a, b, m) && n <= |m.pairs| && IsCommon(a, b, m.pairs, 0, 0)
    requires i <= stop.0 <= |a| && j <= stop.1 <= |b|
    requires Behind(m.pairs, n, i, j)
    requires n < |m.pairs| ==> stop == m.pairs[n]
    ensures lines == RemovedLines(a[i..stop.0]) + AddedLines(b[j..stop.1])
  {
    GapIsUnmatched(a, b, m, n, i, j, stop);
    var removed := EmitRun(a, m.fromMatched, i, stop.0, true);
    var added := EmitRun(b, m.toMatched, j, stop.1, false);
    return removed + added;
  }

  /** The pairs already passed lie behind on both sides. */
  ghost predicate Behind(pairs: Pairs, n: nat, i: nat, j: nat)
    requires n <= |pairs|
  {
    forall k :: 0 <= k < n ==> pairs[k].0 < i && pairs[k].1 < j
  }

  /** Where the pass stands: what is written, and what the pairs left will still align. */
  ghost predicate Progress(
    a: seq<string>, b: seq<string>, left: Pairs, i: nat, j: nat, lines: seq<Line>, whole: seq<Line>)
  {
    && i <= |a| && j <= |b| && IsCommon(a, b, left, i, j)
    && lines + Alignment(a, b, left, i, j) == whole
  }

  lemma ProgressAtAMatch(
    a: seq<string>, b: seq<string>, left: Pairs, i: nat, j: nat, lines: seq<Line>, whole: seq<Line>)
    requires left != [] && Progress(a, b, left, i, j, lines, whole)
    ensures var stop := left[0];
            && i <= stop.0 < |a| && j <= stop.1 < |b|
            && Progress(a, b, left[1..], stop.0 + 1, stop.1 + 1,
                        lines + Gap(a, b, i, j, stop) + [Equal(a[stop.0])], whole)
  {
    var stop := left[0];
    AlignmentUnfolds(a, b, left, i, j);
    Carried(lines, Gap(a, b, i, j, stop), [Equal(a[stop.0])], Alignment(a, b, left[1..], stop.0 + 1, stop.1 + 1),
            Alignment(a, b, left, i, j), whole);
  }

  lemma Carried(lines: seq<Line>, gap: seq<Line>, same: seq<Line>, rest: seq<Line>, left: seq<Line>, whole: seq<Line>)
    requires left == gap + same + rest && lines + left == whole
    ensures lines + gap + same + rest == whole
  {
    assert gap + same + rest == gap + (same + rest);
  }

  lemma ProgressEnds(a: seq<string>, b: seq<string>, i: nat, j: nat, lines: seq<Line>, whole: seq<Line>)
    requires Progress(a, b, [], i, j, lines, whole)
    ensures lines + Gap(a, b, i, j, (|a|, |b|)) == whole
  {
    assert a[i..] == a[i..|a|] && b[j..] == b[j..|b|];
  }

  /** One turn: the gap before the stop, and the matched line if the stop is one. */
  method AlignUpTo(
    a: seq<string>, b: seq<string>, m: Matching, n: nat, i: nat, j: nat, stop: (nat, nat), before: seq<Line>,
    ghost left: Pairs, ghost whole: seq<Line>) returns (lines: seq<Line>, fromIndex: nat, toIndex: nat)
    requires IsMatching(a, b, m) && IsCommon(a, b, m.pairs, 0, 0)
    requires n <= |m.pairs| && Behind(m.pairs, n, i, j)
    requires left == [] <==> n == |m.pairs|
    requires Progress(a, b, left, i, j, before, whole)
    requires if left == [] then stop == (|a|, |b|) else stop == left[0] == m.pairs[n]
    ensures left != [] ==> fromIndex == stop.0 + 1 && toIndex == stop.1 + 1
    ensures left != [] ==> Progress(a, b, left[1..], fromIndex, toIndex, lines, whole)
    ensures left == [] ==> lines == whole
  {
    if left != [] {
      ProgressAtAMatch(a, b, left, i, j, before, whole);
    } else {
      ProgressEnds(a, b, i, j, before, whole);
    }
    var gap := EmitGap(a, b, m, n, i, j, stop);
    lines, fromIndex, toIndex := before + gap, stop.0, stop.1;
    if stop.0 < |a| {
      lines, fromIndex, toIndex := lines + [Equal(a[stop.0])], stop.0 + 1, stop.1 + 1;
    }
  }

  lemma PassedOneMore(a: seq<string>, b: seq<string>, pairs: Pairs, n: nat)
    requires n < |pairs| && IsCommon(a, b, pairs, 0, 0)
    ensures Behind(pairs, n + 1, pairs[n].0 + 1, pairs[n].1 + 1)
    ensures pairs[n..][0] == pairs[n] && pairs[n..][1..] == pairs[n + 1..]
  {
    CommonRises(a, b, pairs, 0, 0);
  }

  method Align(a: seq<string>, b: seq<string>) returns (lines: seq<Line>)
    ensures lines == Aligned(a, b)
  {
    var m := Lcs(a, b);
    TraceIsCommon(a, b, 0, 0);
    ghost var whole := Aligned(a, b);
    ghost var left := m.pairs;
    lines := [];
    var fromIndex: nat, toIndex: nat := 0, 0;
    var stops := m.pairs + [(|a|, |b|)];
    for n := 0 to |stops|
      invariant n < |stops| ==> left == m.pairs[n..] && Behind(m.pairs, n, fromIndex, toIndex)
      invariant n < |stops| ==> Progress(a, b, left, fromIndex, toIndex, lines, whole)
      invariant n == |stops| ==> lines == whole
    {
      if n < |m.pairs| {
        PassedOneMore(a, b, m.pairs, n);
      }
      lines, fromIndex, toIndex := AlignUpTo(a, b, m, n, fromIndex, toIndex, stops[n], lines, left, whole);
      left := if n < |m.pairs| then m.pairs[n + 1..] else [];
    }
  }

  // ----- Words inside an edited pair --------------------------------------------------------------------

  datatype Span = Span(text: string, changed: bool)

  function MarkWords(words: seq<string>, matched: seq<bool>): seq<Span>
    requires |matched| == |words|
  {
    seq(|words|, i requires 0 <= i < |words| => Span(words[i], !matched[i]))
  }

  function Texts(spans: seq<Span>): seq<string> {
    seq(|spans|, i requires 0 <= i < |spans| => spans[i].text)
  }

  /** The words left unmarked, in order. */
  function Unchanged(spans: seq<Span>): seq<string> {
    if spans == [] then []
    else (if spans[0].changed then [] else [spans[0].text]) + Unchanged(spans[1..])
  }

  function Picks(words: seq<string>, at: seq<nat>): seq<string>
    requires forall k :: 0 <= k < |at| ==> at[k] < |words|
  {
    seq(|at|, k requires 0 <= k < |at| => words[at[k]])
  }

  lemma {:induction false} UnchangedArePicked(words: seq<string>, matched: seq<bool>, at: seq<nat>, i: nat)
    requires |matched| == |words| && i <= |words|
    requires forall k :: 0 <= k < |at| ==> i <= at[k] < |words|
    requires forall k, l :: 0 <= k < l < |at| ==> at[k] < at[l]
    requires forall x :: i <= x < |words| ==> (matched[x] <==> x in at)
    ensures Unchanged(MarkWords(words, matched)[i..]) == Picks(words, at)
    decreases |words| - i
  {
    var spans := MarkWords(words, matched);
    assert |at| > 0 ==> i <= at[0] < |words|;
    if i < |words| {
      assert spans[i..][1..] == spans[i + 1..];
      if matched[i] {
        assert at[0] == i;
        var rest := at[1..];
        assert forall x :: i < x < |words| ==> (x in at <==> x in rest);
        UnchangedArePicked(words, matched, rest, i + 1);
        assert Picks(words, at) == [words[i]] + Picks(words, rest);
      } else {
        UnchangedArePicked(words, matched, at, i + 1);
      }
    }
  }

  function Firsts(pairs: Pairs): seq<nat> {
    seq(|pairs|, k requires 0 <= k < |pairs| => pairs[k].0)
  }

  function Seconds(pairs: Pairs): seq<nat> {
    seq(|pairs|, k requires 0 <= k < |pairs| => pairs[k].1)
  }

  /** What is not marked reads the same on both sides, and no longer reading is common to both. */
  lemma UnmarkedWordsAgree(a: seq<string>, b: seq<string>, m: Matching)
    requires IsMatching(a, b, m)
    ensures Unchanged(MarkWords(a, m.fromMatched)) == Unchanged(MarkWords(b, m.toMatched))
    ensures |Unchanged(MarkWords(a, m.fromMatched))| == Length(a, b, 0, 0)
  {
    TraceIsCommon(a, b, 0, 0);
    CommonRises(a, b, m.pairs, 0, 0);
    var firsts, seconds := Firsts(m.pairs), Seconds(m.pairs);
    forall x | 0 <= x < |a| ensures m.fromMatched[x] <==> x in firsts {
      assert MarksFirst(m, x);
      if k :| 0 <= k < |m.pairs| && m.pairs[k].0 == x {
        assert firsts[k] == x;
      }
    }
    forall x | 0 <= x < |b| ensures m.toMatched[x] <==> x in seconds {
      assert MarksSecond(m, x);
      if k :| 0 <= k < |m.pairs| && m.pairs[k].1 == x {
        assert seconds[k] == x;
      }
    }
    UnchangedArePicked(a, m.fromMatched, firsts, 0);
    UnchangedArePicked(b, m.toMatched, seconds, 0);
    assert MarkWords(a, m.fromMatched)[0..] == MarkWords(a, m.fromMatched);
    assert MarkWords(b, m.toMatched)[0..] == MarkWords(b, m.toMatched);
    assert Picks(a, firsts) == Picks(b, seconds);
  }

  // ----- The comparison ---------------------------------------------------------------------------------

  datatype Change =
    | Same(value: string)
    | Gone(value: string)
    | New(value: string)
    | Changed(from: string, to: string, fromWords: seq<Span>, toWords: seq<Span>)

  /** An edited pair: the words of each side in full, and the longest reading they share left unmarked. */
  ghost predicate WellMarked(c: Change) {
    c.Changed? ==>
      && Texts(c.fromWords) == Split(c.from, ' ') && Texts(c.toWords) == Split(c.to, ' ')
      && Unchanged(c.fromWords) == Unchanged(c.toWords)
      && |Unchanged(c.fromWords)| == Length(Split(c.from, ' '), Split(c.to, ' '), 0, 0)
  }

  method ChangedPair(from: string, to: string) returns (c: Change)
    ensures c.Changed? && c.from == from && c.to == to && WellMarked(c)
  {
    var fromWords, toWords := Split(from, ' '), Split(to, ' ');
    var common := Lcs(fromWords, toWords);
    UnmarkedWordsAgree(fromWords, toWords, common);
    c := Changed(from, to, MarkWords(fromWords, common.fromMatched), MarkWords(toWords, common.toMatched));
    assert Texts(c.fromWords) == fromWords && Texts(c.toWords) == toWords;
  }

  /** The lines a change stands for. */
  function LinesOf(c: Change): seq<Line> {
    match c
    case Same(value) => [Equal(value)]
    case Gone(value) => [Removed(value)]
    case New(value) => [Added(value)]
    case Changed(from, to, _, _) => [Removed(from), Added(to)]
  }

  function AllLines(changes: seq<Change>): seq<Line> {
    if changes == [] then [] else AllLines(changes[..|changes| - 1]) + LinesOf(changes[|changes| - 1])
  }

  datatype Comparison = Comparison(changes: seq<Change>, identical: bool, truncated: bool)

  const MAX_COMPARED_PARAGRAPHS: nat := 1000

  function Capped(paragraphs: seq<string>, cap: nat): seq<string> {
    if |paragraphs| > cap then paragraphs[..cap] else paragraphs
  }

  /** Nothing is left out of place: a removed line before an added one is always shown as one edit. */
  ghost predicate Paired(changes: seq<Change>) {
    forall k, l :: 0 <= k < l < |changes| && l == k + 1 ==> !(changes[k].Gone? && changes[l].New?)
  }

  ghost predicate AllWellMarked(changes: seq<Change>) {
    forall k :: 0 <= k < |changes| ==> WellMarked(changes[k])
  }

  lemma OneMoreMarked(changes: seq<Change>, change: Change)
    requires AllWellMarked(changes) && WellMarked(change)
    ensures AllWellMarked(changes + [change])
  {
    var longer := changes + [change];
    forall k | 0 <= k < |longer| ensures WellMarked(longer[k]) {
      assert longer[k] == if k < |changes| then changes[k] else change;
    }
  }

  lemma OneMorePaired(changes: seq<Change>, change: Change)
    requires Paired(changes)
    requires changes != [] && changes[|changes| - 1].Gone? ==> !change.New?
    ensures Paired(changes + [change])
  {
    var longer := changes + [change];
    forall k, l | 0 <= k < l < |longer| && l == k + 1
      ensures !(longer[k].Gone? && longer[l].New?)
    {
      assert longer[k] == changes[k];
      assert l < |changes| ==> longer[l] == changes[l];
    }
  }

  lemma OneMoreLine(changes: seq<Change>, change: Change)
    ensures AllLines(changes + [change]) == AllLines(changes) + LinesOf(change)
  {
    assert (changes + [change])[..|changes|] == changes;
  }

  method NextChange(aligned: seq<Line>, index: nat) returns (change: Change, step: nat)
    requires index < |aligned|
    ensures 1 <= step && index + step <= |aligned|
    ensures aligned[..index + step] == aligned[..index] + LinesOf(change)
    ensures WellMarked(change)
    ensures change.New? ==> aligned[index].Added?
    ensures change.Gone? && index + step < |aligned| ==> !aligned[index + step].Added?
  {
    var entry := aligned[index];
    if entry.Removed? && index + 1 < |aligned| && aligned[index + 1].Added? {
      change := ChangedPair(entry.value, aligned[index + 1].value);
      step := 2;
    } else {
      change :=
        match entry
        case Equal(value) => Same(value)
        case Removed(value) => Gone(value)
        case Added(value) => New(value);
      step := 1;
    }
  }

  /** A removed line directly before an added one is one edited paragraph, not two events. */
  method PairEdits(aligned: seq<Line>) returns (changes: seq<Change>)
    ensures AllLines(changes) == aligned
    ensures AllWellMarked(changes) && Paired(changes)
  {
    changes := [];
    var index := 0;
    while index < |aligned|
      invariant 0 <= index <= |aligned|
      invariant AllLines(changes) == aligned[..index]
      invariant AllWellMarked(changes) && Paired(changes)
      invariant changes != [] && changes[|changes| - 1].Gone? && index < |aligned| ==> !aligned[index].Added?
    {
      var change, step := NextChange(aligned, index);
      OneMoreMarked(changes, change);
      OneMorePaired(changes, change);
      OneMoreLine(changes, change);
      changes := changes + [change];
      index := index + step;
    }
    assert aligned[..index] == aligned;
  }

  /** What is compared of a text. */
  function Compared(text: string): seq<string> {
    Capped(SplitParagraphs(text), MAX_COMPARED_PARAGRAPHS)
  }

  /** The first thousand paragraphs, or all of them. */
  lemma ComparedAreTheFirst(text: string)
    ensures Compared(text) <= SplitParagraphs(text)
    ensures Compared(text) == SplitParagraphs(text) || (|Compared(text)| == 1000 < |SplitParagraphs(text)|)
  {
  }

  /** The comparison of two texts: the changes tell the shortest alignment of what was compared, edited pairs are
      marked word by word, and "identical" is said exactly of untruncated texts with the same paragraphs; such
      texts print the same. */
  method CompareTexts(fromText: string, toText: string) returns (r: Comparison)
    ensures r.truncated
       <==> |SplitParagraphs(fromText)| > 1000 || |SplitParagraphs(toText)| > 1000
    ensures AllLines(r.changes) == Aligned(Compared(fromText), Compared(toText))
    ensures AllWellMarked(r.changes) && Paired(r.changes)
    ensures r.identical <==> !r.truncated && SplitParagraphs(fromText) == SplitParagraphs(toText)
    ensures r.identical ==> Ink(fromText) == Ink(toText)
  {
    var fromAll, toAll := SplitParagraphs(fromText), SplitParagraphs(toText);
    var truncated := |fromAll| > MAX_COMPARED_PARAGRAPHS || |toAll| > MAX_COMPARED_PARAGRAPHS;
    var from, to := Capped(fromAll, MAX_COMPARED_PARAGRAPHS), Capped(toAll, MAX_COMPARED_PARAGRAPHS);
    var aligned := Align(from, to);
    var changes := PairEdits(aligned);
    IdenticalMeansEqual(from, to);
    AllSameLines(changes);
    ParagraphsKeepInk(fromText);
    ParagraphsKeepInk(toText);
    r := Comparison(changes, !truncated && forall k :: 0 <= k < |changes| ==> changes[k].Same?, truncated);
  }

  lemma {:induction false} AllSameLines(changes: seq<Change>)
    ensures (forall k :: 0 <= k < |changes| ==> changes[k].Same?)
       <==> (forall k :: 0 <= k < |AllLines(changes)| ==> AllLines(changes)[k].Equal?)
  {
    if changes != [] {
      var front, last := changes[..|changes| - 1], changes[|changes| - 1];
      AllSameLines(front);
      var lines := AllLines(changes);
      var before := AllLines(front);
      assert forall k :: 0 <= k < |before| ==> lines[k] == before[k];
      assert forall k :: 0 <= k < |LinesOf(last)| ==> lines[|before| + k] == LinesOf(last)[k];
      assert lines[|before|] == LinesOf(last)[0];
    }
  }

  /** The alignment is matched throughout exactly when the two texts are one. */
  lemma IdenticalMeansEqual(a: seq<string>, b: seq<string>)
    ensures (forall k :: 0 <= k < |Aligned(a, b)| ==> Aligned(a, b)[k].Equal?) <==> a == b
  {
    AlignedIsShortest(a, b);
    var lines := Aligned(a, b);
    if forall k :: 0 <= k < |lines| ==> lines[k].Equal? {
      MatchedSidesAgree(lines);
    }
    if a == b {
      var same := seq(|a|, k requires 0 <= k < |a| => Equal(a[k]));
      MatchedSidesAgree(same);
      SidesOfEqual(a);
      SidesBoundTheLength(lines);
    }
  }

  lemma {:induction false} MatchedSidesAgree(lines: seq<Line>)
    requires forall k :: 0 <= k < |lines| ==> lines[k].Equal?
    ensures FromSide(lines) == ToSide(lines)
  {
    if lines != [] {
      SideSplits(lines, true);
      SideSplits(lines, false);
      MatchedSidesAgree(lines[1..]);
    }
  }

  lemma {:induction false} SidesOfEqual(a: seq<string>)
    ensures FromSide(seq(|a|, k requires 0 <= k < |a| => Equal(a[k]))) == a
  {
    var lines := seq(|a|, k requires 0 <= k < |a| => Equal(a[k]));
    if a != [] {
      SideSplits(lines, true);
      SidesOfEqual(a[1..]);
      assert lines[1..] == seq(|a[1..]|, k requires 0 <= k < |a[1..]| => Equal(a[1..][k]));
    }
  }

  /** A line off either side makes the telling longer than that side. */
  lemma {:induction false} SidesBoundTheLength(lines: seq<Line>)
    ensures |FromSide(lines)| <= |lines| && |ToSide(lines)| <= |lines|
    ensures |FromSide(lines)| == |lines| && |ToSide(lines)| == |lines|
        ==> forall k :: 0 <= k < |lines| ==> lines[k].Equal?
  {
    if lines != [] {
      SideSplits(lines, true);
      SideSplits(lines, false);
      SidesBoundTheLength(lines[1..]);
      assert forall k :: 1 <= k < |lines| ==> lines[k] == lines[1..][k - 1];
    }
  }
}
