/** Where paragraphs end (apps/api/src/modules/revision/domain/text-diff.ts): between two words of a text the white
    space there decides, and nothing else does. Together the laws determine the cut of every text. */
module ParagraphBreaks {
  import opened Whitespace
  import opened Paragraphs

  predicate StartsInInk(s: string) {
    s != "" && !IsSpace(s[0])
  }

  predicate EndsInInk(s: string) {
    s != "" && !IsSpace(s[|s| - 1])
  }

  /** White space that ends a paragraph: a blank line, or a line feed right before the next word. */
  ghost predicate EndsParagraph(w: string) {
    w != "" && (w[|w| - 1] == '\n' || exists i, j :: 0 <= i < j < |w| && j == i + 1 && w[i] == '\n' && w[j] == '\n')
  }

  /** Two lists of pieces, the last of the one run together with the first of the other. */
  function Join(p: seq<string>, q: seq<string>): (r: seq<string>)
    requires p != [] && q != []
    ensures r != []
  {
    p[..|p| - 1] + [p[|p| - 1] + q[0]] + q[1..]
  }

  lemma JoinNothing(q: seq<string>)
    requires q != []
    ensures Join([""], q) == q
  {
    assert "" + q[0] == q[0];
    assert [""][..0] == [];
    assert q == [q[0]] + q[1..];
  }

  lemma JoinBehind(first: string, p: seq<string>, q: seq<string>)
    requires p != [] && q != []
    ensures Join([first] + p, q) == [first] + Join(p, q)
  {
    assert ([first] + p)[..|p|] == [first] + p[..|p| - 1];
  }

  /** A character before the first piece. */
  function Grown(c: char, p: seq<string>): (r: seq<string>)
    requires p != []
    ensures r != []
  {
    [[c] + p[0]] + p[1..]
  }

  lemma JoinGrown(c: char, p: seq<string>, q: seq<string>)
    requires p != [] && q != []
    ensures Join(Grown(c, p), q) == Grown(c, Join(p, q))
  {
    if |p| == 1 {
      assert [c] + (p[0] + q[0]) == ([c] + p[0]) + q[0];
    } else {
      assert Grown(c, p)[..|p| - 1] == [[c] + p[0]] + p[1..|p| - 1];
      assert Join(p, q)[1..] == p[1..|p| - 1] + [p[|p| - 1] + q[0]] + q[1..];
    }
  }

  // ----- Cutting -----------------------------------------------------------------------------------------

  lemma {:induction false} LineFeedsWithin(u: string, t: string)
    requires EndsInInk(u)
    ensures LineFeeds(u + t) == LineFeeds(u)
  {
    assert (u + t)[0] == u[0] && (u + t)[1..] == u[1..] + t;
    if u[0] == '\n' {
      LineFeedsWithin(u[1..], t);
    }
  }

  lemma BreakWithin(u: string, t: string)
    requires EndsInInk(u)
    ensures BreakLength(u + t) == BreakLength(u) < |u|
  {
    LineFeedsWithin(u, t);
    assert forall i :: 0 <= i < |u| ==> (u + t)[i] == u[i];
  }

  /** One step of the cut: what it does, at a break and elsewhere, with the cut of what is left. */
  function OneStep(n: nat, c: char, rest: seq<string>): (r: seq<string>)
    requires rest != []
    ensures r != []
  {
    if n > 0 then [""] + rest else Grown(c, rest)
  }

  /** How far a step goes. */
  function Stride(n: nat): (k: nat)
    ensures k > 0
  {
    if n > 0 then n else 1
  }

  lemma CutStep(s: string, n: nat, left: string)
    requires s != "" && n == BreakLength(s) && left == s[Stride(n)..]
    ensures SplitBreaks(s) == OneStep(n, s[0], SplitBreaks(left))
  {
  }

  lemma JoinStep(n: nat, c: char, rest: seq<string>, tail: seq<string>)
    requires rest != [] && tail != []
    ensures Join(OneStep(n, c, rest), tail) == OneStep(n, c, Join(rest, tail))
  {
    JoinBehind("", rest, tail);
    JoinGrown(c, rest, tail);
  }

  lemma LeftBehind(u: string, t: string, k: nat)
    requires 0 < k <= |u|
    ensures (u + t)[0] == u[0] && (u + t)[k..] == u[k..] + t
  {
  }

  /** Behind a word the cut starts anew. */
  lemma {:induction false} CutBehindAWord(u: string, t: string)
    requires EndsInInk(u)
    ensures SplitBreaks(u + t) == Join(SplitBreaks(u), SplitBreaks(t))
    decreases |u|
  {
    var n := BreakLength(u);
    BreakWithin(u, t);
    var left := u[Stride(n)..];
    LeftBehind(u, t, Stride(n));
    CutStep(u, n, left);
    CutStep(u + t, n, left + t);
    if left == "" {
      WordAlone(u, t, n);
    } else {
      CutBehindAWord(left, t);
      JoinStep(n, u[0], SplitBreaks(left), SplitBreaks(t));
    }
  }

  lemma WordAlone(u: string, t: string, n: nat)
    requires EndsInInk(u) && n == BreakLength(u) < |u| && u[Stride(n)..] == ""
    ensures OneStep(n, u[0], SplitBreaks("" + t)) == Join(OneStep(n, u[0], SplitBreaks("")), SplitBreaks(t))
  {
    assert "" + t == t;
    JoinStep(n, u[0], [""], SplitBreaks(t));
    JoinNothing(SplitBreaks(t));
  }

  lemma {:induction false} LastPieceEndsInInk(u: string)
    requires EndsInInk(u)
    ensures var p := SplitBreaks(u); EndsInInk(p[|p| - 1])
    decreases |u|
  {
    var n := BreakLength(u);
    assert u + "" == u;
    BreakWithin(u, "");
    var left := u[Stride(n)..];
    CutStep(u, n, left);
    if left != "" {
      LastPieceEndsInInk(left);
      StepKeepsTheEnd(n, u[0], SplitBreaks(left));
    } else {
      assert SplitBreaks("") == [""];
    }
  }

  lemma StepKeepsTheEnd(n: nat, c: char, rest: seq<string>)
    requires rest != [] && EndsInInk(rest[|rest| - 1])
    ensures var p := OneStep(n, c, rest); EndsInInk(p[|p| - 1])
  {
  }

  predicate SpacePieces(p: seq<string>) {
    forall i :: 0 <= i < |p| ==> IsBlank(p[i])
  }

  lemma {:induction false} SpaceIsCutToSpace(w: string)
    requires IsBlank(w)
    ensures SpacePieces(SplitBreaks(w))
    decreases |w|
  {
    if w != "" {
      SpaceIsCutToSpace(w[if BreakLength(w) > 0 then BreakLength(w) else 1..]);
    }
  }

  lemma LineFeedsInSpace(w: string, v: string)
    requires IsBlank(w) && StartsInInk(v)
    ensures LineFeeds(w + v) <= |w|
    ensures BreakLength(w + v) <= |w|
    ensures BreakLength(w + v) > 0 ==> EndsParagraph(w)
    ensures BreakLength(w + v) == 0 && w != "" ==> (EndsParagraph(w) <==> EndsParagraph(w[1..]))
  {
    var s := w + v;
    assert s[|w|] == v[0] != '\n';
    LineFeedsStopBefore(s, |w|);
    assert forall i :: 0 <= i < |w| ==> s[i] == w[i];
    if LineFeeds(s) >= 2 {
      assert w[0] == '\n' && w[1] == '\n';
    }
    if BreakLength(s) == 0 && w != "" {
      if |w| > 1 && w[0] == '\n' && w[1] == '\n' {
        TwoLineFeeds(s);
      }
      var rest := w[1..];
      assert forall i :: 0 <= i < |rest| ==> rest[i] == w[i + 1];
      if i, j :| 0 <= i < j < |w| && j == i + 1 && w[i] == '\n' && w[j] == '\n' {
        assert i > 0;
        assert rest[i - 1] == '\n' && rest[j - 1] == '\n';
      }
      if i, j :| 0 <= i < j < |rest| && j == i + 1 && rest[i] == '\n' && rest[j] == '\n' {
        assert w[i + 1] == '\n' && w[j + 1] == '\n';
      }
    }
  }

  lemma LineFeedsStopBefore(s: string, k: nat)
    requires k < |s| && s[k] != '\n'
    ensures LineFeeds(s) <= k
  {
  }

  lemma TwoLineFeeds(s: string)
    requires |s| > 1 && s[0] == '\n' && s[1] == '\n'
    ensures LineFeeds(s) >= 2
  {
    assert s[1..][0] == '\n';
  }

  /** Before a word, white space is cut off exactly when it ends a paragraph. */
  lemma {:induction false} CutBeforeAWord(w: string, v: string) returns (spaces: seq<string>)
    requires IsBlank(w) && StartsInInk(v)
    ensures spaces != [] && SpacePieces(spaces)
    ensures SplitBreaks(w + v) == Join(spaces, SplitBreaks(v))
    ensures if EndsParagraph(w) then |spaces| > 1 else spaces == [w]
    decreases |w|
  {
    if w == "" {
      spaces := [""];
      assert w + v == v;
      JoinNothing(SplitBreaks(v));
    } else {
      var n := BreakLength(w + v);
      LineFeedsInSpace(w, v);
      var left := w[Stride(n)..];
      LeftBehind(w, v, Stride(n));
      var rest := CutBeforeAWord(left, v);
      CutStep(w + v, n, left + v);
      spaces := OneStep(n, w[0], rest);
      JoinStep(n, w[0], rest, SplitBreaks(v));
      StepOverSpace(w, n, left, rest);
    }
  }

  lemma StepOverSpace(w: string, n: nat, left: string, rest: seq<string>)
    requires w != "" && IsBlank(w) && Stride(n) <= |w| && left == w[Stride(n)..] && rest != [] && SpacePieces(rest)
    ensures SpacePieces(OneStep(n, w[0], rest))
    ensures n == 0 && rest == [left] ==> OneStep(n, w[0], rest) == [w]
  {
    if n == 0 && rest == [left] {
      assert w == [w[0]] + left;
    }
  }

  // ----- Squeezing ---------------------------------------------------------------------------------------

  lemma {:induction false} SkipWithin(x: string, t: string)
    requires EndsInInk(x) && IsSpace(x[0])
    ensures SkipSpace(x + t) == SkipSpace(x) + t && EndsInInk(SkipSpace(x))
  {
    assert (x + t)[1..] == x[1..] + t && (x + t)[1] == x[1];
    if IsSpace(x[1]) {
      SkipWithin(x[1..], t);
    }
  }

  lemma {:induction false} CollapseBehindInk(x: string, t: string)
    requires EndsInInk(x)
    ensures Collapse(x + t) == Collapse(x) + Collapse(t)
    decreases |x|
  {
    if IsSpace(x[0]) {
      SkipWithin(x, t);
      CollapseBehindInk(SkipSpace(x), t);
      Regrouped(" ", Collapse(SkipSpace(x)), Collapse(t));
    } else {
      LeftBehind(x, t, 1);
      if |x| == 1 {
        assert x[1..] == "" && x[1..] + t == t;
      } else {
        CollapseBehindInk(x[1..], t);
      }
      Regrouped([x[0]], Collapse(x[1..]), Collapse(t));
    }
  }

  lemma Regrouped(a: string, b: string, c: string)
    ensures a + (b + c) == (a + b) + c
  {
  }

  lemma {:induction false} CollapsedEndsInInk(x: string)
    requires EndsInInk(x)
    ensures EndsInInk(Collapse(x))
    decreases |x|
  {
    if IsSpace(x[0]) {
      SkipWithin(x, "");
      CollapsedEndsInInk(SkipSpace(x));
    } else if |x| > 1 {
      CollapsedEndsInInk(x[1..]);
    }
  }

  lemma {:induction false} SkipAll(w: string, y: string)
    requires w != "" && IsBlank(w) && (y == "" || StartsInInk(y))
    ensures SkipSpace(w + y) == y
  {
    var s := w + y;
    if |w| > 1 {
      assert s[1] == w[1] && s[1..] == w[1..] + y;
      SkipAll(w[1..], y);
    } else {
      assert s[1..] == y;
    }
  }

  lemma CollapseSpaceFirst(w: string, y: string)
    requires IsBlank(w) && (y == "" || StartsInInk(y))
    ensures Collapse(w + y) == (if w == "" then "" else " ") + Collapse(y)
  {
    if w == "" {
      assert w + y == y;
    } else {
      SkipAll(w, y);
      assert (w + y)[0] == w[0];
    }
  }

  lemma {:induction false} TrimStartWithin(x: string, t: string)
    requires EndsInInk(x)
    ensures TrimStart(x + t) == TrimStart(x) + t && EndsInInk(TrimStart(x))
  {
    assert (x + t)[0] == x[0] && (x + t)[1..] == x[1..] + t;
    if IsSpace(x[0]) {
      TrimStartWithin(x[1..], t);
    }
  }

  lemma {:induction false} TrimEndWithin(t: string, y: string)
    requires StartsInInk(y)
    ensures TrimEnd(t + y) == t + TrimEnd(y)
    decreases |y|
  {
    var s := t + y;
    assert s[|s| - 1] == y[|y| - 1] && s[..|s| - 1] == t + y[..|y| - 1];
    if IsSpace(y[|y| - 1]) {
      TrimEndWithin(t, y[..|y| - 1]);
    }
  }

  lemma TrimEndOfABlank(x: string)
    ensures TrimEnd(x + " ") == TrimEnd(x)
  {
    assert (x + " ")[..|x|] == x;
  }

  lemma CollapsedStartsInInk(y: string)
    requires StartsInInk(y)
    ensures StartsInInk(Collapse(y))
  {
  }

  /** White space between two words becomes one blank. */
  lemma SqueezeAcrossSpace(x: string, w: string, y: string)
    requires EndsInInk(x) && w != "" && IsBlank(w) && StartsInInk(y)
    ensures Squeeze(x + w + y) == Squeeze(x) + " " + Squeeze(y)
  {
    var a, b := Collapse(x), Collapse(y);
    assert x + w + y == x + (w + y);
    CollapseBehindInk(x, w + y);
    CollapsedEndsInInk(x);
    CollapseSpaceFirst(w, y);
    CollapsedStartsInInk(y);
    TrimStartWithin(a, " " + b);
    assert a + (" " + b) == Collapse(x + w + y);
    assert TrimStart(a) + (" " + b) == (TrimStart(a) + " ") + b;
    TrimEndWithin(TrimStart(a) + " ", b);
  }

  /** And at either end it is lost. */
  lemma SqueezeAtTheEnds(w: string, x: string)
    requires IsBlank(w)
    ensures EndsInInk(x) ==> Squeeze(x + w) == Squeeze(x) != ""
    ensures StartsInInk(x) ==> Squeeze(w + x) == Squeeze(x) != ""
  {
    if EndsInInk(x) {
      var a := Collapse(x);
      assert w + "" == w;
      CollapseSpaceFirst(w, "");
      CollapseBehindInk(x, w);
      CollapsedEndsInInk(x);
      TrimStartWithin(a, Collapse(w));
      TrimStartWithin(a, "");
      assert a + "" == a && TrimStart(a) + "" == TrimStart(a);
      TrimEndOfABlank(TrimStart(a));
    }
    if StartsInInk(x) {
      var b := Collapse(x);
      CollapseSpaceFirst(w, x);
      CollapsedStartsInInk(x);
      assert (" " + b)[1..] == b;
      TrimEndWithin("", b);
      TrimEndOfInk(b);
    }
  }

  lemma {:induction false} TrimEndOfInk(y: string)
    requires StartsInInk(y)
    ensures TrimEnd(y) != ""
  {
    if IsSpace(y[|y| - 1]) {
      TrimEndOfInk(y[..|y| - 1]);
    }
  }

  lemma {:induction false} SqueezeAllAppend(p: seq<string>, q: seq<string>)
    ensures SqueezeAll(p + q) == SqueezeAll(p) + SqueezeAll(q)
  {
    if p == [] {
      assert p + q == q;
    } else {
      assert (p + q)[0] == p[0] && (p + q)[1..] == p[1..] + q;
      SqueezeOneMore(p[0], p[1..], p);
      SqueezeOneMore(p[0], p[1..] + q, p + q);
      SqueezeAllAppend(p[1..], q);
      PiecesRegrouped(if Squeeze(p[0]) == "" then [] else [Squeeze(p[0])], SqueezeAll(p[1..]), SqueezeAll(q));
    }
  }

  lemma SqueezeOneMore(piece: string, rest: seq<string>, pieces: seq<string>)
    requires pieces != [] && pieces[0] == piece && pieces[1..] == rest
    ensures SqueezeAll(pieces) == (if Squeeze(piece) == "" then [] else [Squeeze(piece)]) + SqueezeAll(rest)
  {
  }

  lemma PiecesRegrouped(a: seq<string>, b: seq<string>, c: seq<string>)
    ensures a + (b + c) == (a + b) + c
  {
  }

  lemma SqueezeOfSpace(w: string)
    requires IsBlank(w)
    ensures Squeeze(w) == ""
  {
    assert w + "" == w;
    CollapseSpaceFirst(w, "");
    assert TrimStart("") == "";
    if w != "" {
      assert " "[1..] == "";
    }
  }

  lemma {:induction false} SqueezeAllOfSpace(p: seq<string>)
    requires SpacePieces(p)
    ensures SqueezeAll(p) == []
  {
    if p != [] {
      SqueezeOfSpace(p[0]);
      SqueezeAllOfSpace(p[1..]);
    }
  }

  lemma SqueezeAllOfOne(s: string)
    ensures SqueezeAll([s]) == if Squeeze(s) == "" then [] else [Squeeze(s)]
  {
    assert [s][1..] == [];
  }

  lemma SqueezeLast(p: seq<string>)
    requires p != []
    ensures SqueezeAll(p) == SqueezeAll(p[..|p| - 1]) + SqueezeAll([p[|p| - 1]])
  {
    PutTogether(p, p[..|p| - 1], [p[|p| - 1]]);
  }

  lemma PutTogether(p: seq<string>, front: seq<string>, last: seq<string>)
    requires p == front + last
    ensures SqueezeAll(p) == SqueezeAll(front) + SqueezeAll(last)
  {
    SqueezeAllAppend(front, last);
  }

  lemma SqueezeFirst(q: seq<string>)
    requires q != [] && Squeeze(q[0]) != ""
    ensures SqueezeAll(q) == [Squeeze(q[0])] + SqueezeAll(q[1..])
  {
  }

  lemma SqueezeJoin(p: seq<string>, q: seq<string>)
    requires p != [] && q != []
    ensures SqueezeAll(Join(p, q))
         == SqueezeAll(p[..|p| - 1]) + SqueezeAll([p[|p| - 1] + q[0]]) + SqueezeAll(q[1..])
  {
    var middle := [p[|p| - 1] + q[0]];
    SqueezeAllAppend(p[..|p| - 1] + middle, q[1..]);
    SqueezeAllAppend(p[..|p| - 1], middle);
  }

  // ----- The laws ----------------------------------------------------------------------------------------

  /** A word is a paragraph. */
  lemma {:induction false} WordIsAParagraph(word: string)
    requires word != "" && forall i :: 0 <= i < |word| ==> !IsSpace(word[i])
    ensures SplitParagraphs(word) == [word]
  {
    WordStaysWhole(word);
    SqueezeAllOfOne(word);
  }

  lemma {:induction false} WordStaysWhole(word: string)
    requires word != "" && forall i :: 0 <= i < |word| ==> !IsSpace(word[i])
    ensures SplitBreaks(word) == [word] && Squeeze(word) == word
  {
    assert TrimStart(word) == word && TrimEnd(word) == word;
    if |word| > 1 {
      WordStaysWhole(word[1..]);
      assert TrimStart(Collapse(word[1..])) == Collapse(word[1..]) by {
        CollapsedStartsInInk(word[1..]);
      }
      CollapseOfAWord(word);
    } else {
      CollapseOfAWord(word);
      assert word[1..] == "" && word == [word[0]] + "";
    }
    assert word == [word[0]] + word[1..];
  }

  lemma {:induction false} CollapseOfAWord(word: string)
    requires forall i :: 0 <= i < |word| ==> !IsSpace(word[i])
    ensures Collapse(word) == word
  {
    if word != "" {
      CollapseOfAWord(word[1..]);
      assert word == [word[0]] + word[1..];
    }
  }

  /** White space before the first word and behind the last is no paragraph. */
  lemma OuterSpaceIsLost(w: string, s: string)
    requires IsBlank(w)
    ensures SplitParagraphs(w) == []
    ensures EndsInInk(s) ==> SplitParagraphs(s + w) == SplitParagraphs(s)
    ensures StartsInInk(s) ==> SplitParagraphs(w + s) == SplitParagraphs(s)
  {
    SpaceIsCutToSpace(w);
    SqueezeAllOfSpace(SplitBreaks(w));
    if EndsInInk(s) {
      CutBehindAWord(s, w);
      LastPieceEndsInInk(s);
      SpaceBehind(SplitBreaks(s), SplitBreaks(w));
    }
    if StartsInInk(s) {
      var spaces := CutBeforeAWord(w, s);
      assert SplitBreaks(s)[0][0] == s[0];
      SpaceBefore(spaces, SplitBreaks(s));
    }
  }

  lemma SpaceBehind(p: seq<string>, spaces: seq<string>)
    requires p != [] && spaces != [] && SpacePieces(spaces) && EndsInInk(p[|p| - 1])
    ensures SqueezeAll(Join(p, spaces)) == SqueezeAll(p)
  {
    SqueezeJoin(p, spaces);
    SqueezeAllOfSpace(spaces[1..]);
    SqueezeAtTheEnds(spaces[0], p[|p| - 1]);
    SqueezeAllOfOne(p[|p| - 1] + spaces[0]);
    SqueezeAllOfOne(p[|p| - 1]);
    SqueezeLast(p);
  }

  lemma SpaceBefore(spaces: seq<string>, q: seq<string>)
    requires q != [] && spaces != [] && SpacePieces(spaces) && StartsInInk(q[0])
    ensures SqueezeAll(Join(spaces, q)) == SqueezeAll(q)
  {
    SqueezeJoin(spaces, q);
    SqueezeAllOfSpace(spaces[..|spaces| - 1]);
    SqueezeAtTheEnds(spaces[|spaces| - 1], q[0]);
    SqueezeAllOfOne(spaces[|spaces| - 1] + q[0]);
    SqueezeFirst(q);
  }

  /** Two paragraphs made one. */
  function RunTogether(p: seq<string>, q: seq<string>): seq<string>
    requires p != [] && q != []
  {
    p[..|p| - 1] + [p[|p| - 1] + " " + q[0]] + q[1..]
  }

  /** The law of the cut: between two words, the white space ends the paragraph or is one blank in it. */
  lemma SpaceDecides(u: string, w: string, v: string)
    requires EndsInInk(u) && w != "" && IsBlank(w) && StartsInInk(v)
    ensures var p, q := SplitParagraphs(u), SplitParagraphs(v);
            && p != [] && q != []
            && SplitParagraphs(u + w + v) == if EndsParagraph(w) then p + q else RunTogether(p, q)
  {
    var p, q := SplitBreaks(u), SplitBreaks(v);
    assert u + w + v == u + (w + v);
    CutBehindAWord(u, w + v);
    LastPieceEndsInInk(u);
    var spaces := CutBeforeAWord(w, v);
    assert q[0][0] == v[0];
    if EndsParagraph(w) {
      ApartWhenCut(p, spaces, q);
    } else {
      TogetherWhenNot(p, w, q);
    }
  }

  lemma Ends(p: seq<string>, q: seq<string>)
    requires p != [] && EndsInInk(p[|p| - 1]) && q != [] && StartsInInk(q[0])
    ensures SqueezeAll(p) == SqueezeAll(p[..|p| - 1]) + [Squeeze(p[|p| - 1])]
    ensures SqueezeAll(q) == [Squeeze(q[0])] + SqueezeAll(q[1..])
  {
    SqueezeLast(p);
    SqueezeAllOfOne(p[|p| - 1]);
    SqueezeAtTheEnds("", p[|p| - 1]);
    SqueezeAtTheEnds("", q[0]);
    SqueezeFirst(q);
  }

  lemma ApartWhenCut(p: seq<string>, spaces: seq<string>, q: seq<string>)
    requires p != [] && EndsInInk(p[|p| - 1]) && q != [] && StartsInInk(q[0])
    requires |spaces| > 1 && SpacePieces(spaces)
    ensures SqueezeAll(p) != [] && SqueezeAll(q) != []
    ensures SqueezeAll(Join(p, Join(spaces, q))) == SqueezeAll(p) + SqueezeAll(q)
  {
    Ends(p, q);
    var first, rest := spaces[0], spaces[1..];
    assert Join(spaces, q) == [first] + Join(rest, q) by {
      assert spaces == [first] + rest;
      JoinBehind(first, rest, q);
    }
    assert Join(p, [first] + Join(rest, q)) == Join(p, [first]) + Join(rest, q);
    SqueezeAllAppend(Join(p, [first]), Join(rest, q));
    SpaceBehind(p, [first]);
    SpaceBefore(rest, q);
  }

  lemma JoinThree(p: seq<string>, w: string, q: seq<string>)
    requires p != [] && q != []
    ensures Join(p, Join([w], q)) == p[..|p| - 1] + [p[|p| - 1] + w + q[0]] + q[1..]
  {
    var joined := Join([w], q);
    assert joined[0] == w + q[0] && joined[1..] == q[1..];
    Regrouped(p[|p| - 1], w, q[0]);
  }

  lemma SqueezeThree(front: seq<string>, middle: string, back: seq<string>)
    requires Squeeze(middle) != ""
    ensures SqueezeAll(front + [middle] + back) == SqueezeAll(front) + [Squeeze(middle)] + SqueezeAll(back)
  {
    SqueezeAllAppend(front + [middle], back);
    SqueezeAllAppend(front, [middle]);
    SqueezeAllOfOne(middle);
  }

  lemma TogetherWhenNot(p: seq<string>, w: string, q: seq<string>)
    requires p != [] && EndsInInk(p[|p| - 1]) && q != [] && StartsInInk(q[0])
    requires w != "" && IsBlank(w)
    ensures SqueezeAll(p) != [] && SqueezeAll(q) != []
    ensures SqueezeAll(Join(p, Join([w], q))) == RunTogether(SqueezeAll(p), SqueezeAll(q))
  {
    var x, y := p[|p| - 1], q[0];
    SqueezeAcrossSpace(x, w, y);
    JoinThree(p, w, q);
    SqueezeThree(p[..|p| - 1], x + w + y, q[1..]);
    Ends(p, q);
    TogetherIs(SqueezeAll(p[..|p| - 1]), Squeeze(x), Squeeze(y), SqueezeAll(q[1..]));
  }

  lemma TogetherIs(before: seq<string>, x: string, y: string, after: seq<string>)
    ensures RunTogether(before + [x], [y] + after) == before + [x + " " + y] + after
  {
    assert (before + [x])[..|before|] == before;
  }
}
