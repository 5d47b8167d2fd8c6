/** Cutting a text into paragraphs (apps/api/src/modules/revision/domain/text-diff.ts): at blank lines and at
    line breaks before text, each piece squeezed to single blanks, empty ones dropped. */
module Paragraphs {
  import opened Text
  import opened Whitespace

  /** How many line feeds the text starts with. */
  function LineFeeds(s: string): (n: nat)
    ensures n <= |s| && forall i :: 0 <= i < n ==> s[i] == '\n'
  {
    if s != "" && s[0] == '\n' then 1 + LineFeeds(s[1..]) else 0
  }

  /** How much of the front of the text the pattern takes: a run of line feeds, or one line break with text
      right behind it; zero where it does not match. */
  function BreakLength(s: string): (n: nat)
    ensures n <= |s| && forall i :: 0 <= i < n ==> IsSpace(s[i])
  {
    if LineFeeds(s) >= 2 then LineFeeds(s)
    else if |s| > 2 && s[0] == '\r' && s[1] == '\n' && !IsSpace(s[2]) then 2
    else if |s| > 1 && s[0] == '\n' && !IsSpace(s[1]) then 1
    else 0
  }

  function SplitBreaks(s: string): (pieces: seq<string>)
    ensures pieces != []
    decreases |s|
  {
    if s == "" then [""]
    else if BreakLength(s) > 0 then [""] + SplitBreaks(s[BreakLength(s)..])
    else
      var rest := SplitBreaks(s[1..]);
      [[s[0]] + rest[0]] + rest[1..]
  }

  /** Every run of white space becomes one blank. */
  function Collapse(s: string): string
    decreases |s|
  {
    if s == "" then ""
    else if IsSpace(s[0]) then " " + Collapse(SkipSpace(s))
    else [s[0]] + Collapse(s[1..])
  }

  function SkipSpace(s: string): (r: string)
    requires s != "" && IsSpace(s[0])
    ensures |r| < |s| && (r != "" ==> !IsSpace(r[0]))
  {
    if |s| > 1 && IsSpace(s[1]) then SkipSpace(s[1..]) else s[1..]
  }

  function Squeeze(s: string): string {
    Trim(Collapse(s))
  }

  function SqueezeAll(pieces: seq<string>): seq<string> {
    if pieces == [] then []
    else
      var paragraph := Squeeze(pieces[0]);
      (if paragraph == "" then [] else [paragraph]) + SqueezeAll(pieces[1..])
  }

  function SplitParagraphs(text: string): seq<string> {
    SqueezeAll(SplitBreaks(text))
  }

  // ----- Nothing but white space is lost --------------------------------------------------------------

  /** What is printed: the text without its white space. */
  function Ink(s: string): string {
    if s == "" then ""
    else (if IsSpace(s[0]) then "" else [s[0]]) + Ink(s[1..])
  }

  function InkOfAll(pieces: seq<string>): string {
    if pieces == [] then "" else Ink(pieces[0]) + InkOfAll(pieces[1..])
  }

  lemma {:induction false} InkAppend(s: string, t: string)
    ensures Ink(s + t) == Ink(s) + Ink(t)
  {
    if s == "" {
      assert s + t == t;
    } else {
      var head := if IsSpace(s[0]) then "" else [s[0]];
      calc {
        Ink(s + t);
      == { assert (s + t)[0] == s[0] && (s + t)[1..] == s[1..] + t; }
        head + Ink(s[1..] + t);
      == { InkAppend(s[1..], t); }
        head + (Ink(s[1..]) + Ink(t));
      ==
        Ink(s) + Ink(t);
      }
    }
  }

  lemma {:induction false} SpaceHasNoInk(s: string)
    requires forall i :: 0 <= i < |s| ==> IsSpace(s[i])
    ensures Ink(s) == ""
  {
    if s != "" {
      SpaceHasNoInk(s[1..]);
    }
  }

  lemma {:induction false} SkippingKeepsInk(s: string)
    requires s != "" && IsSpace(s[0])
    ensures Ink(SkipSpace(s)) == Ink(s)
  {
    if |s| > 1 && IsSpace(s[1]) {
      SkippingKeepsInk(s[1..]);
    }
  }

  lemma {:induction false} CollapsingKeepsInk(s: string)
    ensures Ink(Collapse(s)) == Ink(s)
    decreases |s|
  {
    if s != "" {
      if IsSpace(s[0]) {
        SkippingKeepsInk(s);
        CollapsingKeepsInk(SkipSpace(s));
        SpaceHasNoInk(" ");
        InkAppend(" ", Collapse(SkipSpace(s)));
      } else {
        CollapsingKeepsInk(s[1..]);
        assert Collapse(s)[1..] == Collapse(s[1..]);
      }
    }
  }

  lemma {:induction false} TrimStartKeepsInk(s: string)
    ensures Ink(TrimStart(s)) == Ink(s)
  {
    if s != "" && IsSpace(s[0]) {
      TrimStartKeepsInk(s[1..]);
    }
  }

  lemma {:induction false} TrimEndKeepsInk(s: string)
    ensures Ink(TrimEnd(s)) == Ink(s)
  {
    if s != "" && IsSpace(s[|s| - 1]) {
      var front, last := s[..|s| - 1], s[|s| - 1..];
      assert s == front + last;
      InkAppend(front, last);
      SpaceHasNoInk(last);
      TrimEndKeepsInk(front);
    }
  }

  lemma SqueezingKeepsInk(s: string)
    ensures Ink(Squeeze(s)) == Ink(s)
  {
    CollapsingKeepsInk(s);
    TrimStartKeepsInk(Collapse(s));
    TrimEndKeepsInk(TrimStart(Collapse(s)));
  }

  lemma {:induction false} SqueezingAllKeepsInk(pieces: seq<string>)
    ensures InkOfAll(SqueezeAll(pieces)) == InkOfAll(pieces)
  {
    if pieces != [] {
      SqueezingAllKeepsInk(pieces[1..]);
      SqueezingKeepsInk(pieces[0]);
      var paragraph := Squeeze(pieces[0]);
      if paragraph != "" {
        assert SqueezeAll(pieces)[1..] == SqueezeAll(pieces[1..]);
      } else {
        assert SqueezeAll(pieces) == SqueezeAll(pieces[1..]) && Ink(pieces[0]) == "";
      }
    }
  }

  lemma {:induction false} SplittingKeepsInk(s: string)
    ensures InkOfAll(SplitBreaks(s)) == Ink(s)
    decreases |s|
  {
    if s == "" {
      assert SplitBreaks(s)[1..] == [];
    } else if BreakLength(s) > 0 {
      var n := BreakLength(s);
      SplittingKeepsInk(s[n..]);
      assert s == s[..n] + s[n..];
      InkAppend(s[..n], s[n..]);
      SpaceHasNoInk(s[..n]);
      assert SplitBreaks(s)[1..] == SplitBreaks(s[n..]);
    } else {
      SplittingKeepsInk(s[1..]);
      var rest := SplitBreaks(s[1..]);
      InkAppend([s[0]], rest[0]);
      InkAppend([s[0]], s[1..]);
      assert s == [s[0]] + s[1..];
      assert SplitBreaks(s)[1..] == rest[1..];
      assert InkOfAll(SplitBreaks(s)) == Ink([s[0]] + rest[0]) + InkOfAll(rest[1..]);
    }
  }

  /** Read in order, the paragraphs print exactly what the text prints. */
  lemma ParagraphsKeepInk(text: string)
    ensures InkOfAll(SplitParagraphs(text)) == Ink(text)
  {
    SplittingKeepsInk(text);
    SqueezingAllKeepsInk(SplitBreaks(text));
  }

  // ----- What a paragraph looks like --------------------------------------------------------------------

  /** White space comes as one blank at a time. */
  ghost predicate SingleBlanks(s: string) {
    && (forall i :: 0 <= i < |s| && IsSpace(s[i]) ==> s[i] == ' ')
    && (forall i, j :: 0 <= i < j < |s| && j == i + 1 && IsSpace(s[i]) ==> !IsSpace(s[j]))
  }

  /** Not empty, text at both ends, single blanks between. */
  ghost predicate IsParagraph(s: string) {
    s != "" && !IsSpace(s[0]) && !IsSpace(s[|s| - 1]) && SingleBlanks(s)
  }

  lemma {:induction false} CollapsedHasSingleBlanks(s: string)
    ensures SingleBlanks(Collapse(s))
    ensures Collapse(s) != "" ==> s != "" && (IsSpace(Collapse(s)[0]) <==> IsSpace(s[0]))
    decreases |s|
  {
    if s != "" {
      var rest := if IsSpace(s[0]) then SkipSpace(s) else s[1..];
      CollapsedHasSingleBlanks(rest);
      BlankInFront(if IsSpace(s[0]) then ' ' else s[0], Collapse(rest));
      assert Collapse(s) == [if IsSpace(s[0]) then ' ' else s[0]] + Collapse(rest);
    }
  }

  lemma BlankInFront(c: char, rest: string)
    requires SingleBlanks(rest)
    requires IsSpace(c) ==> c == ' ' && (rest == "" || !IsSpace(rest[0]))
    ensures SingleBlanks([c] + rest)
  {
    var s := [c] + rest;
    forall i, j | 0 <= i < j < |s| && j == i + 1 && IsSpace(s[i]) ensures !IsSpace(s[j]) {
      assert s[j] == rest[i];
      assert i > 0 ==> s[i] == rest[i - 1];
    }
    assert forall i :: 1 <= i < |s| ==> s[i] == rest[i - 1];
  }

  lemma {:induction false} TrimStartIsASuffix(s: string)
    ensures |TrimStart(s)| <= |s| && TrimStart(s) == s[|s| - |TrimStart(s)|..]
    ensures TrimStart(s) != "" ==> !IsSpace(TrimStart(s)[0])
  {
    if s != "" && IsSpace(s[0]) {
      TrimStartIsASuffix(s[1..]);
    }
  }

  lemma {:induction false} TrimEndIsAPrefix(s: string)
    ensures |TrimEnd(s)| <= |s| && TrimEnd(s) == s[..|TrimEnd(s)|]
    ensures TrimEnd(s) != "" ==> !IsSpace(TrimEnd(s)[|TrimEnd(s)| - 1])
  {
    if s != "" && IsSpace(s[|s| - 1]) {
      TrimEndIsAPrefix(s[..|s| - 1]);
    }
  }

  lemma PartHasSingleBlanks(s: string, from: nat, to: nat)
    requires SingleBlanks(s) && from <= to <= |s|
    ensures SingleBlanks(s[from..to])
  {
    var part := s[from..to];
    assert forall i :: 0 <= i < |part| ==> part[i] == s[from + i];
  }

  lemma SqueezedIsAParagraph(s: string)
    ensures Squeeze(s) != "" ==> IsParagraph(Squeeze(s))
  {
    var collapsed := Collapse(s);
    CollapsedHasSingleBlanks(s);
    TrimStartIsASuffix(collapsed);
    var front := TrimStart(collapsed);
    PartHasSingleBlanks(collapsed, |collapsed| - |front|, |collapsed|);
    TrimEndIsAPrefix(front);
    PartHasSingleBlanks(front, 0, |TrimEnd(front)|);
  }

  /** Every paragraph is one: not empty, nothing but single blanks inside, so no line break. */
  lemma {:induction false} AllAreParagraphs(pieces: seq<string>)
    ensures forall p :: p in SqueezeAll(pieces) ==> IsParagraph(p)
  {
    if pieces != [] {
      AllAreParagraphs(pieces[1..]);
      SqueezedIsAParagraph(pieces[0]);
    }
  }

  lemma ParagraphsAreParagraphs(text: string)
    ensures forall p :: p in SplitParagraphs(text) ==> IsParagraph(p)
  {
    AllAreParagraphs(SplitBreaks(text));
  }
}
