/** The bytes a signature is over (packages/domain/src/signature.ts): every field on a line of its own, so
    that equal bytes can only come from equal statements (21 CFR Part 11, sections 11.50 and 11.70). */
module Signature {
  import opened Text
  import opened Whitespace

  datatype Purpose = Authorship | Reviewed | Approval | Acceptance | Witness

  datatype Statement = Statement(
    tenantId: string, documentId: string, documentNumber: Option<string>, revisionId: string,
    revisionLabel: string, contentDigest: string, signerUserId: string, signerName: string,
    signerEmail: string, purpose: Purpose, statement: Option<string>, signedAt: string)

  function PurposeKey(p: Purpose): string {
    match p
    case Authorship => "AUTHORSHIP"
    case Reviewed => "REVIEWED"
    case Approval => "APPROVAL"
    case Acceptance => "ACCEPTANCE"
    case Witness => "WITNESS"
  }

  predicate IsBreak(c: char) {
    c == '\r' || c == '\n'
  }

  function SkipBreaks(s: string): (r: string)
    ensures |r| <= |s|
  {
    if s != "" && IsBreak(s[0]) then SkipBreaks(s[1..]) else s
  }

  /** Every run of line breaks becomes one space. */
  function CollapseBreaks(s: string): string
    decreases |s|
  {
    if s == "" then ""
    else if IsBreak(s[0]) then " " + CollapseBreaks(SkipBreaks(s[1..]))
    else [s[0]] + CollapseBreaks(s[1..])
  }

  function OneLine(value: string): string {
    Trim(CollapseBreaks(value))
  }

  function OrEmpty(value: Option<string>): string {
    if value.Some? then value.value else ""
  }

  const HEADER := "munaxa-docs-signature/v1"

  const LABELS: seq<string> := [
    "tenant:", "document:", "number:", "revision:", "label:", "content-sha256:", "signer:",
    "signer-name:", "signer-email:", "purpose:", "statement:", "signed-at:"]

  /** The value each line carries, in order. */
  function Values(s: Statement): (v: seq<string>)
    ensures |v| == 12
  {
    [s.tenantId, s.documentId, OrEmpty(s.documentNumber), s.revisionId, OneLine(s.revisionLabel),
     s.contentDigest, s.signerUserId, OneLine(s.signerName), OneLine(s.signerEmail), PurposeKey(s.purpose),
     OneLine(OrEmpty(s.statement)), s.signedAt]
  }

  function Labelled(labels: seq<string>, values: seq<string>): (lines: seq<string>)
    requires |labels| == |values|
    ensures |lines| == |labels|
  {
    seq(|labels|, i requires 0 <= i < |labels| => labels[i] + values[i])
  }

  function Serialise(s: Statement): string {
    Join([HEADER] + Labelled(LABELS, Values(s)), '\n') + "\n"
  }

  // ----- One line ---------------------------------------------------------------------------------

  lemma {:induction false} CollapsedHasNoBreak(s: string)
    ensures '\n' !in CollapseBreaks(s) && '\r' !in CollapseBreaks(s)
    decreases |s|
  {
    if s != "" {
      if IsBreak(s[0]) {
        CollapsedHasNoBreak(SkipBreaks(s[1..]));
      } else {
        CollapsedHasNoBreak(s[1..]);
      }
    }
  }

  /** Whatever was typed, the value occupies one line: it cannot forge a field boundary. */
  lemma OneLineHasNoBreak(value: string)
    ensures '\n' !in OneLine(value) && '\r' !in OneLine(value)
  {
    CollapsedHasNoBreak(value);
    TrimKeeps(CollapseBreaks(value), '\n');
    TrimKeeps(CollapseBreaks(value), '\r');
  }

  predicate HasNoBreak(s: string) {
    forall i :: 0 <= i < |s| ==> !IsBreak(s[i])
  }

  predicate AllBreaks(s: string) {
    forall i :: 0 <= i < |s| ==> IsBreak(s[i])
  }

  lemma {:induction false} NothingToCollapse(s: string)
    requires HasNoBreak(s)
    ensures CollapseBreaks(s) == s
  {
    if s != "" {
      NothingToCollapse(s[1..]);
      assert s == [s[0]] + s[1..];
    }
  }

  lemma {:induction false} SkipsThemAll(breaks: string, rest: string)
    requires AllBreaks(breaks) && (rest == "" || !IsBreak(rest[0]))
    ensures SkipBreaks(breaks + rest) == rest
  {
    if breaks == "" {
      assert breaks + rest == rest;
    } else {
      assert (breaks + rest)[1..] == breaks[1..] + rest;
      SkipsThemAll(breaks[1..], rest);
    }
  }

  lemma {:induction false} CollapseAcrossBreaks(line: string, breaks: string, rest: string)
    requires HasNoBreak(line) && breaks != "" && AllBreaks(breaks) && (rest == "" || !IsBreak(rest[0]))
    ensures CollapseBreaks(line + breaks + rest) == line + " " + CollapseBreaks(rest)
  {
    var s := line + breaks + rest;
    if line == "" {
      assert s[0] == breaks[0] && s[1..] == breaks[1..] + rest;
      SkipsThemAll(breaks[1..], rest);
    } else {
      assert s[0] == line[0] && s[1..] == line[1..] + breaks + rest;
      CollapseAcrossBreaks(line[1..], breaks, rest);
      assert line == [line[0]] + line[1..];
    }
  }

  /** What the line is: a value with no break in it is only trimmed; and every run of breaks becomes one blank, from
      the first on. */
  lemma OneLineIs(line: string, breaks: string, rest: string)
    requires HasNoBreak(line) && AllBreaks(breaks) && (rest == "" || !IsBreak(rest[0]))
    ensures OneLine(line) == Trim(line)
    ensures breaks != "" ==> CollapseBreaks(line + breaks + rest) == line + " " + CollapseBreaks(rest)
    ensures IsTight(OneLine(rest))
  {
    NothingToCollapse(line);
    if breaks != "" {
      CollapseAcrossBreaks(line, breaks, rest);
    }
    var front, back := TrimIsTheMiddle(CollapseBreaks(rest));
  }

  // ----- Equal bytes, equal fields ----------------------------------------------------------------

  /** The fields written as they are hold no line break: identifiers, digests, timestamps. */
  predicate Unbroken(s: Statement) {
    && '\n' !in s.tenantId && '\n' !in s.documentId && '\n' !in OrEmpty(s.documentNumber)
    && '\n' !in s.revisionId && '\n' !in s.contentDigest && '\n' !in s.signerUserId && '\n' !in s.signedAt
  }

  ghost predicate NoBreaks(lines: seq<string>) {
    forall i :: 0 <= i < |lines| ==> '\n' !in lines[i]
  }

  lemma ValuesHaveNoBreak(s: Statement)
    requires Unbroken(s)
    ensures NoBreaks(Values(s))
  {
    OneLineHasNoBreak(s.revisionLabel);
    OneLineHasNoBreak(s.signerName);
    OneLineHasNoBreak(s.signerEmail);
    OneLineHasNoBreak(OrEmpty(s.statement));
  }

  lemma LinesHaveNoBreak(header: string, labels: seq<string>, values: seq<string>)
    requires |labels| == |values| && '\n' !in header && NoBreaks(labels) && NoBreaks(values)
    ensures NoBreaks([header] + Labelled(labels, values))
  {
  }

  /** Joined lines without breaks determine the lines, and labelled lines the values. */
  lemma LinesDetermineValues(header: string, labels: seq<string>, one: seq<string>, other: seq<string>)
    requires |labels| == |one| == |other| && '\n' !in header
    requires NoBreaks(labels) && NoBreaks(one) && NoBreaks(other)
    requires Join([header] + Labelled(labels, one), '\n') == Join([header] + Labelled(labels, other), '\n')
    ensures one == other
  {
    var a, b := [header] + Labelled(labels, one), [header] + Labelled(labels, other);
    LinesHaveNoBreak(header, labels, one);
    LinesHaveNoBreak(header, labels, other);
    SplitJoin(a, '\n');
    SplitJoin(b, '\n');
    forall i | 0 <= i < |labels|
      ensures one[i] == other[i]
    {
      assert a[i + 1] == labels[i] + one[i] && b[i + 1] == labels[i] + other[i];
      assert one[i] == a[i + 1][|labels[i]|..] && other[i] == b[i + 1][|labels[i]|..];
    }
  }

  lemma LabelsHaveNoBreak()
    ensures NoBreaks(LABELS) && '\n' !in HEADER
  {
  }

  /** Everything a signature attests, up to the two things the format forgets: line breaks and outer
      space in free text, and whether an absent value was absent or empty. */
  predicate SameAttestation(s: Statement, t: Statement) {
    && s.tenantId == t.tenantId && s.documentId == t.documentId
    && OrEmpty(s.documentNumber) == OrEmpty(t.documentNumber)
    && s.revisionId == t.revisionId && OneLine(s.revisionLabel) == OneLine(t.revisionLabel)
    && s.contentDigest == t.contentDigest && s.signerUserId == t.signerUserId
    && OneLine(s.signerName) == OneLine(t.signerName) && OneLine(s.signerEmail) == OneLine(t.signerEmail)
    && s.purpose == t.purpose
    && OneLine(OrEmpty(s.statement)) == OneLine(OrEmpty(t.statement))
    && s.signedAt == t.signedAt
  }

  lemma PurposeKeysDiffer(p: Purpose, q: Purpose)
    requires PurposeKey(p) == PurposeKey(q)
    ensures p == q
  {
    assert PurposeKey(p)[0] == PurposeKey(q)[0];
    assert |PurposeKey(p)| == |PurposeKey(q)|;
  }

  /** The value lines agree exactly when the attestations do. */
  lemma ValuesAreTheAttestation(s: Statement, t: Statement)
    ensures Values(s) == Values(t) <==> SameAttestation(s, t)
  {
    var v, w := Values(s), Values(t);
    if v == w {
      assert v[0] == w[0] && v[1] == w[1] && v[2] == w[2] && v[3] == w[3] && v[4] == w[4] && v[5] == w[5];
      assert v[6] == w[6] && v[7] == w[7] && v[8] == w[8] && v[9] == w[9] && v[10] == w[10] && v[11] == w[11];
      PurposeKeysDiffer(s.purpose, t.purpose);
    }
  }

  // ----- No other statement has the bytes of a clean one ------------------------------------------------

  function Breaks(s: string): nat {
    if s == "" then 0 else (if s[0] == '\n' then 1 else 0) + Breaks(s[1..])
  }

  lemma {:induction false} BreaksAppend(s: string, t: string)
    ensures Breaks(s + t) == Breaks(s) + Breaks(t)
  {
    if s == "" {
      assert s + t == t;
    } else {
      BreaksAppend(s[1..], t);
      assert (s + t)[0] == s[0] && (s + t)[1..] == s[1..] + t;
    }
  }

  lemma {:induction false} NoBreakCounted(s: string)
    ensures Breaks(s) == 0 <==> '\n' !in s
  {
    if s != "" {
      NoBreakCounted(s[1..]);
      assert s == [s[0]] + s[1..];
    }
  }

  function BreaksIn(lines: seq<string>): nat {
    if lines == [] then 0 else Breaks(lines[0]) + BreaksIn(lines[1..])
  }

  lemma {:induction false} BreaksOfJoined(lines: seq<string>)
    requires lines != []
    ensures Breaks(Join(lines, '\n')) == BreaksIn(lines) + |lines| - 1
  {
    if |lines| > 1 {
      BreaksOfJoined(lines[1..]);
      BreaksAppend(lines[0] + "\n", Join(lines[1..], '\n'));
      BreaksAppend(lines[0], "\n");
      assert Breaks("\n") == 1;
    }
  }

  lemma {:induction false} NoBreaksCounted(lines: seq<string>)
    ensures BreaksIn(lines) == 0 <==> NoBreaks(lines)
  {
    if lines != [] {
      NoBreaksCounted(lines[1..]);
      NoBreakCounted(lines[0]);
      assert NoBreaks(lines) <==> '\n' !in lines[0] && NoBreaks(lines[1..]) by {
        assert forall i :: 1 <= i < |lines| ==> lines[i] == lines[1..][i - 1];
      }
    }
  }

  /** As many lines as there are fields leave no room for a break inside one. */
  lemma SameBytesUnbroken(header: string, labels: seq<string>, one: seq<string>, other: seq<string>)
    requires |labels| == |one| == |other| && '\n' !in header && NoBreaks(labels) && NoBreaks(one)
    requires Join([header] + Labelled(labels, one), '\n') == Join([header] + Labelled(labels, other), '\n')
    ensures NoBreaks(other)
  {
    var a, b := [header] + Labelled(labels, one), [header] + Labelled(labels, other);
    LinesHaveNoBreak(header, labels, one);
    NoBreaksCounted(a);
    BreaksOfJoined(a);
    BreaksOfJoined(b);
    NoBreaksCounted(b);
    forall i | 0 <= i < |other| ensures '\n' !in other[i] {
      assert b[i + 1] == labels[i] + other[i];
      assert '\n' !in b[i + 1];
    }
  }

  /** Equal bytes attest the same, and only they do: whatever text the name, label, email and statement
      contain, a statement whose identifiers hold no line break shares its bytes with no statement that
      attests anything else, whatever that one's identifiers hold. */
  lemma SerialisationIsInjective(s: Statement, t: Statement)
    requires Unbroken(s)
    ensures Serialise(s) == Serialise(t) <==> SameAttestation(s, t)
  {
    ValuesAreTheAttestation(s, t);
    if Serialise(s) == Serialise(t) {
      ValuesHaveNoBreak(s);
      LabelsHaveNoBreak();
      JoinsAgree(s, t);
      SameBytesUnbroken(HEADER, LABELS, Values(s), Values(t));
      LinesDetermineValues(HEADER, LABELS, Values(s), Values(t));
    }
  }

  lemma JoinsAgree(s: Statement, t: Statement)
    requires Serialise(s) == Serialise(t)
    ensures Join([HEADER] + Labelled(LABELS, Values(s)), '\n') == Join([HEADER] + Labelled(LABELS, Values(t)), '\n')
  {
    var a, b := Join([HEADER] + Labelled(LABELS, Values(s)), '\n'), Join([HEADER] + Labelled(LABELS, Values(t)), '\n');
    assert (a + "\n")[..|a|] == a && (b + "\n")[..|b|] == b;
  }

  /** The hypothesis is needed: a line break in an identifier, which nothing strips, moves the boundary
      between two fields without changing a byte. */
  lemma BreaksInIdentifiersCollide(s: Statement, x: string, y: string, z: string)
    ensures var cut := "\n" + LABELS[1];
            var one := s.(tenantId := x + cut + y, documentId := z);
            var other := s.(tenantId := x, documentId := y + cut + z);
            Serialise(one) == Serialise(other) && one.tenantId != other.tenantId
  {
    var cut := "\n" + LABELS[1];
    var one := s.(tenantId := x + cut + y, documentId := z);
    var other := s.(tenantId := x, documentId := y + cut + z);
    var a, b := [HEADER] + Labelled(LABELS, Values(one)), [HEADER] + Labelled(LABELS, Values(other));
    assert a[3..] == b[3..];
    MovedBoundary(a, b, LABELS[0], LABELS[1], x, y, z);
  }

  lemma MovedBoundary(a: seq<string>, b: seq<string>, first: string, second: string, x: string, y: string, z: string)
    requires |a| == |b| > 3 && a[0] == b[0] && a[3..] == b[3..]
    requires a[1] == first + (x + ("\n" + second) + y) && a[2] == second + z
    requires b[1] == first + x && b[2] == second + (y + ("\n" + second) + z)
    ensures Join(a, '\n') == Join(b, '\n')
  {
    JoinThree(a);
    JoinThree(b);
    var rest := Join(a[3..], '\n');
    Regrouped(first, x, second, y, z, "\n", rest);
  }

  /** Both sides are the same pieces in the same order. */
  lemma Regrouped(f: string, x: string, d: string, y: string, z: string, n: string, r: string)
    ensures (f + (x + (n + d) + y)) + n + ((d + z) + n + r) == (f + x) + n + ((d + (y + (n + d) + z)) + n + r)
  {
    var tail := z + n + r;
    assert (d + z) + n + r == d + tail;
    assert (d + (y + (n + d) + z)) + n + r == d + y + n + d + tail;
    assert (f + (x + (n + d) + y)) + n + (d + tail) == f + x + n + d + y + n + d + tail;
  }

  lemma JoinThree(lines: seq<string>)
    requires |lines| > 3
    ensures Join(lines, '\n') == lines[0] + "\n" + (lines[1] + "\n" + (lines[2] + "\n" + Join(lines[3..], '\n')))
  {
    assert Join(lines, '\n') == lines[0] + "\n" + Join(lines[1..], '\n');
    assert lines[1..][1..] == lines[2..];
    assert Join(lines[1..], '\n') == lines[1] + "\n" + Join(lines[2..], '\n');
    assert lines[2..][1..] == lines[3..];
    assert Join(lines[2..], '\n') == lines[2] + "\n" + Join(lines[3..], '\n');
  }
}
