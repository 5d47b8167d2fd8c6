/** Which statements share their bytes (packages/domain/src/signature.ts): the lines of a serialisation can be told
    apart into fields in as many ways as there are statements behind it. */
module SignatureLines {
  import opened Text
  import opened Whitespace
  import opened Signature

  // ----- Lines and their division ------------------------------------------------------------------

  function Flat(groups: seq<seq<string>>): seq<string> {
    if groups == [] then [] else groups[0] + Flat(groups[1..])
  }

  /** The lines behind the header. */
  function Lines(s: Statement): seq<string> {
    Split(Join(Labelled(LABELS, Values(s)), '\n'), '\n')
  }

  /** The lines field by field: one each, and one more for every break in an identifier. */
  function DivisionOf(s: Statement): (groups: seq<seq<string>>)
    ensures |groups| == 12
  {
    Pieces(Labelled(LABELS, Values(s)))
  }

  function Pieces(texts: seq<string>): (groups: seq<seq<string>>)
    ensures |groups| == |texts|
  {
    seq(|texts|, i requires 0 <= i < |texts| => Split(texts[i], '\n'))
  }

  /** What a field can hold: free text comes as one trimmed line, the purpose is one of its keys, and an identifier
      is written as it is. */
  predicate Takes(field: nat, value: string) {
    && (field in {4, 7, 8, 10} ==> OneLine(value) == value)
    && (field == 9 ==> value in {"AUTHORSHIP", "REVIEWED", "APPROVAL", "ACCEPTANCE", "WITNESS"})
  }

  /** The field's lines: they start with its label, and what follows is something it can hold. */
  predicate IsField(field: nat, lines: seq<string>)
    requires field < 12
  {
    && lines != []
    && LABELS[field] <= Join(lines, '\n')
    && Takes(field, Join(lines, '\n')[|LABELS[field]|..])
  }

  /** A way to tell the lines apart into the twelve fields. */
  ghost predicate Divides(lines: seq<string>, groups: seq<seq<string>>) {
    && |groups| == 12 && Flat(groups) == lines
    && forall i :: 0 <= i < 12 ==> IsField(i, groups[i])
  }

  // ----- Joining and splitting by groups ------------------------------------------------------------

  lemma {:induction false} JoinParts(a: seq<string>, b: seq<string>, c: char)
    requires a != [] && b != []
    ensures Join(a + b, c) == Join(a, c) + [c] + Join(b, c)
  {
    if |a| == 1 {
      assert (a + b)[1..] == b;
    } else {
      JoinParts(a[1..], b, c);
      assert (a + b)[1..] == a[1..] + b;
    }
  }

  ghost predicate NoneEmpty(groups: seq<seq<string>>) {
    forall i :: 0 <= i < |groups| ==> groups[i] != []
  }

  function Joined(groups: seq<seq<string>>): (texts: seq<string>)
    ensures |texts| == |groups|
  {
    seq(|groups|, i requires 0 <= i < |groups| => Join(groups[i], '\n'))
  }

  /** Joining group by group joins all the lines. */
  lemma {:induction false} JoinFlat(groups: seq<seq<string>>)
    requires groups != [] && NoneEmpty(groups)
    ensures Flat(groups) != [] && Join(Joined(groups), '\n') == Join(Flat(groups), '\n')
  {
    if |groups| == 1 {
      assert Flat(groups) == groups[0] + [] == groups[0];
    } else {
      JoinFlat(groups[1..]);
      assert Joined(groups)[1..] == Joined(groups[1..]);
      JoinParts(groups[0], Flat(groups[1..]), '\n');
    }
  }

  lemma {:induction false} FlatHasNoBreak(groups: seq<seq<string>>)
    requires forall i :: 0 <= i < |groups| ==> NoBreaks(groups[i])
    ensures NoBreaks(Flat(groups))
  {
    if groups != [] {
      FlatHasNoBreak(groups[1..]);
    }
  }

  lemma {:induction false} FlatHolds(groups: seq<seq<string>>, i: nat, k: nat)
    requires i < |groups| && k < |groups[i]|
    ensures groups[i][k] in Flat(groups)
  {
    if i > 0 {
      FlatHolds(groups[1..], i - 1, k);
    }
  }

  lemma PiecesJoin(texts: seq<string>)
    ensures Joined(Pieces(texts)) == texts && NoneEmpty(Pieces(texts))
  {
    forall i | 0 <= i < |texts| ensures Joined(Pieces(texts))[i] == texts[i] {
      JoinSplit(texts[i], '\n');
    }
  }

  lemma PiecesOfJoined(groups: seq<seq<string>>)
    requires NoneEmpty(groups) && NoBreaks(Flat(groups))
    ensures Pieces(Joined(groups)) == groups
  {
    forall i | 0 <= i < |groups| ensures Split(Join(groups[i], '\n'), '\n') == groups[i] {
      forall k | 0 <= k < |groups[i]| ensures '\n' !in groups[i][k] {
        FlatHolds(groups, i, k);
      }
      SplitJoin(groups[i], '\n');
    }
  }

  /** The lines are those of the fields, one after another. */
  lemma LinesAreTheDivision(s: Statement)
    ensures Flat(DivisionOf(s)) == Lines(s)
  {
    var texts := Labelled(LABELS, Values(s));
    PiecesJoin(texts);
    JoinFlat(Pieces(texts));
    forall i | 0 <= i < |texts| ensures NoBreaks(Pieces(texts)[i]) {
    }
    FlatHasNoBreak(Pieces(texts));
    SplitJoin(Flat(Pieces(texts)), '\n');
  }

  lemma SameBytesSameLines(s: Statement, t: Statement)
    ensures Serialise(s) == Serialise(t) <==> Lines(s) == Lines(t)
  {
    var a, b := Labelled(LABELS, Values(s)), Labelled(LABELS, Values(t));
    JoinParts([HEADER], a, '\n');
    JoinParts([HEADER], b, '\n');
    JoinSplit(Join(a, '\n'), '\n');
    JoinSplit(Join(b, '\n'), '\n');
    SameTail(HEADER, Join(a, '\n'), Join(b, '\n'));
  }

  lemma SameTail(front: string, a: string, b: string)
    ensures front + ['\n'] + a + "\n" == front + ['\n'] + b + "\n" <==> a == b
  {
    var x, y := front + ['\n'] + a + "\n", front + ['\n'] + b + "\n";
    assert a == x[|front| + 1..|x| - 1] && b == y[|front| + 1..|y| - 1];
  }

  // ----- One line is one line -----------------------------------------------------------------------

  lemma {:induction false} NothingToCollapse(s: string)
    requires '\n' !in s && '\r' !in s
    ensures CollapseBreaks(s) == s
  {
    if s != "" {
      assert s == [s[0]] + s[1..];
      NothingToCollapse(s[1..]);
    }
  }

  lemma {:induction false} TrimmedStart(s: string)
    ensures TrimStart(s) == "" || !IsSpace(TrimStart(s)[0])
  {
    if s != "" && IsSpace(s[0]) {
      TrimmedStart(s[1..]);
    }
  }

  lemma {:induction false} TrimmedEnd(s: string)
    ensures TrimEnd(s) <= s
    ensures TrimEnd(s) == "" || !IsSpace(TrimEnd(s)[|TrimEnd(s)| - 1])
  {
    if s != "" && IsSpace(s[|s| - 1]) {
      TrimmedEnd(s[..|s| - 1]);
    }
  }

  /** Trimming what was trimmed changes nothing. */
  lemma OneLineTwice(value: string)
    ensures OneLine(OneLine(value)) == OneLine(value)
  {
    OneLineHasNoBreak(value);
    NothingToCollapse(OneLine(value));
    var started := TrimStart(CollapseBreaks(value));
    TrimmedStart(CollapseBreaks(value));
    TrimmedEnd(started);
    assert OneLine(value) == TrimEnd(started);
    assert OneLine(value) != "" ==> OneLine(value)[0] == started[0];
  }

  // ----- Statements and divisions -------------------------------------------------------------------

  function PurposeOf(key: string): Purpose {
    if key == "AUTHORSHIP" then Authorship
    else if key == "REVIEWED" then Reviewed
    else if key == "APPROVAL" then Approval
    else if key == "ACCEPTANCE" then Acceptance
    else Witness
  }

  /** A statement with these values. */
  function FromValues(v: seq<string>): Statement
    requires |v| == 12
  {
    Statement(v[0], v[1], Some(v[2]), v[3], v[4], v[5], v[6], v[7], v[8], PurposeOf(v[9]), Some(v[10]), v[11])
  }

  lemma FromValuesHasThem(v: seq<string>)
    requires |v| == 12 && forall i :: 0 <= i < 12 ==> Takes(i, v[i])
    ensures Values(FromValues(v)) == v
  {
    assert Takes(4, v[4]) && Takes(7, v[7]) && Takes(8, v[8]) && Takes(9, v[9]) && Takes(10, v[10]);
    assert PurposeKey(PurposeOf(v[9])) == v[9];
  }

  lemma ValuesAreTaken(s: Statement, i: nat)
    requires i < 12
    ensures Takes(i, Values(s)[i])
  {
    if i == 4 {
      OneLineTwice(s.revisionLabel);
    } else if i == 7 {
      OneLineTwice(s.signerName);
    } else if i == 8 {
      OneLineTwice(s.signerEmail);
    } else if i == 10 {
      OneLineTwice(OrEmpty(s.statement));
    }
  }

  /** A statement tells its own lines apart. */
  lemma StatementDivides(s: Statement)
    ensures Divides(Lines(s), DivisionOf(s))
  {
    LinesAreTheDivision(s);
    var texts := Labelled(LABELS, Values(s));
    forall i | 0 <= i < 12 ensures IsField(i, DivisionOf(s)[i]) {
      JoinSplit(texts[i], '\n');
      assert texts[i] == LABELS[i] + Values(s)[i];
      assert texts[i][|LABELS[i]|..] == Values(s)[i];
      ValuesAreTaken(s, i);
    }
  }

  /** The statement behind a division of lines. */
  lemma DivisionHasAStatement(lines: seq<string>, groups: seq<seq<string>>) returns (t: Statement)
    requires NoBreaks(lines) && Divides(lines, groups)
    ensures Lines(t) == lines && DivisionOf(t) == groups
  {
    var v := seq(12, i requires 0 <= i < 12 => ValueOf(groups, i));
    t := FromValues(v);
    forall i | 0 <= i < 12 ensures Takes(i, v[i]) {
      assert IsField(i, groups[i]);
    }
    FromValuesHasThem(v);
    var texts := Labelled(LABELS, v);
    forall i | 0 <= i < 12 ensures texts[i] == Joined(groups)[i] {
      assert IsField(i, groups[i]);
    }
    assert texts == Joined(groups);
    forall i | 0 <= i < |groups| ensures groups[i] != [] {
      assert IsField(i, groups[i]);
    }
    PiecesOfJoined(groups);
    LinesAreTheDivision(t);
  }

  function ValueOf(groups: seq<seq<string>>, i: nat): string
    requires i < 12 && |groups| == 12
  {
    var text := Join(groups[i], '\n');
    if |LABELS[i]| <= |text| then text[|LABELS[i]|..] else ""
  }

  lemma DivisionIsTheAttestation(s: Statement, t: Statement)
    ensures DivisionOf(s) == DivisionOf(t) <==> SameAttestation(s, t)
  {
    ValuesAreTheAttestation(s, t);
    var a, b := Labelled(LABELS, Values(s)), Labelled(LABELS, Values(t));
    PiecesJoin(a);
    PiecesJoin(b);
    if DivisionOf(s) == DivisionOf(t) {
      assert a == b;
      forall i | 0 <= i < 12 ensures Values(s)[i] == Values(t)[i] {
        assert a[i][|LABELS[i]|..] == Values(s)[i] && b[i][|LABELS[i]|..] == Values(t)[i];
      }
    }
  }

  /** The exact condition, on the lines of the one statement: some other statement, which attests something else, has
      its bytes exactly when the lines can be told apart into the twelve fields in another way. */
  lemma CollidesExactlyWhen(s: Statement)
    ensures (exists t :: Serialise(t) == Serialise(s) && !SameAttestation(s, t)) <==>
            (exists groups :: Divides(Lines(s), groups) && groups != DivisionOf(s))
  {
    if t :| Serialise(t) == Serialise(s) && !SameAttestation(s, t) {
      SameBytesSameLines(t, s);
      StatementDivides(t);
      DivisionIsTheAttestation(s, t);
      assert Divides(Lines(s), DivisionOf(t)) && DivisionOf(t) != DivisionOf(s);
    }
    if groups :| Divides(Lines(s), groups) && groups != DivisionOf(s) {
      var t := DivisionHasAStatement(Lines(s), groups);
      SameBytesSameLines(t, s);
      DivisionIsTheAttestation(s, t);
    }
  }

  // ----- Which field stands under which label ----------------------------------------------------------

  /** What follows a label on the first line that starts with it. */
  function FieldUnder(lines: seq<string>, tag: string): Option<string> {
    if lines == [] then None
    else if tag <= lines[0] then Some(lines[0][|tag|..])
    else FieldUnder(lines[1..], tag)
  }

  lemma {:induction false} FirstLineUnder(lines: seq<string>, tag: string, k: nat)
    requires k < |lines| && tag <= lines[k] && forall j :: 0 <= j < k ==> !(tag <= lines[j])
    ensures FieldUnder(lines, tag) == Some(lines[k][|tag|..])
  {
    if k > 0 {
      FirstLineUnder(lines[1..], tag, k - 1);
    }
  }

  /** A label ends at its only colon. */
  predicate IsLabel(tag: string) {
    tag != "" && tag[|tag| - 1] == ':' && ':' !in tag[..|tag| - 1]
  }

  /** A line starts with one label only: the one that ends at its first colon. */
  lemma LabelsDiffer(tag: string, other: string, value: string)
    requires IsLabel(tag) && IsLabel(other)
    ensures tag <= other + value ==> tag == other
  {
    var line := other + value;
    assert line[|other| - 1] == ':';
    forall i | 0 <= i < |other| - 1 ensures line[i] != ':' {
      assert line[i] == other[..|other| - 1][i];
    }
    forall i | 0 <= i < |tag| - 1 ensures tag[i] != ':' {
      assert tag[i] == tag[..|tag| - 1][i];
    }
    if tag <= line {
      assert tag == line[..|tag|] && line[|tag| - 1] == ':';
      assert |tag| == |other|;
    }
  }

  lemma LabelsAreLabels()
    ensures forall i :: 0 <= i < 12 ==> IsLabel(LABELS[i])
    ensures forall i, j :: 0 <= i < j < 12 ==> LABELS[i] != LABELS[j]
    ensures ':' !in HEADER
  {
  }

  lemma ValueUnderLabel(s: Statement, k: nat)
    requires Unbroken(s) && k < 12
    ensures FieldUnder(Split(Serialise(s), '\n'), LABELS[k]) == Some(Values(s)[k])
  {
    var texts := Labelled(LABELS, Values(s));
    var lines := [HEADER] + texts + [""];
    LinesOfAnUnbroken(s);
    LabelsAreLabels();
    assert lines[k + 1] == LABELS[k] + Values(s)[k];
    forall j | 0 <= j < k + 1 ensures !(LABELS[k] <= lines[j]) {
      if j > 0 {
        assert lines[j] == LABELS[j - 1] + Values(s)[j - 1];
        LabelsDiffer(LABELS[k], LABELS[j - 1], Values(s)[j - 1]);
      } else {
        HoldsNoColon(LABELS[k], HEADER);
      }
    }
    FirstLineUnder(lines, LABELS[k], k + 1);
    assert lines[k + 1][|LABELS[k]|..] == Values(s)[k];
  }

  lemma HoldsNoColon(tag: string, line: string)
    requires IsLabel(tag) && ':' !in line
    ensures !(tag <= line)
  {
    assert |tag| <= |line| ==> line[|tag| - 1] in line;
  }

  lemma LinesOfAnUnbroken(s: Statement)
    requires Unbroken(s)
    ensures Split(Serialise(s), '\n') == [HEADER] + Labelled(LABELS, Values(s)) + [""]
  {
    var lines := [HEADER] + Labelled(LABELS, Values(s));
    ValuesHaveNoBreak(s);
    LabelsHaveNoBreak();
    LinesHaveNoBreak(HEADER, LABELS, Values(s));
    SplitJoin(lines, '\n');
    SplitAppend(Join(lines, '\n'), "", '\n');
    assert Join(lines, '\n') + ['\n'] + "" == Serialise(s);
    assert Split("", '\n') == [""];
  }

  /** Every field is read back under its own label, and the header stands first. */
  lemma FieldsReadBack(s: Statement)
    requires Unbroken(s)
    ensures var lines := Split(Serialise(s), '\n');
            && lines[0] == "munaxa-docs-signature/v1"
            && FieldUnder(lines, "tenant:") == Some(s.tenantId)
            && FieldUnder(lines, "document:") == Some(s.documentId)
            && FieldUnder(lines, "number:") == Some(if s.documentNumber.Some? then s.documentNumber.value else "")
            && FieldUnder(lines, "revision:") == Some(s.revisionId)
            && FieldUnder(lines, "label:") == Some(OneLine(s.revisionLabel))
            && FieldUnder(lines, "content-sha256:") == Some(s.contentDigest)
            && FieldUnder(lines, "signer:") == Some(s.signerUserId)
            && FieldUnder(lines, "signer-name:") == Some(OneLine(s.signerName))
            && FieldUnder(lines, "signer-email:") == Some(OneLine(s.signerEmail))
            && FieldUnder(lines, "purpose:") == Some(
                 match s.purpose
                 case Authorship => "AUTHORSHIP"
                 case Reviewed => "REVIEWED"
                 case Approval => "APPROVAL"
                 case Acceptance => "ACCEPTANCE"
                 case Witness => "WITNESS")
            && FieldUnder(lines, "statement:") == Some(OneLine(if s.statement.Some? then s.statement.value else ""))
            && FieldUnder(lines, "signed-at:") == Some(s.signedAt)
  {
    LinesOfAnUnbroken(s);
    ValueUnderLabel(s, 0);
    ValueUnderLabel(s, 1);
    ValueUnderLabel(s, 2);
    ValueUnderLabel(s, 3);
    ValueUnderLabel(s, 4);
    ValueUnderLabel(s, 5);
    ValueUnderLabel(s, 6);
    ValueUnderLabel(s, 7);
    ValueUnderLabel(s, 8);
    ValueUnderLabel(s, 9);
    ValueUnderLabel(s, 10);
    ValueUnderLabel(s, 11);
  }
}
