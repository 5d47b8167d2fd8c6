/** Trimming, as JavaScript does it. */
module Whitespace {

  /** The white space and line terminators `trim` removes. */
  predicate IsSpace(c: char) {
    || c == ' ' || c == '\t' || c == '\n' || c == '\U{000B}' || c == '\U{000C}' || c == '\r'
    || c == '\U{00A0}' || c == '\U{1680}' || '\U{2000}' <= c <= '\U{200A}'
    || c == '\U{2028}' || c == '\U{2029}' || c == '\U{202F}' || c == '\U{205F}' || c == '\U{3000}'
    || c == '\U{FEFF}'
  }

  /** In numbers: five controls, the blanks of category Zs, the two line separators and the byte order mark
      (sections 12.2 and 12.3 of ECMA-262). */
  lemma SpacesAreThese(c: char)
    ensures IsSpace(c) <==>
            var n := c as int;
            || 9 <= n <= 13 || n in {32, 160, 5760, 8239, 8287, 12288} || 8192 <= n <= 8202
            || n in {8232, 8233, 65279}
  {
  }

  function TrimStart(s: string): string {
    if s != "" && IsSpace(s[0]) then TrimStart(s[1..]) else s
  }

  function TrimEnd(s: string): string {
    if s != "" && IsSpace(s[|s| - 1]) then TrimEnd(s[..|s| - 1]) else s
  }

  function Trim(s: string): string {
    TrimEnd(TrimStart(s))
  }

  /** Trimming takes characters away and brings none in. */
  lemma {:induction false} TrimStartKeeps(s: string, c: char)
    ensures c in TrimStart(s) ==> c in s
  {
    if s != "" && IsSpace(s[0]) {
      TrimStartKeeps(s[1..], c);
    }
  }

  lemma {:induction false} TrimEndKeeps(s: string, c: char)
    ensures c in TrimEnd(s) ==> c in s
  {
    if s != "" && IsSpace(s[|s| - 1]) {
      TrimEndKeeps(s[..|s| - 1], c);
    }
  }

  lemma TrimKeeps(s: string, c: char)
    ensures c in Trim(s) ==> c in s
  {
    TrimStartKeeps(s, c);
    TrimEndKeeps(TrimStart(s), c);
  }

  predicate IsBlank(s: string) {
    forall i :: 0 <= i < |s| ==> IsSpace(s[i])
  }

  /** No white space at either end. */
  predicate IsTight(s: string) {
    s == "" || (!IsSpace(s[0]) && !IsSpace(s[|s| - 1]))
  }

  lemma BlanksTogether(a: string, b: string)
    requires IsBlank(a) && IsBlank(b)
    ensures IsBlank(a + b)
  {
    forall i | 0 <= i < |a + b| ensures IsSpace((a + b)[i]) {
      assert (a + b)[i] == if i < |a| then a[i] else b[i - |a|];
    }
  }

  lemma {:induction false} StartIsTakenOff(s: string) returns (front: string)
    ensures IsBlank(front) && s == front + TrimStart(s)
    ensures TrimStart(s) == "" || !IsSpace(TrimStart(s)[0])
  {
    if s != "" && IsSpace(s[0]) {
      var rest := StartIsTakenOff(s[1..]);
      front := [s[0]] + rest;
      BlanksTogether([s[0]], rest);
      assert s == [s[0]] + s[1..] == [s[0]] + (rest + TrimStart(s));
    } else {
      front := "";
    }
  }

  lemma {:induction false} EndIsTakenOff(s: string) returns (back: string)
    ensures IsBlank(back) && s == TrimEnd(s) + back
    ensures TrimEnd(s) == "" || !IsSpace(TrimEnd(s)[|TrimEnd(s)| - 1])
  {
    if s != "" && IsSpace(s[|s| - 1]) {
      var last := |s| - 1;
      var rest := EndIsTakenOff(s[..last]);
      back := rest + [s[last]];
      BlanksTogether(rest, [s[last]]);
      assert s == s[..last] + [s[last]] == (TrimEnd(s) + rest) + [s[last]];
    } else {
      back := "";
    }
  }

  /** Trimming takes white space off both ends, all of it and nothing else. */
  lemma TrimIsTheMiddle(s: string) returns (front: string, back: string)
    ensures IsBlank(front) && IsBlank(back) && s == front + Trim(s) + back && IsTight(Trim(s))
  {
    front := StartIsTakenOff(s);
    back := EndIsTakenOff(TrimStart(s));
    if Trim(s) != "" {
      assert Trim(s)[0] == TrimStart(s)[0];
    }
  }

  lemma {:induction false} StartPassesBlanks(front: string, s: string)
    requires IsBlank(front)
    ensures TrimStart(front + s) == TrimStart(s)
  {
    if front == "" {
      assert front + s == s;
    } else {
      assert (front + s)[0] == front[0] && (front + s)[1..] == front[1..] + s;
      StartPassesBlanks(front[1..], s);
    }
  }

  lemma {:induction false} EndPassesBlanks(s: string, back: string)
    requires IsBlank(back)
    ensures TrimEnd(s + back) == TrimEnd(s)
    decreases |back|
  {
    if back == "" {
      assert s + back == s;
    } else {
      var last := |back| - 1;
      assert (s + back)[..|s| + last] == s + back[..last] && (s + back)[|s| + last] == back[last];
      EndPassesBlanks(s, back[..last]);
    }
  }

  /** And so whatever white space a text is wrapped in comes off again. */
  lemma TrimUnwraps(front: string, s: string, back: string)
    requires IsBlank(front) && IsBlank(back) && IsTight(s)
    ensures Trim(front + s + back) == s
  {
    assert front + s + back == front + (s + back);
    StartPassesBlanks(front, s + back);
    if s == "" {
      assert s + back == back && back + "" == back;
      StartPassesBlanks(back, "");
    } else {
      assert (s + back)[0] == s[0];
      EndPassesBlanks(s, back);
    }
  }
}
