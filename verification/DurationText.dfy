/** ISO 8601 durations of days and hours (packages/domain/src/duration.ts), and the contract's schema for
    them (packages/contracts/src/admin/workflow.ts). */
module DurationText {
  import opened Text
  import opened WorkingCalendar

  predicate IsDigit(c: char) {
    '0' <= c <= '9'
  }

  /** One to three digits. */
  predicate IsNumber(s: string) {
    1 <= |s| <= 3 && forall i :: 0 <= i < |s| ==> IsDigit(s[i])
  }

  function DigitValue(c: char): nat
    requires IsDigit(c)
  {
    c as int - '0' as int
  }

  function Number(s: string): nat
    requires forall i :: 0 <= i < |s| ==> IsDigit(s[i])
  {
    if s == "" then 0 else 10 * Number(s[..|s| - 1]) + DigitValue(s[|s| - 1])
  }

  /** `String(n)` */
  function Decimal(n: nat): (s: string)
    ensures |s| > 0 && forall i :: 0 <= i < |s| ==> IsDigit(s[i])
  {
    var digit := ('0' as int + n % 10) as char;
    if n < 10 then [digit] else Decimal(n / 10) + [digit]
  }

  // ----- The pattern, as a matcher ------------------------------------------------------------------

  function LeadingDigits(s: string): (k: nat)
    ensures k <= |s|
    ensures forall i :: 0 <= i < k ==> IsDigit(s[i])
    ensures k < |s| ==> !IsDigit(s[k])
  {
    if s != "" && IsDigit(s[0]) then 1 + LeadingDigits(s[1..]) else 0
  }

  /** One to three digits and a unit at the start of the text, and what follows. */
  function MatchNumber(s: string, unit: char): Option<(string, string)> {
    var k := LeadingDigits(s);
    if 1 <= k <= 3 && k < |s| && s[k] == unit then Some((s[..k], s[k + 1..])) else None
  }

  /** The two capture groups. */
  datatype Captures = Captures(days: Option<string>, hours: Option<string>)

  function MatchHours(s: string, days: Option<string>): Option<Captures> {
    if s == "" then Some(Captures(days, None))
    else if s[0] != 'T' then None
    else
      match MatchNumber(s[1..], 'H')
      case Some((hours, rest)) => if rest == "" then Some(Captures(days, Some(hours))) else None
      case None => if s[1..] == "" then Some(Captures(days, None)) else None
  }

  function Match(raw: string): Option<Captures> {
    if raw == "" || raw[0] != 'P' then None
    else
      match MatchNumber(raw[1..], 'D')
      case Some((days, rest)) => MatchHours(rest, Some(days))
      case None => MatchHours(raw[1..], None)
  }

  // ----- The pattern, as a language -----------------------------------------------------------------

  predicate IsCapture(n: Option<string>) {
    n.Some? ==> IsNumber(n.value)
  }

  function Part(n: Option<string>, unit: char): string {
    if n.Some? then n.value + [unit] else ""
  }

  /** A P, perhaps a number of days, perhaps a T and perhaps a number of hours after it. */
  function Render(c: Captures, separator: bool): string {
    "P" + (Part(c.days, 'D') + if separator then "T" + Part(c.hours, 'H') else "")
  }

  predicate Writes(raw: string, c: Captures, separator: bool) {
    IsCapture(c.days) && IsCapture(c.hours) && (c.hours.Some? ==> separator) && raw == Render(c, separator)
  }

  lemma {:induction false} LeadingDigitsOf(n: string, rest: string)
    requires forall i :: 0 <= i < |n| ==> IsDigit(n[i])
    requires rest == "" || !IsDigit(rest[0])
    ensures LeadingDigits(n + rest) == |n|
  {
    if n == "" {
      assert n + rest == rest;
    } else {
      LeadingDigitsOf(n[1..], rest);
      assert (n + rest)[1..] == n[1..] + rest;
    }
  }

  lemma NumberMatches(n: string, unit: char, rest: string)
    requires IsNumber(n) && !IsDigit(unit)
    ensures MatchNumber(n + [unit] + rest, unit) == Some((n, rest))
  {
    var s := n + ([unit] + rest);
    assert n + [unit] + rest == s;
    LeadingDigitsOf(n, [unit] + rest);
    assert s[..|n|] == n && s[|n| + 1..] == rest;
  }

  lemma MatchedNumber(s: string, unit: char)
    requires MatchNumber(s, unit).Some?
    ensures var (n, rest) := MatchNumber(s, unit).value; IsNumber(n) && s == n + [unit] + rest
  {
    var k := LeadingDigits(s);
    assert s == s[..k] + [s[k]] + s[k + 1..];
  }

  lemma NoNumberBefore(s: string, unit: char)
    requires s == "" || !IsDigit(s[0])
    ensures MatchNumber(s, unit) == None
  {
  }

  function HoursPart(c: Captures, separator: bool): string {
    if separator then "T" + Part(c.hours, 'H') else ""
  }

  lemma HoursMatch(c: Captures, separator: bool)
    requires IsCapture(c.hours) && (c.hours.Some? ==> separator)
    ensures MatchHours(HoursPart(c, separator), c.days) == Some(c)
  {
    if separator {
      var s := HoursPart(c, separator);
      assert s[1..] == Part(c.hours, 'H');
      if c.hours.Some? {
        NumberMatches(c.hours.value, 'H', "");
        assert c.hours.value + ['H'] + "" == s[1..];
      } else {
        NoNumberBefore(s[1..], 'H');
      }
    }
  }

  /** Every text of the language is matched, with its own captures. */
  lemma LanguageMatches(raw: string, c: Captures, separator: bool)
    requires Writes(raw, c, separator)
    ensures Match(raw) == Some(c)
  {
    var tail := HoursPart(c, separator);
    HoursMatch(c, separator);
    assert raw[1..] == Part(c.days, 'D') + tail;
    if c.days.Some? {
      assert raw[1..] == c.days.value + ['D'] + tail;
      NumberMatches(c.days.value, 'D', tail);
    } else {
      assert raw[1..] == tail;
      NoNumberBefore(tail, 'D');
    }
  }

  lemma MatchedHours(s: string, days: Option<string>) returns (separator: bool)
    requires MatchHours(s, days).Some?
    ensures var c := MatchHours(s, days).value;
            c.days == days && IsCapture(c.hours) && (c.hours.Some? ==> separator) && s == HoursPart(c, separator)
  {
    separator := s != "";
    if s != "" {
      assert s == "T" + s[1..];
      if MatchNumber(s[1..], 'H').Some? {
        MatchedNumber(s[1..], 'H');
      }
    }
  }

  /** Every match is a text of the language. */
  lemma MatchesLanguage(raw: string) returns (separator: bool)
    requires Match(raw).Some?
    ensures Writes(raw, Match(raw).value, separator)
  {
    assert raw == "P" + raw[1..];
    if MatchNumber(raw[1..], 'D').Some? {
      MatchedNumber(raw[1..], 'D');
      var (days, rest) := MatchNumber(raw[1..], 'D').value;
      separator := MatchedHours(rest, Some(days));
      assert raw[1..] == Part(Some(days), 'D') + rest;
    } else {
      separator := MatchedHours(raw[1..], None);
      assert raw[1..] == "" + raw[1..];
    }
  }

  // ----- Parsing and printing -------------------------------------------------------------------------

  function CapturedValue(n: Option<string>): nat
    requires IsCapture(n)
  {
    if n.Some? then Number(n.value) else 0
  }

  lemma CapturesAreNumbers(raw: string)
    requires Match(raw).Some?
    ensures IsCapture(Match(raw).value.days) && IsCapture(Match(raw).value.hours)
  {
    var separator := MatchesLanguage(raw);
  }

  function ParseDuration(raw: string): Option<Duration> {
    match Match(raw)
    case None => None
    case Some(c) =>
      CapturesAreNumbers(raw);
      var days, hours := CapturedValue(c.days), CapturedValue(c.hours);
      if days == 0 && hours == 0 then None else Some(Duration(days, hours))
  }

  function FormatDuration(d: Duration): string {
    var days := if d.days > 0 then Decimal(d.days) + "D" else "";
    var hours := if d.hours > 0 then "T" + Decimal(d.hours) + "H" else "";
    "P" + days + hours
  }

  /** `durationSchema`: the pattern, and neither of the two texts that name nothing at all. */
  predicate SchemaAccepts(raw: string) {
    Match(raw).Some? && raw != "P" && raw != "PT"
  }

  /** What a text in the language adds up to. */
  function Total(raw: string): nat
    requires Match(raw).Some?
  {
    CapturesAreNumbers(raw);
    CapturedValue(Match(raw).value.days) + CapturedValue(Match(raw).value.hours)
  }

  function NotZero(d: Duration): Option<Duration> {
    if d.days == 0 && d.hours == 0 then None else Some(d)
  }

  /** The number before the D is days, the number before the H hours; and no duration is zero. */
  lemma DaysThenHours(n: string, m: string)
    requires IsNumber(n) && IsNumber(m)
    ensures ParseDuration("P" + n + "D") == NotZero(Duration(Number(n), 0))
    ensures ParseDuration("PT" + m + "H") == NotZero(Duration(0, Number(m)))
    ensures ParseDuration("P" + n + "DT" + m + "H") == NotZero(Duration(Number(n), Number(m)))
  {
    var days, hours, both := Captures(Some(n), None), Captures(None, Some(m)), Captures(Some(n), Some(m));
    assert Render(days, false) == "P" + n + "D";
    assert Render(hours, true) == "PT" + m + "H";
    assert Render(both, true) == "P" + n + "DT" + m + "H";
    LanguageMatches(Render(days, false), days, false);
    LanguageMatches(Render(hours, true), hours, true);
    LanguageMatches(Render(both, true), both, true);
  }

  /** Numbers are decimal. */
  lemma NumbersAreDecimal(tens: char, ones: char)
    requires IsDigit(tens) && IsDigit(ones)
    ensures Number([tens, ones]) == 10 * (tens as int - '0' as int) + (ones as int - '0' as int)
  {
    assert [tens][..0] == "" && Number("") == 0;
    assert Number([tens]) == DigitValue(tens);
    assert [tens, ones][..1] == [tens];
  }

  /** A duration is parsed exactly when the schema accepts it and it is not zero. */
  lemma ParsesWhatTheSchemaAccepts(raw: string)
    ensures ParseDuration(raw).Some? <==> SchemaAccepts(raw) && Total(raw) != 0
  {
    if raw == "P" {
      NoNumberBefore(raw[1..], 'D');
    }
    if raw == "PT" {
      assert raw[1..] == "T" && raw[1..][1..] == "";
      NoNumberBefore("T", 'D');
      NoNumberBefore("", 'H');
    }
  }

  /** The schema lets a zero through that the parser refuses. */
  lemma SchemaAcceptsZero()
    ensures SchemaAccepts("P0D") && ParseDuration("P0D") == None
  {
    LanguageMatches("P0D", Captures(Some("0"), None), false);
    assert "0"[..0] == "";
  }

  lemma {:induction false} DecimalReadsBack(n: nat)
    ensures Number(Decimal(n)) == n
  {
    var s := Decimal(n);
    if n >= 10 {
      DecimalReadsBack(n / 10);
      assert s[..|s| - 1] == Decimal(n / 10);
    } else {
      assert s[..|s| - 1] == "";
    }
  }

  lemma DecimalLength(n: nat)
    ensures |Decimal(n)| <= 3 <==> n <= 999
  {
    assert n < 10 ==> |Decimal(n)| == 1;
    assert 10 <= n < 100 ==> |Decimal(n)| == 1 + |Decimal(n / 10)|;
    if n >= 100 {
      assert |Decimal(n)| == 2 + |Decimal(n / 10 / 10)|;
      assert n / 10 / 10 == n / 100;
    }
  }

  /** The captures a printed duration has. */
  function CapturesOf(d: Duration): Captures {
    Captures(if d.days > 0 then Some(Decimal(d.days)) else None, if d.hours > 0 then Some(Decimal(d.hours)) else None)
  }

  lemma FormatIsRender(d: Duration)
    ensures FormatDuration(d) == Render(CapturesOf(d), d.hours > 0)
  {
  }

  /** The texts the pattern can match hold no number of more than three digits. */
  predicate Fits(d: Duration) {
    d.days <= 999 && d.hours <= 999
  }

  lemma FormattedMatches(d: Duration)
    requires Fits(d)
    ensures Match(FormatDuration(d)) == Some(CapturesOf(d))
  {
    FormatIsRender(d);
    DecimalLength(d.days);
    DecimalLength(d.hours);
    LanguageMatches(FormatDuration(d), CapturesOf(d), d.hours > 0);
  }

  lemma TooLongDoesNotMatch(n: string, unit: char, rest: string)
    requires |n| > 3 && !IsDigit(unit) && forall i :: 0 <= i < |n| ==> IsDigit(n[i])
    ensures MatchNumber(n + ([unit] + rest), unit) == None
  {
    LeadingDigitsOf(n, [unit] + rest);
  }

  /** More than three digits of days, or of hours, and the printed text is outside the language. */
  lemma UnfitDoesNotMatch(d: Duration)
    requires !Fits(d)
    ensures Match(FormatDuration(d)) == None
  {
    DecimalLength(d.days);
    DecimalLength(d.hours);
    var c := CapturesOf(d);
    var tail := HoursPart(c, d.hours > 0);
    FormatIsRender(d);
    var raw := FormatDuration(d);
    assert raw[1..] == Part(c.days, 'D') + tail;
    if d.days > 999 {
      assert raw[1..] == Decimal(d.days) + (['D'] + tail);
      TooLongDoesNotMatch(Decimal(d.days), 'D', tail);
    } else {
      assert tail[1..] == Decimal(d.hours) + (['H'] + "");
      TooLongDoesNotMatch(Decimal(d.hours), 'H', "");
      if d.days > 0 {
        NumberMatches(Decimal(d.days), 'D', tail);
        assert raw[1..] == Decimal(d.days) + ['D'] + tail;
      } else {
        assert raw[1..] == tail;
        NoNumberBefore(tail, 'D');
      }
    }
  }

  /** Printing and parsing is the identity exactly on durations that are not zero and whose numbers have
      at most three digits. */
  lemma RoundTrip(d: Duration)
    ensures ParseDuration(FormatDuration(d)) == Some(d) <==> Fits(d) && (d.days > 0 || d.hours > 0)
  {
    if Fits(d) {
      FormattedMatches(d);
      DecimalReadsBack(d.days);
      DecimalReadsBack(d.hours);
    } else {
      UnfitDoesNotMatch(d);
    }
  }

  lemma {:induction false} NumberBelow(s: string)
    requires IsNumber(s)
    ensures Number(s) <= 999
  {
    var front := s[..|s| - 1];
    if |front| > 0 {
      var first := front[..|front| - 1];
      assert |first| > 0 ==> first[..|first| - 1] == "";
      assert Number(first) <= 9;
      assert Number(front) <= 99;
    }
  }

  /** Printing what was parsed gives a text that parses to the same duration. */
  lemma PrintedParsesTheSame(raw: string)
    requires ParseDuration(raw).Some?
    ensures ParseDuration(FormatDuration(ParseDuration(raw).value)) == ParseDuration(raw)
  {
    ParsedFits(raw);
    RoundTrip(ParseDuration(raw).value);
  }

  lemma ParsedFits(raw: string)
    requires ParseDuration(raw).Some?
    ensures Fits(ParseDuration(raw).value)
  {
    CapturesAreNumbers(raw);
    var c := Match(raw).value;
    if c.days.Some? {
      NumberBelow(c.days.value);
    }
    if c.hours.Some? {
      NumberBelow(c.hours.value);
    }
  }

  // ----- The texts printing gives back ------------------------------------------------------------------

  /** A number in the text starts with a zero. */
  predicate LeadingZero(s: string) {
    exists i :: 0 <= i < |s| && ZeroAt(s, i)
  }

  predicate ZeroAt(s: string, i: nat)
    requires i < |s|
  {
    s[i] == '0' && (i == 0 || !IsDigit(s[i - 1]))
  }

  lemma ZeroInParts(s: string, t: string)
    requires s != "" && !IsDigit(s[|s| - 1])
    ensures LeadingZero(s + t) <==> LeadingZero(s) || LeadingZero(t)
  {
    if i :| 0 <= i < |s| && ZeroAt(s, i) {
      assert ZeroAt(s + t, i);
    }
    if i :| 0 <= i < |t| && ZeroAt(t, i) {
      assert ZeroAt(s + t, |s| + i);
    }
    if i :| 0 <= i < |s + t| && ZeroAt(s + t, i) {
      assert if i < |s| then ZeroAt(s, i) else ZeroAt(t, i - |s|);
    }
  }

  lemma ZeroInNumber(n: string, unit: char)
    requires IsNumber(n) && !IsDigit(unit)
    ensures LeadingZero(n + [unit]) <==> n[0] == '0'
  {
    if n[0] == '0' {
      assert ZeroAt(n + [unit], 0);
    }
  }

  /** A captured number, if any, starts with another digit than zero. */
  predicate StartsPlain(n: Option<string>)
    requires IsCapture(n)
  {
    n.Some? ==> n.value[0] != '0'
  }

  lemma ZeroInPart(front: string, n: Option<string>, unit: char)
    requires IsCapture(n) && !IsDigit(unit) && front != "" && !IsDigit(front[|front| - 1])
    ensures LeadingZero(front + Part(n, unit)) <==> LeadingZero(front) || !StartsPlain(n)
  {
    if n.Some? {
      ZeroInNumber(n.value, unit);
    }
    assert !LeadingZero("");
    ZeroInParts(front, Part(n, unit));
  }

  lemma ZeroInText(c: Captures, separator: bool)
    requires IsCapture(c.days) && IsCapture(c.hours) && (c.hours.Some? ==> separator)
    ensures LeadingZero(Render(c, separator)) <==> !StartsPlain(c.days) || !StartsPlain(c.hours)
  {
    var front := "P" + Part(c.days, 'D');
    ZeroInPart("P", c.days, 'D');
    assert !LeadingZero("P") && !LeadingZero("T");
    if separator {
      ZeroInPart("T", c.hours, 'H');
      ZeroInParts(front, "T" + Part(c.hours, 'H'));
      assert Render(c, separator) == front + ("T" + Part(c.hours, 'H'));
    } else {
      assert Render(c, separator) == front;
    }
  }

  /** A number that does not start with a zero is what printing its value gives. */
  lemma {:induction false} PlainNumberPrintsBack(n: string)
    requires n != "" && (forall i :: 0 <= i < |n| ==> IsDigit(n[i])) && n[0] != '0'
    ensures Number(n) > 0 && Decimal(Number(n)) == n
  {
    var front, last := n[..|n| - 1], n[|n| - 1];
    assert n == front + [last];
    if front == "" {
      assert Number(front) == 0;
      OneDigitPrintsBack(last);
    } else {
      PlainNumberPrintsBack(front);
      DigitBehindPrints(Number(front), last);
    }
  }

  lemma OneDigitPrintsBack(c: char)
    requires IsDigit(c)
    ensures Decimal(DigitValue(c)) == [c]
  {
  }

  lemma DigitBehindPrints(k: nat, c: char)
    requires k > 0 && IsDigit(c)
    ensures Decimal(10 * k + DigitValue(c)) == Decimal(k) + [c]
  {
    var n := 10 * k + DigitValue(c);
    assert n / 10 == k && n % 10 == DigitValue(c);
  }

  lemma {:induction false} PrintedStartsPlain(k: nat)
    ensures Decimal(k)[0] == '0' <==> k == 0
  {
    if k >= 10 {
      PrintedStartsPlain(k / 10);
    }
  }

  lemma PlainCapturePrintsBack(n: Option<string>)
    requires IsCapture(n)
    ensures StartsPlain(n) <==> n == if CapturedValue(n) > 0 then Some(Decimal(CapturedValue(n))) else None
  {
    if n.Some? {
      if StartsPlain(n) {
        PlainNumberPrintsBack(n.value);
      } else {
        PrintedStartsPlain(CapturedValue(n));
      }
    }
  }

  /** Printing gives back exactly the texts in which no number starts with a zero and no `T` stands last: the
      canonical ones. */
  lemma PrintingGivesBack(raw: string)
    requires ParseDuration(raw).Some?
    ensures FormatDuration(ParseDuration(raw).value) == raw
       <==> !LeadingZero(raw) && raw[|raw| - 1] != 'T'
  {
    var d := ParseDuration(raw).value;
    if FormatDuration(d) == raw {
      ParsedFits(raw);
      PrintedIsCanonical(d);
      PrintedEndsInAUnit(d);
    }
    if !LeadingZero(raw) && raw[|raw| - 1] != 'T' {
      var separator := MatchesLanguage(raw);
      CanonicalPrintsBack(raw, Match(raw).value, separator, d);
    }
  }

  lemma CanonicalPrintsBack(raw: string, c: Captures, separator: bool, d: Duration)
    requires Writes(raw, c, separator) && d.days == CapturedValue(c.days) && d.hours == CapturedValue(c.hours)
    requires !LeadingZero(raw) && raw[|raw| - 1] != 'T'
    ensures FormatDuration(d) == raw
  {
    ZeroInText(c, separator);
    PlainCapturePrintsBack(c.days);
    PlainCapturePrintsBack(c.hours);
    FormatIsRender(d);
    if separator {
      LastOfText(c);
    }
  }

  lemma LastOfText(c: Captures)
    ensures var s := Render(c, true); s[|s| - 1] == if c.hours.Some? then 'H' else 'T'
  {
  }

  lemma PrintedEndsInAUnit(d: Duration)
    requires d.days > 0 || d.hours > 0
    ensures var s := FormatDuration(d); s != "" && (s[|s| - 1] == 'D' || s[|s| - 1] == 'H')
  {
  }

  lemma PrintedIsCanonical(d: Duration)
    requires Fits(d)
    ensures !LeadingZero(FormatDuration(d))
  {
    FormatIsRender(d);
    DecimalLength(d.days);
    DecimalLength(d.hours);
    PrintedStartsPlain(d.days);
    PrintedStartsPlain(d.hours);
    ZeroInText(CapturesOf(d), d.hours > 0);
  }

  /** So what is printed is the canonical text of its duration, and printing again changes nothing. */
  lemma PrintingIsCanonical(raw: string)
    requires ParseDuration(raw).Some?
    ensures var canonical := FormatDuration(ParseDuration(raw).value);
            && ParseDuration(canonical) == ParseDuration(raw)
            && FormatDuration(ParseDuration(canonical).value) == canonical
            && !LeadingZero(canonical) && canonical[|canonical| - 1] != 'T'
  {
    PrintedParsesTheSame(raw);
    PrintingGivesBack(FormatDuration(ParseDuration(raw).value));
  }

  /** `P03D` and `P3DT` are two texts of three days; printing gives back neither. */
  lemma NotEveryTextIsCanonical()
    ensures ParseDuration("P03D") == Some(Duration(3, 0)) == ParseDuration("P3DT")
    ensures FormatDuration(Duration(3, 0)) == "P3D"
  {
    ThreeInDigits();
    WritesThreeDays("P03D", "03", false);
    WritesThreeDays("P3DT", "3", true);
    OneDigitPrintsBack('3');
  }

  lemma WritesThreeDays(raw: string, n: string, separator: bool)
    requires IsNumber(n) && Number(n) == 3 && raw == "P" + (n + "D" + if separator then "T" else "")
    ensures ParseDuration(raw) == Some(Duration(3, 0))
  {
    ParsesAsWritten(raw, Captures(Some(n), None), separator);
  }

  lemma ParsesAsWritten(raw: string, c: Captures, separator: bool)
    requires Writes(raw, c, separator) && CapturedValue(c.days) + CapturedValue(c.hours) > 0
    ensures ParseDuration(raw) == Some(Duration(CapturedValue(c.days), CapturedValue(c.hours)))
  {
    LanguageMatches(raw, c, separator);
  }

  lemma ThreeInDigits()
    ensures Number("03") == Number("3") == 3
  {
    assert "03"[..1] == "0" && "0"[..0] == "" && "3"[..0] == "";
    assert Number("0") == 0;
  }
}
