/** UUID version 7 (packages/utils/src/uuid.ts, section 5.7 of RFC 9562): a timestamp laid over random
    bytes, printed as text that sorts by time. */
module Uuid {
  import opened Text

  type Byte = b: int | 0 <= b < 256

  // ----- Hexadecimal ----------------------------------------------------------------------------

  const DIGITS := "0123456789abcdef"

  function Digit(d: nat): char
    requires d < 16
  {
    DIGITS[d]
  }

  /** `toString('hex')`: two digits a byte. */
  function Hex(bytes: seq<Byte>): (s: string)
    ensures |s| == 2 * |bytes|
  {
    if bytes == [] then ""
    else
      var last := bytes[|bytes| - 1];
      Hex(bytes[..|bytes| - 1]) + [Digit(last / 16), Digit(last % 16)]
  }

  function ValueOf(c: char): nat {
    if '0' <= c <= '9' then c as int - '0' as int
    else if 'a' <= c <= 'f' then c as int - 'a' as int + 10
    else 0
  }

  /** Reading hexadecimal digits as a number. */
  function Number(s: string): nat {
    if s == "" then 0 else 16 * Number(s[..|s| - 1]) + ValueOf(s[|s| - 1])
  }

  // ----- The identifier -------------------------------------------------------------------------

  /** The lowest `n` bytes of a number, most significant first. */
  function BigEndian(t: int, n: nat): (b: seq<Byte>)
    ensures |b| == n
    decreases n
  {
    if n == 0 then [] else BigEndian(t / 0x100, n - 1) + [t % 0x100]
  }

  /** The sixteen bytes: 48 bits of time, the version, the variant, and what was drawn at random. */
  function Layout(now: int, random: seq<Byte>): (b: seq<Byte>)
    requires |random| == 16
    ensures |b| == 16
  {
    BigEndian(now, 6) + [0x70 + random[6] % 0x10, random[7], 0x80 + random[8] % 0x40] + random[9..]
  }

  /** Thirty-two digits in groups of eight, four, four, four and twelve. */
  function Grouped(hex: string): (s: string)
    requires |hex| == 32
    ensures |s| == 36
  {
    hex[..8] + "-" + hex[8..12] + "-" + hex[12..16] + "-" + hex[16..20] + "-" + hex[20..]
  }

  function Uuid(now: int, random: seq<Byte>): (s: string)
    requires |random| == 16
    ensures |s| == 36
  {
    Grouped(Hex(Layout(now, random)))
  }

  /** `timestamp >> bits` for the shifts the source takes, a byte at a time. */
  lemma ShiftsByBytes(t: int)
    ensures t / 0x1_0000 == t / 0x100 / 0x100
    ensures t / 0x100_0000 == t / 0x1_0000 / 0x100
    ensures t / 0x1_0000_0000 == t / 0x100_0000 / 0x100
    ensures t / 0x100_0000_0000 == t / 0x1_0000_0000 / 0x100
  {
  }

  lemma SixBytes(t: int)
    ensures BigEndian(t, 6)
         == [t / 0x100_0000_0000 % 0x100, t / 0x1_0000_0000 % 0x100, t / 0x100_0000 % 0x100,
             t / 0x1_0000 % 0x100, t / 0x100 % 0x100, t % 0x100]
  {
    ShiftsByBytes(t);
    var t1, t2, t3 := t / 0x100, t / 0x1_0000, t / 0x100_0000;
    var t4, t5 := t / 0x1_0000_0000, t / 0x100_0000_0000;
    assert BigEndian(t5, 1) == [t5 % 0x100];
    assert BigEndian(t4, 2) == [t5 % 0x100, t4 % 0x100];
    assert BigEndian(t3, 3) == [t5 % 0x100, t4 % 0x100, t3 % 0x100];
    assert BigEndian(t2, 4) == [t5 % 0x100, t4 % 0x100, t3 % 0x100, t2 % 0x100];
    assert BigEndian(t1, 5) == [t5 % 0x100, t4 % 0x100, t3 % 0x100, t2 % 0x100, t1 % 0x100];
  }

  /** The source's own steps: overwrite the buffer in place, then print it. Bitwise and with a mask of
      low bits is a remainder, and a shift is a division. */
  method Uuidv7(now: int, bytes: array<Byte>) returns (s: string)
    requires bytes.Length == 16
    modifies bytes
    ensures bytes[..] == Layout(now, old(bytes[..]))
    ensures s == Uuid(now, old(bytes[..]))
  {
    SixBytes(now);
    bytes[0] := now / 0x100_0000_0000 % 0x100;
    bytes[1] := now / 0x1_0000_0000 % 0x100;
    bytes[2] := now / 0x100_0000 % 0x100;
    bytes[3] := now / 0x1_0000 % 0x100;
    bytes[4] := now / 0x100 % 0x100;
    bytes[5] := now % 0x100;
    bytes[6] := 0x70 + bytes[6] % 0x10;
    bytes[8] := 0x80 + bytes[8] % 0x40;
    assert bytes[..] == Layout(now, old(bytes[..]));
    s := Grouped(Hex(bytes[..]));
  }

  predicate IsHex(c: char) {
    '0' <= c <= '9' || 'a' <= c <= 'f' || 'A' <= c <= 'F'
  }

  predicate IsDash(i: nat) {
    i == 8 || i == 13 || i == 18 || i == 23
  }

  /** The pattern: digits and dashes in their places, a version from one to eight, the variant's digit. */
  predicate IsUuid(s: string) {
    && |s| == 36
    && (forall i :: 0 <= i < 36 ==> if IsDash(i) then s[i] == '-' else IsHex(s[i]))
    && '1' <= s[14] <= '8'
    && (s[19] == '8' || s[19] == '9' || s[19] == 'a' || s[19] == 'b' || s[19] == 'A' || s[19] == 'B')
  }

  // ----- The text is well formed ------------------------------------------------------------------

  lemma {:induction false} HexIsHex(bytes: seq<Byte>)
    ensures forall k :: 0 <= k < |Hex(bytes)| ==> IsHex(Hex(bytes)[k])
  {
    if bytes != [] {
      HexIsHex(bytes[..|bytes| - 1]);
    }
  }

  lemma {:induction false} HexOfPrefix(bytes: seq<Byte>, k: nat)
    requires k <= |bytes|
    ensures Hex(bytes)[..2 * k] == Hex(bytes[..k])
    decreases |bytes|
  {
    if k < |bytes| {
      var front := bytes[..|bytes| - 1];
      HexOfPrefix(front, k);
      assert front[..k] == bytes[..k];
      assert Hex(bytes)[..2 * k] == Hex(front)[..2 * k];
    } else {
      assert bytes[..k] == bytes;
    }
  }

  lemma HexOfOneMore(front: seq<Byte>, byte: Byte)
    ensures Hex(front + [byte]) == Hex(front) + [Digit(byte / 16), Digit(byte % 16)]
  {
    var bytes := front + [byte];
    assert bytes[..|front|] == front && bytes[|front|] == byte;
  }

  /** The upper digit of a byte stands at twice its index. */
  lemma {:induction false} UpperDigit(bytes: seq<Byte>, k: nat)
    requires k < |bytes|
    ensures Hex(bytes)[2 * k] == Digit(bytes[k] / 16)
  {
    var front, last := bytes[..|bytes| - 1], bytes[|bytes| - 1];
    if k < |front| {
      UpperDigit(front, k);
    }
    assert Hex(bytes) == Hex(front) + [Digit(last / 16), Digit(last % 16)];
  }

  lemma GroupedShape(hex: string)
    requires |hex| == 32 && forall k :: 0 <= k < 32 ==> IsHex(hex[k])
    ensures forall i :: 0 <= i < 36 ==> if IsDash(i) then Grouped(hex)[i] == '-' else IsHex(Grouped(hex)[i])
    ensures Grouped(hex)[14] == hex[12] && Grouped(hex)[19] == hex[16]
  {
  }

  /** Every identifier passes the pattern, as version 7 of the RFC 9562 variant. */
  lemma EveryUuidIsWellFormed(now: int, random: seq<Byte>)
    requires |random| == 16
    ensures IsUuid(Uuid(now, random)) && Uuid(now, random)[14] == '7'
  {
    var bytes := Layout(now, random);
    HexIsHex(bytes);
    GroupedShape(Hex(bytes));
    UpperDigit(bytes, 6);
    UpperDigit(bytes, 8);
    assert bytes[6] == 0x70 + random[6] % 0x10 && bytes[8] == 0x80 + random[8] % 0x40;
    assert bytes[6] / 16 == 7 && 8 <= bytes[8] / 16 < 12;
  }

  // ----- The time in the text ---------------------------------------------------------------------

  /** `digits` hexadecimal digits of a number, most significant first. */
  function Digits(t: nat, digits: nat): (s: string)
    ensures |s| == digits
    decreases digits
  {
    if digits == 0 then "" else Digits(t / 16, digits - 1) + [Digit(t % 16)]
  }

  /** What is left of a number without its lowest digits. */
  function Without(t: nat, digits: nat): nat
    decreases digits
  {
    if digits == 0 then t else Without(t / 16, digits - 1)
  }

  lemma DigitValues(d: nat)
    requires d < 16
    ensures ValueOf(Digit(d)) == d
  {
  }

  /** Reading the digits of a number gives the number, when it has no more. */
  lemma {:induction false} DigitsReadBack(t: nat, digits: nat)
    requires Without(t, digits) == 0
    ensures Number(Digits(t, digits)) == t
    decreases digits
  {
    if digits > 0 {
      DigitsReadBack(t / 16, digits - 1);
      DigitValues(t % 16);
      assert Digits(t, digits)[..digits - 1] == Digits(t / 16, digits - 1);
    }
  }

  lemma {:induction false} LessAfterPrefix(p: string, a: string, b: string)
    requires Less(a, b)
    ensures Less(p + a, p + b)
  {
    if p == "" {
      assert p + a == a && p + b == b;
    } else {
      LessAfterPrefix(p[1..], a, b);
      assert (p + a)[1..] == p[1..] + a && (p + b)[1..] == p[1..] + b;
    }
  }

  lemma DigitsInOrder(d: nat, e: nat)
    requires d < e < 16
    ensures Digit(d) < Digit(e)
  {
  }

  lemma LastDigit(t: nat, digits: nat, x: string)
    requires digits > 0
    ensures Digits(t, digits) + x == Digits(t / 16, digits - 1) + ([Digit(t % 16)] + x)
  {
  }

  /** Of two numbers that agree above some digits, the smaller prints those digits so that they sort
      first, whatever follows either. */
  lemma {:induction false} SmallerSortsFirst(t: nat, u: nat, digits: nat, x: string, y: string)
    requires t < u && Without(t, digits) == Without(u, digits)
    ensures Less(Digits(t, digits) + x, Digits(u, digits) + y)
    decreases digits
  {
    var x', y' := [Digit(t % 16)] + x, [Digit(u % 16)] + y;
    LastDigit(t, digits, x);
    LastDigit(u, digits, y);
    if t / 16 < u / 16 {
      SmallerSortsFirst(t / 16, u / 16, digits - 1, x', y');
    } else {
      DigitsInOrder(t % 16, u % 16);
      LessAfterPrefix(Digits(t / 16, digits - 1), x', y');
    }
  }

  lemma {:induction false} WithoutIsMonotone(t: nat, u: nat, digits: nat)
    requires t <= u
    ensures Without(t, digits) <= Without(u, digits)
    decreases digits
  {
    if digits > 0 {
      WithoutIsMonotone(t / 16, u / 16, digits - 1);
    }
  }

  lemma {:induction false} WithoutTwice(t: nat, a: nat, b: nat)
    ensures Without(t, a + b) == Without(Without(t, a), b)
    decreases a
  {
    if a > 0 {
      WithoutTwice(t / 16, a - 1, b);
    }
  }

  /** Digits split: those above the lowest b, then the lowest b. */
  lemma {:induction false} DigitsSplit(t: nat, a: nat, b: nat)
    ensures Digits(t, a + b) == Digits(Without(t, b), a) + Digits(t, b)
    decreases b
  {
    if b == 0 {
      assert Digits(t, 0) == "";
    } else {
      var above, last := Digits(Without(t, b), a), [Digit(t % 16)];
      calc {
        Digits(t, a + b);
      == { LastDigit(t, a + b, ""); }
        Digits(t / 16, a + (b - 1)) + last;
      == { DigitsSplit(t / 16, a, b - 1); }
        above + Digits(t / 16, b - 1) + last;
      == { LastDigit(t, b, ""); }
        above + Digits(t, b);
      }
    }
  }

  lemma TwoDigits(t: nat)
    ensures t / 0x100 == t / 16 / 16
    ensures t % 0x100 / 16 == t / 16 % 16 && t % 0x100 % 16 == t % 16
  {
  }

  /** A byte prints as two digits. */
  lemma {:induction false} HexIsDigits(t: nat, n: nat)
    ensures Hex(BigEndian(t, n)) == Digits(t, 2 * n)
    decreases n
  {
    if n > 0 {
      HexIsDigits(t / 0x100, n - 1);
      TwoDigits(t);
      var bytes := BigEndian(t, n);
      assert bytes[..n - 1] == BigEndian(t / 0x100, n - 1);
      assert Digits(t, 2 * n) == Digits(t / 16, 2 * n - 1) + [Digit(t % 16)];
      assert Digits(t / 16, 2 * n - 1) == Digits(t / 16 / 16, 2 * (n - 1)) + [Digit(t / 16 % 16)];
    }
  }

  const TIME_LIMIT := 0x1_0000_0000_0000

  lemma TimeHasTwelveDigits(t: nat)
    requires t < TIME_LIMIT
    ensures Without(t, 12) == 0
  {
    assert Without(t, 4) == t / 0x1_0000;
    assert Without(t / 0x1_0000, 4) == t / 0x1_0000 / 0x1_0000;
    WithoutTwice(t, 4, 4);
    WithoutTwice(t, 8, 4);
  }

  /** The identifier starts with the time: eight digits, a dash, four digits. */
  lemma StartsWithTheTime(now: nat, random: seq<Byte>)
    requires |random| == 16
    ensures var s := Uuid(now, random);
            s[..8] == Digits(Without(now, 4), 8) && s[8] == '-' && s[9..13] == Digits(now, 4)
  {
    var hex := Hex(Layout(now, random));
    assert Layout(now, random)[..6] == BigEndian(now, 6);
    HexOfPrefix(Layout(now, random), 6);
    HexIsDigits(now, 6);
    DigitsSplit(now, 8, 4);
    GroupedStart(hex, Digits(Without(now, 4), 8), Digits(now, 4));
  }

  lemma GroupedStart(hex: string, upper: string, lower: string)
    requires |hex| == 32 && |upper| == 8 && |lower| == 4 && hex[..12] == upper + lower
    ensures Grouped(hex)[..8] == upper && Grouped(hex)[8] == '-' && Grouped(hex)[9..13] == lower
  {
    assert hex[..8] == hex[..12][..8] && hex[8..12] == hex[..12][8..];
    assert Grouped(hex)[..8] == hex[..8];
    assert Grouped(hex)[9..13] == hex[8..12];
  }

  /** The timestamp an identifier's text holds. */
  function TimestampOf(s: string): nat
    requires |s| == 36
  {
    Number(s[..8] + s[9..13])
  }

  /** The time can be read back from the text. */
  lemma TimestampReadsBack(now: nat, random: seq<Byte>)
    requires |random| == 16 && now < TIME_LIMIT
    ensures TimestampOf(Uuid(now, random)) == now
  {
    StartsWithTheTime(now, random);
    DigitsSplit(now, 8, 4);
    TimeHasTwelveDigits(now);
    DigitsReadBack(now, 12);
  }

  /** Texts that start with a time, its digits in two groups with a dash between, compare as the times do. */
  lemma TimesSortTexts(t: nat, u: nat, upper: nat, lower: nat, x: string, y: string)
    requires t < u && Without(t, lower + upper) == Without(u, lower + upper)
    ensures Less(Digits(Without(t, lower), upper) + ("-" + (Digits(t, lower) + x)),
                 Digits(Without(u, lower), upper) + ("-" + (Digits(u, lower) + y)))
  {
    var h1, h2 := Without(t, lower), Without(u, lower);
    var x', y' := "-" + (Digits(t, lower) + x), "-" + (Digits(u, lower) + y);
    WithoutIsMonotone(t, u, lower);
    WithoutTwice(t, lower, upper);
    WithoutTwice(u, lower, upper);
    if h1 < h2 {
      SmallerSortsFirst(h1, h2, upper, x', y');
    } else {
      SmallerSortsFirst(t, u, lower, x, y);
      LessAfterPrefix("-", Digits(t, lower) + x, Digits(u, lower) + y);
      LessAfterPrefix(Digits(h1, upper), x', y');
    }
  }

  lemma Regroup(s: string, upper: string, lower: string)
    requires |s| == 36 && s[..8] == upper && s[8] == '-' && s[9..13] == lower
    ensures s == upper + ("-" + (lower + s[13..]))
  {
  }

  /** An earlier identifier sorts strictly before a later one, whatever was drawn at random. */
  lemma EarlierSortsFirst(earlier: nat, later: nat, one: seq<Byte>, other: seq<Byte>)
    requires |one| == 16 && |other| == 16 && earlier < later < TIME_LIMIT
    ensures Less(Uuid(earlier, one), Uuid(later, other))
  {
    StartsWithTheTime(earlier, one);
    StartsWithTheTime(later, other);
    TimeHasTwelveDigits(earlier);
    TimeHasTwelveDigits(later);
    var a, b := Uuid(earlier, one), Uuid(later, other);
    Regroup(a, Digits(Without(earlier, 4), 8), Digits(earlier, 4));
    Regroup(b, Digits(Without(later, 4), 8), Digits(later, 4));
    TimesSortTexts(earlier, later, 8, 4, a[13..], b[13..]);
  }

  function Power256(n: nat): (p: nat)
    ensures p > 0
  {
    if n == 0 then 1 else 0x100 * Power256(n - 1)
  }

  lemma {:induction false} BigEndianWraps(t: int, m: int, n: nat)
    ensures BigEndian(t + m * Power256(n), n) == BigEndian(t, n)
    decreases n
  {
    if n > 0 {
      var k := m * Power256(n - 1);
      assert t + m * Power256(n) == t + 0x100 * k;
      assert (t + 0x100 * k) / 0x100 == t / 0x100 + k;
      BigEndianWraps(t / 0x100, m, n - 1);
    }
  }

  /** Past 2^48 milliseconds the time wraps: only its remainder is printed. */
  lemma TimeWraps(now: int, random: seq<Byte>)
    requires |random| == 16
    ensures Uuid(now, random) == Uuid(now % TIME_LIMIT, random)
  {
    TimeBytesWrap(now, 6);
  }

  lemma TimeBytesWrap(now: int, n: nat)
    requires n == 6
    ensures BigEndian(now, n) == BigEndian(now % TIME_LIMIT, n)
  {
    SixBytesOfTime(n);
    BigEndianWraps(now % TIME_LIMIT, now / TIME_LIMIT, n);
    assert now == now % TIME_LIMIT + now / TIME_LIMIT * TIME_LIMIT;
  }

  lemma SixBytesOfTime(n: nat)
    requires n == 6
    ensures Power256(n) == TIME_LIMIT
  {
    assert Power256(n - 6) == 1 && Power256(n - 5) == 0x100 && Power256(n - 4) == 0x1_0000;
    assert Power256(n - 3) == 0x100_0000 && Power256(n - 2) == 0x1_0000_0000;
  }

  // ----- What was drawn at random is in the text -----------------------------------------------------

  lemma {:induction false} HexIsInjective(a: seq<Byte>, b: seq<Byte>)
    requires |a| == |b| && Hex(a) == Hex(b)
    ensures a == b
  {
    if a != [] {
      var x, y := a[|a| - 1], b[|b| - 1];
      var front, front' := a[..|a| - 1], b[..|b| - 1];
      SameEnds(Hex(front), Hex(front'), Digit(x / 16), Digit(x % 16), Digit(y / 16), Digit(y % 16));
      HexIsInjective(front, front');
      SameByte(x, y);
      assert a == front + [x] && b == front' + [y];
    }
  }

  lemma SameEnds(a: string, b: string, c: char, d: char, c': char, d': char)
    requires |a| == |b| && a + [c, d] == b + [c', d']
    ensures a == b && c == c' && d == d'
  {
    assert a == (a + [c, d])[..|a|] && b == (b + [c', d'])[..|b|];
    assert (a + [c, d])[|a|] == c && (a + [c, d])[|a| + 1] == d;
    assert (b + [c', d'])[|b|] == c' && (b + [c', d'])[|b| + 1] == d';
  }

  lemma SameByte(x: Byte, y: Byte)
    requires Digit(x / 16) == Digit(y / 16) && Digit(x % 16) == Digit(y % 16)
    ensures x == y
  {
    DigitValues(x / 16);
    DigitValues(y / 16);
    DigitValues(x % 16);
    DigitValues(y % 16);
  }

  lemma GroupedIsInjective(a: string, b: string)
    requires |a| == 32 && |b| == 32 && Grouped(a) == Grouped(b)
    ensures a == b
  {
    Ungrouped(a);
    Ungrouped(b);
  }

  lemma Ungrouped(hex: string)
    requires |hex| == 32
    ensures var s := Grouped(hex); s[..8] + s[9..13] + s[14..18] + s[19..23] + s[24..] == hex
  {
    var s := Grouped(hex);
    assert s[..8] == hex[..8] && s[9..13] == hex[8..12] && s[14..18] == hex[12..16];
    assert s[19..23] == hex[16..20] && s[24..] == hex[20..];
  }

  /** The seventy-four bits that are neither time nor version nor variant. */
  predicate SameRandomness(one: seq<Byte>, other: seq<Byte>)
    requires |one| == 16 && |other| == 16
  {
    one[6] % 0x10 == other[6] % 0x10 && one[7] == other[7] && one[8] % 0x40 == other[8] % 0x40 && one[9..] == other[9..]
  }

  /** Two identifiers are the same text exactly when their times agree below 2^48 and the same seventy-four bits were
      drawn: every one of them is in the text. */
  lemma SameTextExactlyWhen(now: int, later: int, one: seq<Byte>, other: seq<Byte>)
    requires |one| == 16 && |other| == 16
    ensures Uuid(now, one) == Uuid(later, other)
       <==> now % TIME_LIMIT == later % TIME_LIMIT && SameRandomness(one, other)
  {
    TimeWraps(now, one);
    TimeWraps(later, other);
    var t, u := now % TIME_LIMIT, later % TIME_LIMIT;
    if Uuid(now, one) == Uuid(later, other) {
      TimestampReadsBack(t, one);
      TimestampReadsBack(u, other);
      GroupedIsInjective(Hex(Layout(t, one)), Hex(Layout(u, other)));
      HexIsInjective(Layout(t, one), Layout(u, other));
      LayoutHoldsThem(t, one, other);
    }
    if t == u && SameRandomness(one, other) {
      LayoutHoldsThem(t, one, other);
    }
  }

  lemma LayoutHoldsThem(t: int, one: seq<Byte>, other: seq<Byte>)
    requires |one| == 16 && |other| == 16
    ensures Layout(t, one) == Layout(t, other) <==> SameRandomness(one, other)
  {
    var a, b := Layout(t, one), Layout(t, other);
    assert a[6] == 0x70 + one[6] % 0x10 && a[7] == one[7] && a[8] == 0x80 + one[8] % 0x40 && a[9..] == one[9..];
    assert b[6] == 0x70 + other[6] % 0x10 && b[7] == other[7] && b[8] == 0x80 + other[8] % 0x40 && b[9..] == other[9..];
  }

  // ----- What the pattern lets through ---------------------------------------------------------------

  /** The pattern ignores case; of the letters it lets through, only these have one. */
  function Lower(c: char): char {
    if 'A' <= c <= 'F' then c - 'A' + 'a' else c
  }

  function Lowered(s: string): (r: string)
    ensures |r| == |s|
  {
    seq(|s|, i requires 0 <= i < |s| => Lower(s[i]))
  }

  predicate IsLowerHex(c: char) {
    '0' <= c <= '9' || 'a' <= c <= 'f'
  }

  lemma DigitOfValue(c: char)
    requires IsLowerHex(c)
    ensures ValueOf(c) < 16 && Digit(ValueOf(c)) == c
  {
  }

  /** The bytes a run of hexadecimal digits stands for. */
  lemma {:induction false} DigitsAreBytes(hex: string) returns (bytes: seq<Byte>)
    requires |hex| % 2 == 0 && forall i :: 0 <= i < |hex| ==> IsLowerHex(hex[i])
    ensures Hex(bytes) == hex
  {
    if hex == "" {
      bytes := [];
    } else {
      var n := |hex| - 2;
      var front := DigitsAreBytes(hex[..n]);
      var upper, lower := ValueOf(hex[n]), ValueOf(hex[n + 1]);
      DigitOfValue(hex[n]);
      DigitOfValue(hex[n + 1]);
      bytes := front + [16 * upper + lower];
      TwoDigitsMakeAByte(upper, lower);
      HexOfOneMore(front, 16 * upper + lower);
      assert hex == hex[..n] + [hex[n], hex[n + 1]];
    }
  }

  lemma TwoDigitsMakeAByte(upper: nat, lower: nat)
    requires upper < 16 && lower < 16
    ensures 16 * upper + lower < 256
    ensures (16 * upper + lower) / 16 == upper && (16 * upper + lower) % 16 == lower
  {
  }

  lemma Regrouped(s: string, hex: string)
    requires |s| == 36 && s[8] == '-' && s[13] == '-' && s[18] == '-' && s[23] == '-'
    requires hex == s[..8] + s[9..13] + s[14..18] + s[19..23] + s[24..]
    ensures Grouped(hex) == s
  {
    assert hex[..8] == s[..8] && hex[8..12] == s[9..13] && hex[12..16] == s[14..18];
    assert hex[16..20] == s[19..23] && hex[20..] == s[24..];
    assert s == s[..8] + "-" + s[9..13] + "-" + s[14..18] + "-" + s[19..23] + "-" + s[24..];
  }

  ghost predicate PrintsAs(bytes: seq<Byte>, s: string) {
    && |bytes| == 16 && Grouped(Hex(bytes)) == Lowered(s)
    && 1 <= bytes[6] / 16 <= 8 && 8 <= bytes[8] / 16 <= 11
  }

  /** The pattern lets through exactly the printed forms of sixteen bytes, in either case, whose version is from one
      to eight and whose variant is the one of RFC 9562. */
  lemma PatternIsExact(s: string)
    ensures IsUuid(s) <==> exists bytes :: PrintsAs(bytes, s)
  {
    if IsUuid(s) {
      var t := Lowered(s);
      var hex := t[..8] + t[9..13] + t[14..18] + t[19..23] + t[24..];
      LowerDigits(s, t, hex);
      var bytes := DigitsAreBytes(hex);
      Regrouped(t, hex);
      UpperDigit(bytes, 6);
      UpperDigit(bytes, 8);
      DigitValues(bytes[6] / 16);
      DigitValues(bytes[8] / 16);
      assert PrintsAs(bytes, s);
    }
    if bytes :| PrintsAs(bytes, s) {
      PrintedPasses(bytes, s);
    }
  }

  lemma LowerDigits(s: string, t: string, hex: string)
    requires IsUuid(s) && t == Lowered(s) && hex == t[..8] + t[9..13] + t[14..18] + t[19..23] + t[24..]
    ensures forall i :: 0 <= i < |hex| ==> IsLowerHex(hex[i])
    ensures t[8] == '-' && t[13] == '-' && t[18] == '-' && t[23] == '-'
    ensures hex[12] == t[14] && 1 <= ValueOf(t[14]) <= 8 && hex[16] == t[19] && 8 <= ValueOf(t[19]) <= 11
  {
    assert forall i :: 0 <= i < 36 && !IsDash(i) ==> IsLowerHex(t[i]);
  }

  lemma PrintedPasses(bytes: seq<Byte>, s: string)
    requires PrintsAs(bytes, s)
    ensures IsUuid(s)
  {
    var t := Lowered(s);
    HexIsHex(bytes);
    GroupedShape(Hex(bytes));
    UpperDigit(bytes, 6);
    UpperDigit(bytes, 8);
    assert forall i :: 0 <= i < 36 ==> (if IsDash(i) then t[i] == '-' else IsHex(t[i]));
    assert t[14] == Digit(bytes[6] / 16) && t[19] == Digit(bytes[8] / 16);
    forall i | 0 <= i < 36 ensures if IsDash(i) then s[i] == '-' else IsHex(s[i]) {
      assert t[i] == Lower(s[i]);
    }
  }
}
