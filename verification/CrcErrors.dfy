/** What the CRC-32 of apps/api/src/testing/office-fixtures.ts is good for: which changes to a message it is bound to
    notice, and a message that tells which of the many divisions it is. */
module CrcErrors {
  import opened Crc

  // ----- Nothing is forgotten -----------------------------------------------------------------------

  /** No two words step to the same one, while the polynomial has its highest coefficient: the bit that fell out can
      be read off the top. */
  lemma StepIsInjective(poly: Bits, a: Bits, b: Bits)
    requires |a| == |b| == |poly| > 0 && poly[|poly| - 1]
    requires Step(poly, a) == Step(poly, b)
    ensures a == b
  {
    var top := |poly| - 1;
    assert Step(poly, a)[top] == a[0] && Step(poly, b)[top] == b[0];
    forall i | 0 <= i < |a| ensures a[i] == b[i] {
      if i > 0 {
        assert ShiftRight(a, 1)[i - 1] == a[i] && ShiftRight(b, 1)[i - 1] == b[i];
        assert Step(poly, a)[i - 1] == Step(poly, b)[i - 1];
      }
    }
  }

  lemma {:induction false} StepsAreInjective(poly: Bits, a: Bits, b: Bits, byte: Bits)
    requires |a| == |b| == |poly| > 0 && poly[|poly| - 1]
    requires Steps(poly, a, byte) == Steps(poly, b, byte)
    ensures a == b
    decreases |byte|
  {
    if byte != [] {
      StepsAreInjective(poly, Step(poly, a), Step(poly, b), byte[1..]);
      StepIsInjective(poly, a, b);
    }
  }

  lemma {:induction false} FeedingIsInjective(poly: Bits, a: Bits, b: Bits, bits: Bits)
    requires |a| == |b| == |poly| > 0 && poly[|poly| - 1]
    requires FeedBits(poly, a, bits) == FeedBits(poly, b, bits)
    ensures a == b
    decreases |bits|
  {
    if bits != [] {
      FeedingIsInjective(poly, Feed(poly, a, bits[0]), Feed(poly, b, bits[0]), bits[1..]);
      var x, y := a[0 := a[0] != bits[0]], b[0 := b[0] != bits[0]];
      StepIsInjective(poly, x, y);
      assert forall i :: 0 < i < |a| ==> a[i] == x[i] && b[i] == y[i];
      assert x[0] == (a[0] != bits[0]) && y[0] == (b[0] != bits[0]);
    }
  }

  /** A change confined to a stretch no longer than the remainder is never missed, wherever it falls. */
  lemma BurstsChangeTheRemainder(poly: Bits, crc: Bits, a: Bits, b: Bits, back: Bits)
    requires |crc| == |poly| > 0 && poly[|poly| - 1]
    requires |a| == |b| <= |crc|
    requires FeedBits(poly, crc, a + back) == FeedBits(poly, crc, b + back)
    ensures a == b
  {
    var x, y := Xor(crc, Widen(a, |crc|)), Xor(crc, Widen(b, |crc|));
    FeedAppend(poly, crc, a, back);
    FeedAppend(poly, crc, b, back);
    FeedingIsInjective(poly, FeedBits(poly, crc, a), FeedBits(poly, crc, b), back);
    FeedByte(poly, crc, a);
    FeedByte(poly, crc, b);
    StepsCount(poly, y, b, a);
    StepsAreInjective(poly, x, y, a);
    forall i | 0 <= i < |a| ensures a[i] == b[i] {
      assert x[i] == (crc[i] != a[i]) && y[i] == (crc[i] != b[i]);
    }
  }

  // ----- Messages and their bits ----------------------------------------------------------------------

  lemma {:induction false} MessageBitsAppend(front: seq<Byte>, back: seq<Byte>, width: nat)
    ensures MessageBits(front + back, width) == MessageBits(front, width) + MessageBits(back, width)
  {
    if back == [] {
      assert front + back == front;
    } else {
      var all, rest, byte := front + back, back[..|back| - 1], BitsOf(back[|back| - 1], width);
      assert all[..|all| - 1] == front + rest && all[|all| - 1] == back[|back| - 1];
      calc {
        MessageBits(all, width);
      ==
        MessageBits(front + rest, width) + byte;
      == { MessageBitsAppend(front, rest, width); }
        (MessageBits(front, width) + MessageBits(rest, width)) + byte;
      == { ConcatAssociates(MessageBits(front, width), MessageBits(rest, width), byte); }
        MessageBits(front, width) + (MessageBits(rest, width) + byte);
      }
    }
  }

  lemma ConcatAssociates(a: Bits, b: Bits, c: Bits)
    ensures (a + b) + c == a + (b + c)
  {
  }

  lemma {:induction false} MessageBitsLength(bytes: seq<Byte>, width: nat)
    ensures |MessageBits(bytes, width)| == |bytes| * width
  {
    if bytes != [] {
      MessageBitsLength(bytes[..|bytes| - 1], width);
      assert |bytes| * width == (|bytes| - 1) * width + width;
    }
  }

  lemma {:induction false} BitsAreTheNumber(n: nat, width: nat)
    requires n < PowerOfTwo(width)
    ensures NumberOf(BitsOf(n, width)) == n
    decreases width
  {
    if width > 0 {
      BitsAreTheNumber(n / 2, width - 1);
      assert BitsOf(n, width)[1..] == BitsOf(n / 2, width - 1);
    }
  }

  lemma {:induction false} TopBit(n: nat, width: nat)
    requires width > 0 && PowerOfTwo(width - 1) <= n < PowerOfTwo(width)
    ensures BitsOf(n, width)[width - 1]
    decreases width
  {
    if width > 1 {
      TopBit(n / 2, width - 1);
    }
  }

  lemma {:induction false} MessageBitsAreInjective(a: seq<Byte>, b: seq<Byte>, width: nat)
    requires |a| == |b| && MessageBits(a, width) == MessageBits(b, width) && PowerOfTwo(width) == 256
    ensures a == b
  {
    if a != [] {
      var last := |a| - 1;
      MessageBitsLength(a[..last], width);
      MessageBitsLength(b[..last], width);
      var k := last * width;
      assert MessageBits(a, width)[..k] == MessageBits(a[..last], width);
      assert MessageBits(b, width)[..k] == MessageBits(b[..last], width);
      assert MessageBits(a, width)[k..] == BitsOf(a[last], width);
      assert MessageBits(b, width)[k..] == BitsOf(b[last], width);
      MessageBitsAreInjective(a[..last], b[..last], width);
      BitsAreTheNumber(a[last], width);
      BitsAreTheNumber(b[last], width);
      assert a == a[..last] + [a[last]] && b == b[..last] + [b[last]];
    }
  }

  lemma MessagesDifferInTheirRemainders(
    poly: Bits, crc: Bits, front: seq<Byte>, a: seq<Byte>, b: seq<Byte>, back: seq<Byte>, width: nat)
    requires |crc| == |poly| > 0 && poly[|poly| - 1]
    requires |a| == |b| && |a| * width <= |poly| && PowerOfTwo(width) == 256
    requires FeedBits(poly, crc, MessageBits(front + a + back, width))
          == FeedBits(poly, crc, MessageBits(front + b + back, width))
    ensures a == b
  {
    SplitMessage(poly, crc, front, a, back, width);
    SplitMessage(poly, crc, front, b, back, width);
    MessageBitsLength(a, width);
    MessageBitsLength(b, width);
    var reached := FeedBits(poly, crc, MessageBits(front, width));
    BurstsChangeTheRemainder(poly, reached, MessageBits(a, width), MessageBits(b, width), MessageBits(back, width));
    MessageBitsAreInjective(a, b, width);
  }

  lemma SplitMessage(poly: Bits, crc: Bits, front: seq<Byte>, mid: seq<Byte>, back: seq<Byte>, width: nat)
    requires |crc| == |poly| > 0
    ensures FeedBits(poly, crc, MessageBits(front + mid + back, width))
         == FeedBits(poly, FeedBits(poly, crc, MessageBits(front, width)), MessageBits(mid, width) + MessageBits(back, width))
  {
    var x, y, z := MessageBits(front, width), MessageBits(mid, width), MessageBits(back, width);
    MessageBitsAppend(front + mid, back, width);
    MessageBitsAppend(front, mid, width);
    ConcatAssociates(x, y, z);
    FeedAppend(poly, crc, x, y + z);
  }

  lemma SameNumberSameWord(a: Bits, b: Bits, ones: Bits)
    requires |a| == |b| == |ones| && NumberOf(Xor(a, ones)) == NumberOf(Xor(b, ones))
    ensures a == b
  {
    var x, y := Xor(a, ones), Xor(b, ones);
    NumbersAndBits(x);
    NumbersAndBits(y);
    assert x == y;
    forall i | 0 <= i < |a| ensures a[i] == b[i] {
      assert x[i] == (a[i] != ones[i]) && y[i] == (b[i] != ones[i]);
    }
  }

  /** Two messages that differ only within four bytes, at the same place, never share a CRC. */
  lemma BurstsAreDetected(front: seq<Byte>, a: seq<Byte>, b: seq<Byte>, back: seq<Byte>)
    requires |a| == |b| <= 4
    ensures Crc32Of(front + a + back) == Crc32Of(front + b + back) <==> a == b
  {
    if Crc32Of(front + a + back) == Crc32Of(front + b + back) {
      var poly, width, word := POLYNOMIAL, BYTE, WORD;
      SameNumberSameWord(Divided(poly, front + a + back), Divided(poly, front + b + back), Ones(word));
      Widths(width, word);
      TopBit(0xedb8_8320, word);
      MessagesDifferInTheirRemainders(poly, Ones(word), front, a, b, back, width);
    }
  }

  lemma Widths(width: nat, word: nat)
    requires width == BYTE && word == WORD
    ensures PowerOfTwo(width) == 256 && PowerOfTwo(word - 1) == 0x8000_0000 && PowerOfTwo(word) == 0x1_0000_0000
  {
    WordIsBelow(word);
  }

  // ----- Which division it is -------------------------------------------------------------------------

  /** A remainder fed its own bits is divided out. */
  lemma OwnBitsDivideOut(poly: Bits, crc: Bits)
    requires |crc| == |poly| > 0
    ensures FeedBits(poly, crc, crc) == Zeros(|crc|)
  {
    FeedByte(poly, crc, crc);
    var x := Xor(crc, Widen(crc, |crc|));
    assert x == Zeros(|crc|);
    ZerosFallOut(poly, x, crc);
    assert ShiftRight(x, |crc|) == x;
  }

  /** Zeros into nothing leave nothing. */
  lemma {:induction false} ZerosIntoNothing(poly: Bits, zeros: Bits)
    requires |poly| > 0 && forall i :: 0 <= i < |zeros| ==> !zeros[i]
    ensures FeedBits(poly, Zeros(|poly|), zeros) == Zeros(|poly|)
    decreases |zeros|
  {
    if zeros != [] {
      ZeroIntoNothing(poly);
      ZerosIntoNothing(poly, zeros[1..]);
    }
  }

  lemma ZeroIntoNothing(poly: Bits)
    requires |poly| > 0
    ensures Feed(poly, Zeros(|poly|), false) == Zeros(|poly|)
  {
    var nothing := Zeros(|poly|);
    assert nothing[0 := nothing[0] != false] == nothing;
    assert ShiftRight(nothing, 1) == nothing;
  }

  /** And a one leaves the polynomial. */
  lemma OneIntoNothing(poly: Bits)
    requires |poly| > 0
    ensures FeedBits(poly, Zeros(|poly|), [true]) == poly
  {
    var one := Zeros(|poly|)[0 := true];
    assert Step(poly, one) == poly by {
      assert ShiftRight(one, 1) == Zeros(|poly|);
    }
    assert Feed(poly, Zeros(|poly|), true) == poly;
    assert FeedBits(poly, Feed(poly, Zeros(|poly|), true), []) == poly;
  }

  lemma {:induction false} Complement(bits: Bits)
    ensures NumberOf(Xor(bits, Ones(|bits|))) == PowerOfTwo(|bits|) - 1 - NumberOf(bits)
  {
    if bits != [] {
      Complement(bits[1..]);
      assert Xor(bits, Ones(|bits|))[1..] == Xor(bits[1..], Ones(|bits| - 1));
    }
  }

  /** Ones to divide out the initial ones, then zeros and a one. */
  lemma CheckRemainder(poly: Bits, zeros: Bits)
    requires |poly| > 0 && forall i :: 0 <= i < |zeros| ==> !zeros[i]
    ensures FeedBits(poly, Ones(|poly|), Ones(|poly|) + (zeros + [true])) == poly
  {
    FeedAppend(poly, Ones(|poly|), Ones(|poly|), zeros + [true]);
    OwnBitsDivideOut(poly, Ones(|poly|));
    FeedAppend(poly, Zeros(|poly|), zeros, [true]);
    ZerosIntoNothing(poly, zeros);
    OneIntoNothing(poly);
  }

  const CHECK: seq<Byte> := [0xff, 0xff, 0xff, 0xff, 0x80]

  lemma ByteOfOnes(width: nat)
    requires width == BYTE
    ensures BitsOf(0xff, width) == Ones(width) && BitsOf(0x80, width) == Zeros(width - 1) + [true]
  {
  }

  lemma {:induction false} FullBytes(bytes: seq<Byte>, width: nat)
    requires width == BYTE && forall i :: 0 <= i < |bytes| ==> bytes[i] == 0xff
    ensures MessageBits(bytes, width) == Ones(|bytes| * width)
  {
    if bytes != [] {
      var last := |bytes| - 1;
      FullBytes(bytes[..last], width);
      ByteOfOnes(width);
      assert Ones(last * width) + Ones(width) == Ones(|bytes| * width);
    }
  }

  /** A published pair, which fixes the initial and the final word, the order of bits and the polynomial: four bytes
      of ones divide out the initial ones, and a one after them leaves the polynomial, complemented. */
  lemma CheckValue()
    ensures Crc32Of([0xff, 0xff, 0xff, 0xff, 0x80]) == 0x1247_7cdf
  {
    var poly, width, word := POLYNOMIAL, BYTE, WORD;
    CheckIsDivided(poly, width);
    Complement(poly);
    Widths(width, word);
    BitsAreTheNumber(0xedb8_8320, word);
  }

  lemma CheckBits(width: nat)
    requires width == BYTE
    ensures MessageBits(CHECK, width) == Ones(4 * width) + (Zeros(width - 1) + [true])
  {
    var full: seq<Byte>, last: seq<Byte> := [0xff, 0xff, 0xff, 0xff], [0x80];
    assert CHECK == full + last;
    MessageBitsAppend(full, last, width);
    FullBytes(full, width);
    OneByte(0x80, width);
    ByteOfOnes(width);
  }

  lemma OneByte(byte: Byte, width: nat)
    ensures MessageBits([byte], width) == BitsOf(byte, width)
  {
    assert [byte][..0] == [];
    assert [] + BitsOf(byte, width) == BitsOf(byte, width);
  }

  lemma CheckIsDivided(poly: Bits, width: nat)
    requires |poly| == WORD && width == BYTE
    ensures Divided(poly, CHECK) == poly
  {
    CheckBits(width);
    CheckRemainder(poly, Zeros(width - 1));
  }
}
