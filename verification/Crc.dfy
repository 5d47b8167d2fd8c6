/** The table-driven CRC-32 of apps/api/src/testing/office-fixtures.ts, and the bit-at-a-time reflected
    division (section 8 of RFC 1952) that it must equal.

    A word is its bits, lowest first: `>>> 1` drops the first and appends a zero, `& 0xff` keeps the
    first eight. Everything up to the loop holds for words and polynomials of any length. */
module Crc {

  type Bits = seq<bool>

  function Zeros(n: nat): (z: Bits)
    ensures |z| == n
  {
    seq(n, _ => false)
  }

  function Ones(n: nat): (z: Bits)
    ensures |z| == n
  {
    seq(n, _ => true)
  }

  function Xor(a: Bits, b: Bits): (r: Bits)
    requires |a| == |b|
    ensures |r| == |a|
    ensures forall i :: 0 <= i < |a| ==> r[i] == (a[i] != b[i])
  {
    seq(|a|, i requires 0 <= i < |a| => a[i] != b[i])
  }

  /** `c >>> k` */
  function ShiftRight(c: Bits, k: nat): (r: Bits)
    requires k <= |c|
    ensures |r| == |c|
  {
    c[k..] + Zeros(k)
  }

  /** One step of the division: shift right, and subtract the polynomial if a one fell out. */
  function Step(poly: Bits, c: Bits): (r: Bits)
    requires |c| == |poly| > 0
    ensures |r| == |c|
  {
    if c[0] then Xor(poly, ShiftRight(c, 1)) else ShiftRight(c, 1)
  }

  /** A step for every bit of a byte. */
  function Steps(poly: Bits, c: Bits, byte: Bits): (r: Bits)
    requires |c| == |poly| > 0
    ensures |r| == |c|
    decreases |byte|
  {
    if byte == [] then c else Steps(poly, Step(poly, c), byte[1..])
  }

  /** A byte as a word. */
  function Widen(byte: Bits, n: nat): (r: Bits)
    requires |byte| <= n
    ensures |r| == n
  {
    byte + Zeros(n - |byte|)
  }

  // ----- The reference: one bit of the message at a time ------------------------------------------

  /** The next bit of the message meets the lowest bit of the remainder. */
  function Feed(poly: Bits, crc: Bits, bit: bool): (r: Bits)
    requires |crc| == |poly| > 0
    ensures |r| == |crc|
  {
    Step(poly, crc[0 := crc[0] != bit])
  }

  function FeedBits(poly: Bits, crc: Bits, bits: Bits): (r: Bits)
    requires |crc| == |poly| > 0
    ensures |r| == |crc|
    decreases |bits|
  {
    if bits == [] then crc else FeedBits(poly, Feed(poly, crc, bits[0]), bits[1..])
  }

  // ----- Linearity ----------------------------------------------------------------------------------

  /** A step distributes over XOR, which is subtraction of polynomials over two elements. */
  lemma StepIsLinear(poly: Bits, a: Bits, b: Bits)
    requires |a| == |b| == |poly| > 0
    ensures Step(poly, Xor(a, b)) == Xor(Step(poly, a), Step(poly, b))
  {
    var both := Xor(a, b);
    assert both[0] == (a[0] != b[0]);
    assert ShiftRight(both, 1) == Xor(ShiftRight(a, 1), ShiftRight(b, 1));
  }

  lemma {:induction false} StepsAreLinear(poly: Bits, a: Bits, b: Bits, byte: Bits)
    requires |a| == |b| == |poly| > 0
    ensures Steps(poly, Xor(a, b), byte) == Xor(Steps(poly, a, byte), Steps(poly, b, byte))
    decreases |byte|
  {
    if byte != [] {
      StepIsLinear(poly, a, b);
      StepsAreLinear(poly, Step(poly, a), Step(poly, b), byte[1..]);
    }
  }

  /** While only zeros fall out, stepping is shifting. */
  lemma {:induction false} ZerosFallOut(poly: Bits, c: Bits, byte: Bits)
    requires |c| == |poly| > 0 && |byte| <= |c|
    requires forall i :: 0 <= i < |byte| ==> !c[i]
    ensures Steps(poly, c, byte) == ShiftRight(c, |byte|)
    decreases |byte|
  {
    if byte == [] {
      assert ShiftRight(c, 0) == c;
    } else {
      var next := Step(poly, c);
      assert next == ShiftRight(c, 1);
      ZerosFallOut(poly, next, byte[1..]);
      assert ShiftRight(next, |byte| - 1) == ShiftRight(c, |byte|);
    }
  }

  /** A byte's worth of steps: the table answers for the byte that falls out, the rest just shifts. */
  lemma StepsByTable(poly: Bits, c: Bits, byte: Bits)
    requires |c| == |poly| > 0 && |byte| <= |c|
    ensures Steps(poly, c, byte)
         == Xor(Steps(poly, Widen(c[..|byte|], |c|), byte), ShiftRight(c, |byte|))
  {
    var low, high := Widen(c[..|byte|], |c|), HighPart(c, |byte|);
    LowAndHigh(c, |byte|);
    StepsAreLinear(poly, low, high, byte);
    ZerosFallOut(poly, high, byte);
  }

  /** A word with its k lowest bits cleared. */
  function HighPart(c: Bits, k: nat): (r: Bits)
    requires k <= |c|
    ensures |r| == |c|
    ensures forall i :: 0 <= i < k ==> !r[i]
  {
    Zeros(k) + c[k..]
  }

  lemma LowAndHigh(c: Bits, k: nat)
    requires k <= |c|
    ensures Xor(Widen(c[..k], |c|), HighPart(c, k)) == c
    ensures ShiftRight(HighPart(c, k), k) == ShiftRight(c, k)
  {
    assert HighPart(c, k)[k..] == c[k..];
  }

  // ----- A byte, bit by bit -------------------------------------------------------------------------

  /** Feeding the lowest bit and leaving the rest for later is stepping the whole. */
  lemma FeedOneBit(poly: Bits, crc: Bits, byte: Bits)
    requires |crc| == |poly| > 0 && 0 < |byte| <= |crc|
    ensures Step(poly, Xor(crc, Widen(byte, |crc|)))
         == Xor(Feed(poly, crc, byte[0]), Widen(byte[1..], |crc|))
  {
    var n := |crc|;
    var fed, rest := crc[0 := crc[0] != byte[0]], Widen(byte, n)[0 := false];
    assert Xor(crc, Widen(byte, n)) == Xor(fed, rest);
    StepIsLinear(poly, fed, rest);
    assert Step(poly, rest) == Widen(byte[1..], n);
  }

  /** Feeding a byte's bits one by one is XORing the byte in at once and stepping as often. */
  lemma {:induction false} FeedByte(poly: Bits, crc: Bits, byte: Bits)
    requires |crc| == |poly| > 0 && |byte| <= |crc|
    ensures FeedBits(poly, crc, byte) == Steps(poly, Xor(crc, Widen(byte, |crc|)), byte)
    decreases |byte|
  {
    if byte == [] {
      assert Xor(crc, Widen(byte, |crc|)) == crc;
    } else {
      FeedOneBit(poly, crc, byte);
      FeedByte(poly, Feed(poly, crc, byte[0]), byte[1..]);
    }
  }

  lemma {:induction false} FeedAppend(poly: Bits, crc: Bits, front: Bits, back: Bits)
    requires |crc| == |poly| > 0
    ensures FeedBits(poly, crc, front + back) == FeedBits(poly, FeedBits(poly, crc, front), back)
    decreases |front|
  {
    if front == [] {
      assert front + back == back;
    } else {
      FeedAppend(poly, Feed(poly, crc, front[0]), front[1..], back);
      assert (front + back)[1..] == front[1..] + back;
    }
  }

  // ----- Bits and numbers ---------------------------------------------------------------------------

  /** The `width` lowest bits of a number, lowest first. */
  function BitsOf(n: nat, width: nat): (bits: Bits)
    ensures |bits| == width
    decreases width
  {
    if width == 0 then [] else [n % 2 == 1] + BitsOf(n / 2, width - 1)
  }

  function NumberOf(bits: Bits): nat {
    if bits == [] then 0 else (if bits[0] then 1 else 0) + 2 * NumberOf(bits[1..])
  }

  function PowerOfTwo(k: nat): (p: nat)
    ensures p > 0
  {
    if k == 0 then 1 else 2 * PowerOfTwo(k - 1)
  }

  lemma {:induction false} NumbersAndBits(bits: Bits)
    ensures NumberOf(bits) < PowerOfTwo(|bits|)
    ensures BitsOf(NumberOf(bits), |bits|) == bits
  {
    if bits != [] {
      NumbersAndBits(bits[1..]);
      assert NumberOf(bits) / 2 == NumberOf(bits[1..]);
    }
  }

  // ----- The table and the loop ---------------------------------------------------------------------

  const WORD := 32
  const BYTE := 8

  /** 0xEDB88320, lowest bit first. */
  const POLYNOMIAL := BitsOf(0xedb8_8320, WORD)

  type Byte = b: int | 0 <= b < 256

  function TableEntry(poly: Bits, byte: Bits): (r: Bits)
    requires |byte| <= |poly| && |poly| > 0
    ensures |r| == |poly|
  {
    Steps(poly, Widen(byte, |poly|), byte)
  }

  method BuildTable(poly: Bits) returns (table: array<Bits>)
    requires |poly| == WORD
    ensures fresh(table) && IsTable(poly, table[..])
  {
    table := new Bits[256](_ => []);
    for n := 0 to 256
      invariant forall m :: 0 <= m < n ==> table[m] == TableEntry(poly, BitsOf(m, BYTE))
    {
      var byte := BitsOf(n, BYTE);
      var c := Widen(byte, WORD);
      for k := 0 to BYTE
        invariant |c| == WORD
        invariant TableEntry(poly, byte) == Steps(poly, c, byte[k..])
      {
        c := if c[0] then Xor(poly, ShiftRight(c, 1)) else ShiftRight(c, 1);
        assert byte[k..][1..] == byte[k + 1..];
      }
      table[n] := c;
    }
  }

  /** The remainder after a message: every byte through the division, from all ones. */
  function Divided(poly: Bits, bytes: seq<Byte>): (r: Bits)
    requires |poly| > 0
    ensures |r| == |poly|
  {
    FeedBits(poly, Ones(|poly|), MessageBits(bytes, BYTE))
  }

  /** The bits of a message, the lowest of each byte first. */
  function MessageBits(bytes: seq<Byte>, width: nat): Bits {
    if bytes == [] then [] else MessageBits(bytes[..|bytes| - 1], width) + BitsOf(bytes[|bytes| - 1], width)
  }

  /** One byte through the table is eight bits through the division. */
  lemma TableStepFeedsAByte(poly: Bits, crc: Bits, byte: Bits)
    requires |crc| == |poly| > 0 && |byte| <= |crc|
    ensures var low := Xor(crc[..|byte|], byte);
            Xor(TableEntry(poly, low), ShiftRight(crc, |byte|)) == FeedBits(poly, crc, byte)
  {
    var x := Xor(crc, Widen(byte, |crc|));
    var low := Xor(crc[..|byte|], byte);
    FeedByte(poly, crc, byte);
    StepsByTable(poly, x, byte);
    assert x[..|byte|] == low;
    assert ShiftRight(x, |byte|) == ShiftRight(crc, |byte|);
    StepsCount(poly, Widen(low, |poly|), low, byte);
  }

  /** How often to step is all a byte decides. */
  lemma {:induction false} StepsCount(poly: Bits, c: Bits, byte: Bits, other: Bits)
    requires |c| == |poly| > 0 && |byte| == |other|
    ensures Steps(poly, c, byte) == Steps(poly, c, other)
    decreases |byte|
  {
    if byte != [] {
      StepsCount(poly, Step(poly, c), byte[1..], other[1..]);
    }
  }

  /** The divided CRC of a message, as the number the archive stores. */
  function Crc32Of(bytes: seq<Byte>): (r: nat)
    ensures r < 0x1_0000_0000
  {
    var remainder := Xor(Divided(POLYNOMIAL, bytes), Ones(WORD));
    NumbersAndBits(remainder);
    WordIsBelow(WORD);
    NumberOf(remainder)
  }

  lemma WordIsBelow(k: nat)
    requires k == 32
    ensures PowerOfTwo(k) == 0x1_0000_0000
  {
    assert PowerOfTwo(8) == 256;
    PowersMultiply(8, 8);
    PowersMultiply(16, 16);
  }

  lemma {:induction false} PowersMultiply(a: nat, b: nat)
    ensures PowerOfTwo(a + b) == PowerOfTwo(a) * PowerOfTwo(b)
  {
    if a > 0 {
      PowersMultiply(a - 1, b);
    }
  }

  method TableIndex(crc: Bits, byte: Byte) returns (index: nat, ghost low: Bits)
    requires |crc| == WORD
    ensures low == Xor(crc[..BYTE], BitsOf(byte, BYTE))
    ensures index < 256 && BitsOf(index, BYTE) == low
  {
    var bits := Xor(crc[..BYTE], BitsOf(byte, BYTE));
    NumbersAndBits(bits);
    low, index := bits, NumberOf(bits);
    assert PowerOfTwo(BYTE) == 256;
  }

  lemma DivideOneMore(poly: Bits, bytes: seq<Byte>, i: nat)
    requires |poly| > 0 && i < |bytes|
    ensures Divided(poly, bytes[..i + 1]) == FeedBits(poly, Divided(poly, bytes[..i]), BitsOf(bytes[i], BYTE))
  {
    assert bytes[..i + 1][..i] == bytes[..i];
    FeedAppend(poly, Ones(|poly|), MessageBits(bytes[..i], BYTE), BitsOf(bytes[i], BYTE));
  }

  /** The 256 entries, one for each byte. */
  predicate IsTable(poly: Bits, table: seq<Bits>)
    requires |poly| == WORD
  {
    |table| == 256 && forall n :: 0 <= n < 256 ==> table[n] == TableEntry(poly, BitsOf(n, BYTE))
  }

  /** A turn of the loop takes the remainder of i bytes to the remainder of one more. */
  lemma OneTurn(poly: Bits, table: seq<Bits>, bytes: seq<Byte>, i: nat, index: nat)
    requires |poly| == WORD && IsTable(poly, table) && i < |bytes| && index < 256
    requires BitsOf(index, BYTE) == Xor(Divided(poly, bytes[..i])[..BYTE], BitsOf(bytes[i], BYTE))
    ensures |table[index]| == WORD
    ensures Xor(table[index], ShiftRight(Divided(poly, bytes[..i]), BYTE)) == Divided(poly, bytes[..i + 1])
  {
    DivideOneMore(poly, bytes, i);
    TableStepFeedsAByte(poly, Divided(poly, bytes[..i]), BitsOf(bytes[i], BYTE));
  }

  method Remainder(poly: Bits, bytes: seq<Byte>) returns (crc: Bits)
    requires |poly| == WORD
    ensures crc == Divided(poly, bytes)
  {
    var table := BuildTable(poly);
    crc := Ones(|poly|);
    for i := 0 to |bytes|
      invariant IsTable(poly, table[..])
      invariant crc == Divided(poly, bytes[..i])
    {
      var index, low := TableIndex(crc, bytes[i]);
      OneTurn(poly, table[..], bytes, i, index);
      assert table[..][index] == table[index];
      crc := Xor(table[index], ShiftRight(crc, BYTE));
    }
    assert bytes[..|bytes|] == bytes;
  }

  /** The table-driven CRC is the divided CRC, for every byte string. */
  method Crc32(bytes: seq<Byte>) returns (r: nat)
    ensures r == Crc32Of(bytes)
  {
    var crc := Remainder(POLYNOMIAL, bytes);
    r := NumberOf(Xor(crc, Ones(WORD)));
  }
}
