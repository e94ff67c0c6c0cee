/**
 The CRC-8 of the DS18B20 scratchpad, `CRC8_calculation` in `ds18b20_pio/ds18b20.c`, and
 the error detection it gives to `ds18b20_read_temperature`.
 */
module Crc8 {

  type Word = bv8

  function Low(x: Word): bool { x & 1 == 1 }

  /** The reflected polynomial x^8 + x^5 + x^4 + 1. */
  function Feedback(on: bool): Word { if on then 0x8C else 0 }

  /** The register after one more data bit. */
  function Shift(crc: Word, bit: bool): Word
  {
    (crc >> 1) ^ Feedback(Low(crc) != bit)
  }

  /** The register after the bits, in transmission order. */
  function Register(crc: Word, bits: seq<bool>): Word
    decreases |bits|
  {
    if bits == [] then crc else Register(Shift(crc, bits[0]), bits[1..])
  }

  /** The lowest n bits of a byte, least significant first. */
  function BitsOf(x: Word, n: nat): (r: seq<bool>)
    ensures |r| == n
  {
    if n == 0 then [] else [Low(x)] + BitsOf(x >> 1, n - 1)
  }

  /** The bits of a message in transmission order. */
  function Bits(data: seq<Word>): (r: seq<bool>)
    ensures |r| == 8 * |data|
  {
    if data == [] then [] else BitsOf(data[0], 8) + Bits(data[1..])
  }

  /** The register after a whole message; `CrcIsRemainder` shows that it is a polynomial remainder. */
  function Crc(data: seq<Word>): Word { Register(0, Bits(data)) }

  lemma RegisterCons(crc: Word, bit: bool, tail: seq<bool>)
    ensures Register(crc, [bit] + tail) == Register(Shift(crc, bit), tail)
  {
  }

  lemma {:induction false} RegisterConcat(crc: Word, a: seq<bool>, b: seq<bool>)
    ensures Register(crc, a + b) == Register(Register(crc, a), b)
    decreases |a|
  {
    if a == [] {
      assert a + b == b;
    } else {
      RegisterConcat(Shift(crc, a[0]), a[1..], b);
      RegisterCons(crc, a[0], a[1..] + b);
      assert a + b == [a[0]] + (a[1..] + b);
    }
  }

  lemma {:induction false} BitsConcat(a: seq<Word>, b: seq<Word>)
    ensures Bits(a + b) == Bits(a) + Bits(b)
    decreases |a|
  {
    if a == [] {
      assert a + b == b;
    } else {
      assert (a + b)[1..] == a[1..] + b;
      BitsConcat(a[1..], b);
    }
  }

  lemma CrcOfOneMore(data: seq<Word>, x: Word)
    ensures Crc(data + [x]) == Register(Crc(data), BitsOf(x, 8))
  {
    BitsConcat(data, [x]);
    assert [x][1..] == [] && Bits([x]) == BitsOf(x, 8) + Bits([]) == BitsOf(x, 8);
    RegisterConcat(0, Bits(data), BitsOf(x, 8));
  }

  lemma {:induction false} CrcOfPrefix(data: seq<Word>, i: nat)
    requires i < |data|
    ensures Crc(data[..i + 1]) == Register(Crc(data[..i]), BitsOf(data[i], 8))
  {
    CrcOfOneMore(data[..i], data[i]);
    assert data[..i + 1] == data[..i] + [data[i]];
  }

  lemma XorLow(x: Word, y: Word)
    ensures (x ^ y) & 1 != 0 <==> Low(x) != Low(y)
  {
  }

  /** The inner loop: n bits of one byte go into the register. */
  method AddBits(crc0: Word, data: Word) returns (crc: Word)
    ensures crc == Register(crc0, BitsOf(data, 8))
  {
    crc := crc0;
    var databyte := data;
    for j := 0 to 8
      invariant Register(crc, BitsOf(databyte, 8 - j)) == Register(crc0, BitsOf(data, 8))
    {
      RegisterCons(crc, Low(databyte), BitsOf(databyte >> 1, 7 - j));
      XorLow(crc, databyte);
      var temp := (crc ^ databyte) & 1;
      crc := crc >> 1;
      if temp != 0 {
        crc := crc ^ 0x8C;
      }
      databyte := databyte >> 1;
    }
  }

  /** `CRC8_calculation`. */
  method Calculate(data: seq<Word>) returns (crc: Word)
    ensures crc == Crc(data)
  {
    crc := 0;
    for i := 0 to |data|
      invariant crc == Crc(data[..i])
    {
      crc := AddBits(crc, data[i]);
      CrcOfPrefix(data, i);
    }
    assert data[..|data|] == data;
  }

  // ----- residue -----

  /** n rounds of the inner loop. */
  function Rounds(crc: Word, x: Word, n: nat): Word
    decreases n
  {
    if n == 0 then crc else Rounds(Shift(crc, Low(x)), x >> 1, n - 1)
  }

  lemma {:induction false} RoundsAreRegister(crc: Word, x: Word, n: nat)
    ensures Register(crc, BitsOf(x, n)) == Rounds(crc, x, n)
    decreases n
  {
    if n == 0 {
    } else {
      RegisterCons(crc, Low(x), BitsOf(x >> 1, n - 1));
      RoundsAreRegister(Shift(crc, Low(x)), x >> 1, n - 1);
    }
  }

  /** One byte brings the register to zero exactly when it equals the register. */
  lemma ByteCancels(crc: Word, x: Word)
    ensures Rounds(crc, x, 8) == 0 <==> x == crc
  {
  }

  /** A frame has residue zero exactly when its last byte is the CRC of what precedes it. */
  lemma ResidueIsZero(data: seq<Word>, x: Word)
    ensures Crc(data + [x]) == 0 <==> x == Crc(data)
  {
    CrcOfOneMore(data, x);
    RoundsAreRegister(Crc(data), x, 8);
    ByteCancels(Crc(data), x);
  }

  lemma CrcOfOneByte(x: Word)
    ensures Crc([x]) == Rounds(0, x, 8)
  {
    CrcOfOneMore([], x);
    assert [] + [x] == [x];
    RoundsAreRegister(0, x, 8);
  }

  /** Two entries of the published table of this CRC, for the lowest and the highest bit of a byte. */
  lemma TableEntries()
    ensures Crc([0x01]) == 0x5E && Crc([0x80]) == 0x8C
  {
    CrcOfOneByte(0x01);
    CrcOfOneByte(0x80);
  }

  // ----- linearity -----

  function XorBits(a: seq<bool>, b: seq<bool>): (r: seq<bool>)
    requires |a| == |b|
    ensures |r| == |a|
  {
    if a == [] then [] else [a[0] != b[0]] + XorBits(a[1..], b[1..])
  }

  function Xor(a: seq<Word>, b: seq<Word>): (r: seq<Word>)
    requires |a| == |b|
    ensures |r| == |a|
  {
    if a == [] then [] else [a[0] ^ b[0]] + Xor(a[1..], b[1..])
  }

  lemma Regroup(a: Word, b: Word, c: Word, d: Word)
    ensures (a ^ b) ^ (c ^ d) == (a ^ c) ^ (b ^ d)
  {
  }

  lemma ShiftIsLinear(x: Word, y: Word, p: bool, q: bool)
    ensures Shift(x ^ y, p != q) == Shift(x, p) ^ Shift(y, q)
  {
    assert (x ^ y) >> 1 == (x >> 1) ^ (y >> 1);
    XorLow(x, y);
    var f, g := Feedback(Low(x) != p), Feedback(Low(y) != q);
    assert Feedback(Low(x ^ y) != (p != q)) == f ^ g;
    Regroup(x >> 1, y >> 1, f, g);
  }

  ghost predicate LinearAt(x: Word, y: Word, a: seq<bool>, b: seq<bool>)
    requires |a| == |b|
  {
    Register(x ^ y, XorBits(a, b)) == Register(x, a) ^ Register(y, b)
  }

  lemma LinearCons(x: Word, y: Word, p: bool, q: bool, a: seq<bool>, b: seq<bool>)
    requires |a| == |b| && LinearAt(Shift(x, p), Shift(y, q), a, b)
    ensures LinearAt(x, y, [p] + a, [q] + b)
  {
    ShiftIsLinear(x, y, p, q);
    assert ([p] + a)[1..] == a && ([q] + b)[1..] == b;
    RegisterCons(x ^ y, p != q, XorBits(a, b));
  }

  lemma {:induction false} RegisterIsLinear(x: Word, y: Word, a: seq<bool>, b: seq<bool>)
    requires |a| == |b|
    ensures LinearAt(x, y, a, b)
    decreases |a|
  {
    if a == [] {
    } else {
      RegisterIsLinear(Shift(x, a[0]), Shift(y, b[0]), a[1..], b[1..]);
      LinearCons(x, y, a[0], b[0], a[1..], b[1..]);
      assert a == [a[0]] + a[1..] && b == [b[0]] + b[1..];
    }
  }

  lemma {:induction false} BitsOfXor(x: Word, y: Word, n: nat)
    ensures BitsOf(x ^ y, n) == XorBits(BitsOf(x, n), BitsOf(y, n))
    decreases n
  {
    if n == 0 {
    } else {
      XorLow(x, y);
      assert (x ^ y) >> 1 == (x >> 1) ^ (y >> 1);
      BitsOfXor(x >> 1, y >> 1, n - 1);
    }
  }

  lemma {:induction false} XorBitsConcat(a: seq<bool>, b: seq<bool>, c: seq<bool>, d: seq<bool>)
    requires |a| == |b| && |c| == |d|
    ensures XorBits(a + c, b + d) == XorBits(a, b) + XorBits(c, d)
    decreases |a|
  {
    if a == [] {
      assert a + c == c && b + d == d;
    } else {
      assert (a + c)[1..] == a[1..] + c && (b + d)[1..] == b[1..] + d;
      XorBitsConcat(a[1..], b[1..], c, d);
    }
  }

  lemma {:induction false} BitsOfXorAll(a: seq<Word>, b: seq<Word>)
    requires |a| == |b|
    ensures Bits(Xor(a, b)) == XorBits(Bits(a), Bits(b))
    decreases |a|
  {
    if a == [] {
    } else {
      BitsOfXor(a[0], b[0], 8);
      BitsOfXorAll(a[1..], b[1..]);
      XorBitsConcat(BitsOf(a[0], 8), BitsOf(b[0], 8), Bits(a[1..]), Bits(b[1..]));
      assert Xor(a, b)[1..] == Xor(a[1..], b[1..]);
    }
  }

  /** The CRC of messages of equal length is linear over exclusive or. */
  lemma CrcIsLinear(a: seq<Word>, b: seq<Word>)
    requires |a| == |b|
    ensures Crc(Xor(a, b)) == Crc(a) ^ Crc(b)
  {
    BitsOfXorAll(a, b);
    RegisterIsLinear(0, 0, Bits(a), Bits(b));
    assert LinearAt(0, 0, Bits(a), Bits(b));
  }

  // ----- error detection -----

  /** `ds18b20_read_temperature` accepts a frame when its CRC, taken over all bytes, is zero. */
  predicate Accepted(frame: seq<Word>) { Crc(frame) == 0 }

  /** `ds18b20_read_temperature` on the nine bytes read: status 0, or 1 when the check fails. */
  method ReadTemperature(data: seq<Word>) returns (status: nat)
    requires |data| == 9
    ensures status == if Accepted(data) then 0 else 1
    ensures status == 0 <==> data[8] == Crc(data[..8])
  {
    var res := Calculate(data);
    assert data == data[..8] + [data[8]];
    ResidueIsZero(data[..8], data[8]);
    status := if res != 0 then 1 else 0;
  }

  /** Whether an error pattern goes unnoticed does not depend on the frame it hits. */
  lemma ErrorsAreSeenByTheirCrc(frame: seq<Word>, error: seq<Word>)
    requires |frame| == |error| && Accepted(frame)
    ensures Accepted(Xor(frame, error)) <==> Crc(error) == 0
  {
    CrcIsLinear(frame, error);
    assert 0 ^ Crc(error) == Crc(error);
  }

  function Weight(bits: seq<bool>): nat
  {
    if bits == [] then 0 else (if bits[0] then 1 else 0) + Weight(bits[1..])
  }

  function Parity(x: Word): bool
  {
    var y := x ^ (x >> 4);
    var z := y ^ (y >> 2);
    Low(z ^ (z >> 1))
  }

  lemma ShiftKeepsParity(crc: Word, bit: bool)
    ensures Parity(Shift(crc, bit)) == (Parity(crc) != bit)
  {
  }

  /** The parity of the register is the parity of everything shifted in. */
  lemma {:induction false} ParityOfRegister(crc: Word, bits: seq<bool>)
    ensures Parity(Register(crc, bits)) == (Parity(crc) != (Weight(bits) % 2 == 1))
    decreases |bits|
  {
    if bits == [] {
    } else {
      ShiftKeepsParity(crc, bits[0]);
      ParityOfRegister(Shift(crc, bits[0]), bits[1..]);
    }
  }

  /** An error in an odd number of bits is always seen. */
  lemma OddErrorsAreSeen(error: seq<Word>)
    requires Weight(Bits(error)) % 2 == 1
    ensures Crc(error) != 0
  {
    ParityOfRegister(0, Bits(error));
    assert !Parity(0);
  }

  lemma ZeroBitKeepsZero(crc: Word)
    ensures Shift(crc, false) == 0 <==> crc == 0
  {
  }

  lemma {:induction false} ZeroBitsKeepNonzero(crc: Word, bits: seq<bool>)
    requires Weight(bits) == 0
    ensures Register(crc, bits) == 0 <==> crc == 0
    decreases |bits|
  {
    if bits == [] {
    } else {
      ZeroBitKeepsZero(crc);
      ZeroBitsKeepNonzero(Shift(crc, bits[0]), bits[1..]);
    }
  }

  /** All wrong bits lie in the eight positions from p on. */
  ghost predicate InsideWindow(bits: seq<bool>, p: nat)
  {
    p + 8 <= |bits| && forall i :: 0 <= i < |bits| && bits[i] ==> p <= i < p + 8
  }

  lemma RegisterTwo(crc: Word, bits: seq<bool>)
    requires |bits| >= 2
    ensures Register(crc, bits) == Register(Shift(Shift(crc, bits[0]), bits[1]), bits[2..])
  {
  }

  lemma EightBitsCount(w: seq<bool>)
    requires |w| == 8 && Register(0, w) == 0
    ensures forall i :: 0 <= i < 8 ==> !w[i]
  {
    var c2 := Shift(Shift(0, w[0]), w[1]);
    var c4 := Shift(Shift(c2, w[2]), w[3]);
    var c6 := Shift(Shift(c4, w[4]), w[5]);
    RegisterTwo(0, w);
    RegisterTwo(c2, w[2..]);
    RegisterTwo(c4, w[2..][2..]);
    RegisterTwo(c6, w[2..][2..][2..]);
    assert Shift(Shift(c6, w[6]), w[7]) == 0;
  }

  lemma {:induction false} NoBits(bits: seq<bool>)
    requires forall i :: 0 <= i < |bits| ==> !bits[i]
    ensures Weight(bits) == 0
    decreases |bits|
  {
    if bits == [] {
    } else {
      NoBits(bits[1..]);
    }
  }

  /** A burst of at most eight bits, wherever it starts, is always seen. */
  lemma {:induction false} BurstsAreSeen(bits: seq<bool>, p: nat)
    requires InsideWindow(bits, p) && exists i :: 0 <= i < |bits| && bits[i]
    ensures Register(0, bits) != 0
    decreases p
  {
    if p > 0 {
      ZeroBitKeepsZero(0);
      assert !bits[0];
      var i :| 0 <= i < |bits| && bits[i];
      assert bits[1..][i - 1];
      BurstsAreSeen(bits[1..], p - 1);
    } else {
      var w, rest := bits[..8], bits[8..];
      assert bits == w + rest;
      RegisterConcat(0, w, rest);
      NoBits(rest);
      ZeroBitsKeepNonzero(Register(0, w), rest);
      var i :| 0 <= i < |bits| && bits[i];
      assert w[i];
      if Register(0, w) == 0 {
        EightBitsCount(w);
      }
    }
  }

  // ----- two wrong bits -----

  /** The register after n zero bits. */
  function Coast(crc: Word, n: nat): Word
    decreases n
  {
    if n == 0 then crc else Coast(Shift(crc, false), n - 1)
  }

  lemma {:induction false} CoastOn(crc: Word, a: nat, b: nat)
    ensures Coast(crc, a + b) == Coast(Coast(crc, a), b)
    decreases a
  {
    if a == 0 {
    } else {
      CoastOn(Shift(crc, false), a - 1, b);
    }
  }

  /** Zero bits bring the register to 1 for the first time after exactly n of them. */
  predicate FirstOneAfter(crc: Word, n: nat)
    decreases n
  {
    if n == 0 then crc == 1 else crc != 1 && FirstOneAfter(Shift(crc, false), n - 1)
  }

  lemma {:induction false} FirstOneIsFirst(crc: Word, n: nat, k: nat)
    requires FirstOneAfter(crc, n) && k <= n
    ensures Coast(crc, k) == 1 <==> k == n
    decreases k
  {
    if k == 0 {
    } else {
      FirstOneIsFirst(Shift(crc, false), n - 1, k - 1);
    }
  }

  predicate Passes(crc: Word, next: Word) { crc != 1 && Shift(crc, false) == next }

  lemma SevenMore(crc: Word, next: Word, n: nat)
    requires var c1 := Shift(crc, false); var c2 := Shift(c1, false); var c3 := Shift(c2, false);
             var c4 := Shift(c3, false); var c5 := Shift(c4, false); var c6 := Shift(c5, false);
             && Passes(crc, c1) && Passes(c1, c2) && Passes(c2, c3) && Passes(c3, c4) && Passes(c4, c5)
             && Passes(c5, c6) && Passes(c6, next)
    requires FirstOneAfter(next, n)
    ensures FirstOneAfter(crc, n + 7)
  {
    var c2 := Shift(Shift(crc, false), false);
    var c4 := Shift(Shift(c2, false), false);
    var c6 := Shift(Shift(c4, false), false);
    assert FirstOneAfter(c6, n + 1);
    assert FirstOneAfter(c4, n + 3);
    assert FirstOneAfter(c2, n + 5);
  }

  lemma SecondHalfOfCycle()
    ensures FirstOneAfter(0x43, 63)
  {
    SevenMore(0x80, 0x01, 0);
    SevenMore(0x16, 0x80, 7);
    SevenMore(0xE3, 0x16, 14);
    SevenMore(0x0D, 0xE3, 21);
    SevenMore(0xD6, 0x0D, 28);
    SevenMore(0xFE, 0xD6, 35);
    SevenMore(0x13, 0xFE, 42);
    SevenMore(0x51, 0x13, 49);
    SevenMore(0x43, 0x51, 56);
  }

  /** The polynomial has order 127: a single one bit comes round to 1 after 126 zero bits, not before. */
  lemma OrderIs127()
    ensures FirstOneAfter(0x8C, 126)
  {
    SecondHalfOfCycle();
    SevenMore(0x92, 0x43, 63);
    SevenMore(0xC7, 0x92, 70);
    SevenMore(0xB6, 0xC7, 77);
    SevenMore(0x7C, 0xB6, 84);
    SevenMore(0x1C, 0x7C, 91);
    SevenMore(0x9E, 0x1C, 98);
    SevenMore(0x91, 0x9E, 105);
    SevenMore(0x5E, 0x91, 112);
    SevenMore(0x8C, 0x5E, 119);
  }

  lemma {:induction false} CycleExactly(k: nat)
    ensures Coast(0x8C, k) == 1 <==> k % 127 == 126
    decreases k
  {
    OrderIs127();
    if k <= 126 {
      FirstOneIsFirst(0x8C, 126, k);
    } else {
      FirstOneIsFirst(0x8C, 126, 126);
      CoastOn(0x8C, 126, 1);
      assert Coast(1, 1) == Coast(0x8C, 0) == 0x8C;
      CoastOn(0x8C, 127, k - 127);
      CycleExactly(k - 127);
    }
  }

  lemma OneBitCancelsOne(crc: Word)
    ensures Shift(crc, true) == 0 <==> crc == 1
  {
  }

  /** The only wrong bit is at j. */
  ghost predicate OnlyAt(bits: seq<bool>, j: nat)
  {
    j < |bits| && forall k :: 0 <= k < |bits| ==> (bits[k] <==> k == j)
  }

  /** The only wrong bits are at i and j. */
  ghost predicate TwoAt(bits: seq<bool>, i: nat, j: nat)
  {
    i < j < |bits| && forall k :: 0 <= k < |bits| ==> (bits[k] <==> k == i || k == j)
  }

  lemma {:induction false} SecondBitCancelsExactly(k: nat, bits: seq<bool>, j: nat)
    requires OnlyAt(bits, j)
    ensures Register(Coast(0x8C, k), bits) == 0 <==> (k + j) % 127 == 126
    decreases j
  {
    var c := Coast(0x8C, k);
    if j == 0 {
      CycleExactly(k);
      OneBitCancelsOne(c);
      NoBits(bits[1..]);
      ZeroBitsKeepNonzero(Shift(c, true), bits[1..]);
    } else {
      CoastOn(0x8C, k, 1);
      assert Coast(c, 1) == Coast(Shift(c, false), 0) == Shift(c, false);
      SecondBitCancelsExactly(k + 1, bits[1..], j - 1);
    }
  }

  /** Two wrong bits in a frame of any length cancel exactly when their distance is a multiple of 127. */
  lemma {:induction false} DoubleErrorsCancelExactly(bits: seq<bool>, i: nat, j: nat)
    requires TwoAt(bits, i, j)
    ensures Register(0, bits) == 0 <==> (j - i) % 127 == 0
    decreases i
  {
    if i == 0 {
      assert Shift(0, true) == 0x8C == Coast(0x8C, 0);
      SecondBitCancelsExactly(0, bits[1..], j - 1);
    } else {
      ZeroBitKeepsZero(0);
      DoubleErrorsCancelExactly(bits[1..], i - 1, j - 1);
    }
  }

  lemma {:induction false} NoneSet(bits: seq<bool>)
    requires Weight(bits) == 0
    ensures forall k :: 0 <= k < |bits| ==> !bits[k]
    decreases |bits|
  {
    if bits == [] {
    } else {
      NoneSet(bits[1..]);
      assert forall k :: 0 < k < |bits| ==> bits[k] == bits[1..][k - 1];
    }
  }

  lemma {:induction false} PositionOfOne(bits: seq<bool>) returns (j: nat)
    requires Weight(bits) == 1
    ensures OnlyAt(bits, j)
    decreases |bits|
  {
    assert forall k :: 0 < k < |bits| ==> bits[k] == bits[1..][k - 1];
    if bits[0] {
      NoneSet(bits[1..]);
      j := 0;
    } else {
      j := PositionOfOne(bits[1..]);
      j := j + 1;
    }
  }

  lemma {:induction false} PositionsOfTwo(bits: seq<bool>) returns (i: nat, j: nat)
    requires Weight(bits) == 2
    ensures TwoAt(bits, i, j)
    decreases |bits|
  {
    assert forall k :: 0 < k < |bits| ==> bits[k] == bits[1..][k - 1];
    if bits[0] {
      j := PositionOfOne(bits[1..]);
      i, j := 0, j + 1;
    } else {
      i, j := PositionsOfTwo(bits[1..]);
      i, j := i + 1, j + 1;
    }
  }

  /** So two wrong bits in a frame of at most 127 bits are always seen. */
  lemma {:induction false} DoubleErrorsAreSeen(bits: seq<bool>)
    requires Weight(bits) == 2 && |bits| <= 127
    ensures Register(0, bits) != 0
  {
    var i, j := PositionsOfTwo(bits);
    DoubleErrorsCancelExactly(bits, i, j);
  }

  /**
   What the check protects against, for every frame that was sent correctly: an odd number of
   wrong bits or a burst of at most eight bits in a frame of any length, and two wrong bits
   unless their distance is a multiple of 127; so up to three wrong bits in the nine bytes of
   the scratchpad.
   */
  lemma {:induction false} CorruptionIsRejected(frame: seq<Word>, error: seq<Word>)
    requires |frame| == |error| && Accepted(frame)
    ensures Weight(Bits(error)) % 2 == 1 ==> !Accepted(Xor(frame, error))
    ensures forall i, j :: TwoAt(Bits(error), i, j) ==> (Accepted(Xor(frame, error)) <==> (j - i) % 127 == 0)
    ensures Weight(Bits(error)) == 2 && |frame| <= 15 ==> !Accepted(Xor(frame, error))
    ensures (exists i, p: nat :: 0 <= i < |Bits(error)| && Bits(error)[i] && InsideWindow(Bits(error), p)) ==>
      !Accepted(Xor(frame, error))
  {
    var bits := Bits(error);
    ErrorsAreSeenByTheirCrc(frame, error);
    if Weight(bits) % 2 == 1 {
      OddErrorsAreSeen(error);
    }
    forall i: nat, j: nat | TwoAt(bits, i, j)
      ensures Register(0, bits) == 0 <==> (j - i) % 127 == 0
    {
      DoubleErrorsCancelExactly(bits, i, j);
    }
    if Weight(bits) == 2 && |frame| <= 15 {
      DoubleErrorsAreSeen(bits);
    }
    if i, p: nat :| 0 <= i < |bits| && bits[i] && InsideWindow(bits, p) {
      BurstsAreSeen(bits, p);
    }
  }

  // ----- the register is a polynomial remainder -----

  /** x^8 + x^5 + x^4 + 1, highest coefficient first. */
  const GENERATOR := [true, false, false, true, true, false, false, false, true]

  function Zeros(n: nat): (r: seq<bool>)
    ensures |r| == n && forall k :: 0 <= k < n ==> !r[k]
  {
    seq(n, _ => false)
  }

  /** The sum of p and of q times the power of x that lines up their highest coefficients. */
  function AddFront(p: seq<bool>, q: seq<bool>): (r: seq<bool>)
    requires |q| <= |p|
    ensures |r| == |p|
    ensures forall k :: 0 <= k < |p| ==> r[k] == if k < |q| then p[k] != q[k] else p[k]
  {
    seq(|p|, k requires 0 <= k < |p| => if k < |q| then p[k] != q[k] else p[k])
  }

  /** One step of long division by the generator: the highest coefficient is gone. */
  function Reduced(p: seq<bool>): (r: seq<bool>)
    requires |p| > 8
    ensures |r| == |p| - 1
  {
    (if p[0] then AddFront(p, GENERATOR) else p)[1..]
  }

  function Remainder(p: seq<bool>): seq<bool>
    decreases |p|
  {
    if |p| <= 8 then p else Remainder(Reduced(p))
  }

  function Quotient(p: seq<bool>): (q: seq<bool>)
    ensures |q| == if |p| <= 8 then 0 else |p| - 8
    decreases |p|
  {
    if |p| <= 8 then [] else [p[0]] + Quotient(Reduced(p))
  }

  /** The product t with one more coefficient of the quotient in front. */
  function Raised(on: bool, t: seq<bool>): (r: seq<bool>)
    requires 8 <= |t|
    ensures |r| == |t| + 1
  {
    if on then AddFront([false] + t, GENERATOR) else [false] + t
  }

  /** The product with the generator. */
  function Times(q: seq<bool>): (r: seq<bool>)
    ensures |r| == |q| + 8
    decreases |q|
  {
    if q == [] then Zeros(8) else Raised(q[0], Times(q[1..]))
  }

  /** The sum of t and a polynomial of degree below 8. */
  function Plus(t: seq<bool>, r: seq<bool>): (s: seq<bool>)
    requires 8 == |r| <= |t|
    ensures |s| == |t|
    ensures forall k :: 0 <= k < |t| ==> s[k] == if k < |t| - 8 then t[k] else t[k] != r[k - (|t| - 8)]
  {
    seq(|t|, k requires 0 <= k < |t| => if k < |t| - 8 then t[k] else t[k] != r[k - (|t| - 8)])
  }

  lemma ReducedAt(p: seq<bool>, k: nat)
    requires 8 < |p| && k + 1 < |p|
    ensures Reduced(p)[k] == (p[k + 1] != (p[0] && k < 8 && GENERATOR[k + 1]))
  {
  }

  lemma RaisedAt(on: bool, t: seq<bool>, k: nat)
    requires 8 <= |t| && k < |t|
    ensures Raised(on, t)[k + 1] == (t[k] != (on && k < 8 && GENERATOR[k + 1]))
  {
  }

  /** A division step takes back what one more coefficient of the quotient adds. */
  lemma ReduceRaised(on: bool, t: seq<bool>, r: seq<bool>)
    requires 8 == |r| <= |t|
    ensures Plus(Raised(on, t), r)[0] == on
    ensures Reduced(Plus(Raised(on, t), r)) == Plus(t, r)
  {
    var p := Plus(Raised(on, t), r);
    assert p[0] == on;
    forall k | 0 <= k < |t| ensures Reduced(p)[k] == Plus(t, r)[k] {
      ReducedAt(p, k);
      RaisedAt(on, t, k);
    }
  }

  /** A polynomial is known by its highest coefficient and what a division step leaves of it. */
  lemma ReducedIsInjective(p: seq<bool>, p': seq<bool>)
    requires 8 < |p| == |p'| && p[0] == p'[0] && Reduced(p) == Reduced(p')
    ensures p == p'
  {
    forall k | 1 <= k < |p| ensures p[k] == p'[k] {
      ReducedAt(p, k - 1);
      ReducedAt(p', k - 1);
    }
  }

  /** Long division divides: p is quotient times generator plus a remainder of degree below 8. */
  lemma {:induction false} DivisionIdentity(p: seq<bool>)
    requires 8 <= |p|
    ensures |Remainder(p)| == 8
    ensures p == Plus(Times(Quotient(p)), Remainder(p))
    decreases |p|
  {
    if |p| == 8 {
    } else {
      DivisionIdentity(Reduced(p));
      var q := Quotient(Reduced(p));
      assert Quotient(p)[1..] == q;
      ReduceRaised(p[0], Times(q), Remainder(p));
      ReducedIsInjective(p, Plus(Raised(p[0], Times(q)), Remainder(p)));
    }
  }

  /** There is no other way to divide. */
  lemma {:induction false} DivisionIsUnique(q: seq<bool>, r: seq<bool>)
    requires |r| == 8
    ensures Quotient(Plus(Times(q), r)) == q && Remainder(Plus(Times(q), r)) == r
    decreases |q|
  {
    if q == [] {
      assert Plus(Zeros(8), r) == r;
    } else {
      ReduceRaised(q[0], Times(q[1..]), r);
      DivisionIsUnique(q[1..], r);
    }
  }

  lemma {:induction false} XorBitsAt(a: seq<bool>, b: seq<bool>, k: nat)
    requires |a| == |b| && k < |a|
    ensures XorBits(a, b)[k] == (a[k] != b[k])
    decreases |a|
  {
    if k == 0 {
    } else {
      XorBitsAt(a[1..], b[1..], k - 1);
    }
  }

  lemma {:induction false} LastBits(c: Word, n: nat)
    requires n < 8 && c >> (n as bv4) == 0
    ensures BitsOf(c, n + 1) == BitsOf(c, n) + [false]
    decreases n
  {
    if n == 0 {
    } else {
      assert (c >> 1) >> ((n - 1) as bv4) == 0;
      LastBits(c >> 1, n - 1);
    }
  }

  /** The coefficient bits of a register, one place further on. */
  lemma ShiftedBits(c: Word)
    ensures BitsOf(c >> 1, 8) == BitsOf(c, 8)[1..] + [false]
  {
    assert BitsOf(c, 8)[1..] == BitsOf(c >> 1, 7);
    LastBits(c >> 1, 7);
  }

  lemma TwoBitsMore(x: Word, y: Word, n: nat)
    requires y == x >> 1 >> 1
    ensures BitsOf(x, n + 2) == [Low(x), Low(x >> 1)] + BitsOf(y, n)
  {
    var a, b, c := [Low(x)], [Low(x >> 1)], BitsOf(y, n);
    assert BitsOf(x >> 1, n + 1) == b + c;
    assert BitsOf(x, n + 2) == a + (b + c);
    assert a + (b + c) == (a + b) + c;
  }

  lemma FeedbackBits(on: bool)
    ensures BitsOf(Feedback(on), 8) == if on then GENERATOR[1..] else Zeros(8)
  {
    if on {
      TwoBitsMore(0x8C, 0x23, 6);
      TwoBitsMore(0x23, 0x08, 4);
      TwoBitsMore(0x08, 0x02, 2);
      TwoBitsMore(0x02, 0x00, 0);
    } else {
      TwoBitsMore(0, 0, 6);
      TwoBitsMore(0, 0, 4);
      TwoBitsMore(0, 0, 2);
      TwoBitsMore(0, 0, 0);
    }
  }

  /** One step of long division on coefficients, with the parts that make up the new register. */
  lemma AddThenReduce(bits: seq<bool>, c: seq<bool>)
    requires bits != [] && |c| == 8
    ensures var feedback := if c[0] != bits[0] then GENERATOR[1..] else Zeros(8);
      Reduced(AddFront(bits + Zeros(8), c)) == AddFront(bits[1..] + Zeros(8), XorBits(c[1..] + [false], feedback))
  {
    var feedback := if c[0] != bits[0] then GENERATOR[1..] else Zeros(8);
    var half := c[1..] + [false];
    forall k | 0 <= k < 8 ensures XorBits(half, feedback)[k] == (half[k] != feedback[k]) {
      XorBitsAt(half, feedback, k);
    }
    var p, q, r := bits + Zeros(8), bits[1..] + Zeros(8), AddFront(bits + Zeros(8), c);
    forall k | 0 <= k < |q| ensures Reduced(r)[k] == AddFront(q, XorBits(half, feedback))[k] {
      ReducedAt(r, k);
      assert q[k] == p[k + 1];
      assert k < 8 ==> feedback[k] == (r[0] && GENERATOR[k + 1]);
    }
  }

  lemma NextRegister(c: Word, bit: bool)
    ensures BitsOf(Shift(c, bit), 8) ==
      XorBits(BitsOf(c, 8)[1..] + [false], if Low(c) != bit then GENERATOR[1..] else Zeros(8))
  {
    ShiftedBits(c);
    FeedbackBits(Low(c) != bit);
    BitsOfXor(c >> 1, Feedback(Low(c) != bit), 8);
  }

  /** Shifting one bit into the register is one step of long division. */
  lemma ShiftDivides(c: Word, bits: seq<bool>)
    requires bits != []
    ensures Reduced(AddFront(bits + Zeros(8), BitsOf(c, 8))) ==
            AddFront(bits[1..] + Zeros(8), BitsOf(Shift(c, bits[0]), 8))
  {
    NextRegister(c, bits[0]);
    assert BitsOf(c, 8)[0] == Low(c);
    AddThenReduce(bits, BitsOf(c, 8));
  }

  lemma {:induction false} RegisterIsRemainder(c: Word, bits: seq<bool>)
    ensures BitsOf(Register(c, bits), 8) == Remainder(AddFront(bits + Zeros(8), BitsOf(c, 8)))
    decreases |bits|
  {
    if bits == [] {
      assert AddFront(bits + Zeros(8), BitsOf(c, 8)) == BitsOf(c, 8);
    } else {
      ShiftDivides(c, bits);
      RegisterIsRemainder(Shift(c, bits[0]), bits[1..]);
    }
  }

  /** The CRC of a message is the remainder of the message times x^8 after division by the generator. */
  lemma CrcIsRemainder(data: seq<Word>)
    ensures BitsOf(Crc(data), 8) == Remainder(Bits(data) + Zeros(8))
  {
    RegisterIsRemainder(0, Bits(data));
    FeedbackBits(false);
    assert AddFront(Bits(data) + Zeros(8), Zeros(8)) == Bits(data) + Zeros(8);
  }
}
