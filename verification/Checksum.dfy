/**
 CRC-8/MAXIM (polynomial x^8 + x^5 + x^4 + 1, reflected 0x8C, initial value 0;
 Maxim Application Note 27), as the host and the device compute it.

 The specification is a shift register over the bits of the data: Shift feeds it a
 sequence of bits, LSB-first. The two loops are proved to compute it, and the error
 detection theorems rest on four facts about it: it is linear, it keeps parity, its
 zero-input step is invertible, and that step brings 0x01 back after every 127 turns.
 */
module Checksum {
  import opened Arithmetic
  import opened BitStrings
  import opened Bytes
  import BitVectors

  // ---- The shift register ----

  type Reg = r: seq<bool> | |r| == 8 witness seq(8, _ => false)

  const ZERO: Reg := [false, false, false, false, false, false, false, false]

  /** One step of the register on input bit i: 0x8C has bits 2, 3 and 7. */
  function Step(c: Reg, i: bool): Reg {
    var mix := c[0] != i;
    seq(8, k requires 0 <= k < 8 => (k < 7 && c[k + 1]) != (mix && k in {2, 3, 7}))
  }

  function Shift(c: Reg, bits: seq<bool>): Reg
    decreases |bits|
  {
    if bits == [] then c else Shift(Step(c, bits[0]), bits[1..])
  }

  /** The register that a byte holds. */
  function View(b: byte): Reg {
    seq(8, k requires 0 <= k < 8 => Bit(b, k))
  }

  /** The low n bits of a register as a vector, and a whole register as a byte. */
  function Pack(r: Reg, n: nat): bv8
    requires n <= 8
  {
    if n == 0 then 0 else if r[n - 1] then Pack(r, n - 1) | (1 << (n - 1)) else Pack(r, n - 1)
  }

  function ByteOf(r: Reg): byte {
    FromVector(Pack(r, 8))
  }

  /** The bits of a buffer in the order in which they enter the register. */
  function BitsOf(data: seq<byte>): (bits: seq<bool>)
    ensures |bits| == 8 * |data|
  {
    seq(8 * |data|, k requires 0 <= k < 8 * |data| => BitAt(data, k))
  }

  function Crc(data: seq<byte>): byte {
    ByteOf(Shift(ZERO, BitsOf(data)))
  }

  lemma {:induction false} BitsOfPack(r: Reg, n: nat, k: nat)
    requires n <= 8 && k < 8
    ensures BitVectors.Bit(Pack(r, n), k) == (k < n && r[k])
  {
    if n == 0 {
      BitVectors.BitOfZero(k);
    } else {
      BitsOfPack(r, n - 1, k);
      BitVectors.OrMaskSetsBit(Pack(r, n - 1), n - 1, k);
    }
  }

  lemma ViewOfByteOf(r: Reg)
    ensures View(ByteOf(r)) == r
  {
    var v := Pack(r, 8);
    hide FromVector, Vector;
    VectorOfFromVector(v);
    forall k: nat | k < 8 ensures Bit(ByteOf(r), k) == r[k] { BitsOfPack(r, 8, k); }
  }

  lemma ViewIsInjective(x: byte, y: byte)
    requires View(x) == View(y)
    ensures x == y
  {
    hide Bit;
    forall k: nat | k < 8
      ensures Bit(x, k) == Bit(y, k)
    {
      assert View(x)[k] == View(y)[k];
    }
    SameBitsSameByte(x, y);
  }

  lemma ViewOfCrc(data: seq<byte>)
    ensures View(Crc(data)) == Shift(ZERO, BitsOf(data))
  {
    ViewOfByteOf(Shift(ZERO, BitsOf(data)));
  }

  lemma {:induction false} ShiftConcat(c: Reg, a: seq<bool>, b: seq<bool>)
    ensures Shift(c, a + b) == Shift(Shift(c, a), b)
    decreases |a|
  {
    if a == [] {
      assert a + b == b;
    } else {
      assert (a + b)[1..] == a[1..] + b;
      ShiftConcat(Step(c, a[0]), a[1..], b);
    }
  }

  lemma BitsOfConcat(a: seq<byte>, b: seq<byte>)
    ensures BitsOf(a + b) == BitsOf(a) + BitsOf(b)
  {
  }

  // ---- The loops ----

  /** The register that a vector holds. */
  function Lanes(v: bv8): Reg {
    seq(8, k requires 0 <= k < 8 => BitVectors.Bit(v, k))
  }

  lemma LanesOfVector(b: byte)
    ensures Lanes(Vector(b)) == View(b)
  {
  }

  lemma FeedbackBits(k: nat)
    requires k < 8
    ensures BitVectors.Bit(0x8C, k) == (k in {2, 3, 7})
  {
    if k == 0 {} else if k == 1 {} else if k == 2 {} else if k == 3 {}
    else if k == 4 {} else if k == 5 {} else if k == 6 {} else {}
  }

  lemma MixBit(c: bv8, i: bv8)
    ensures (c ^ i) & 1 != 0 <==> Lanes(c)[0] != Lanes(i)[0]
  {
    BitVectors.BitIsMask(c ^ i, 0);
    BitVectors.BitOfXor(c, i, 0);
  }

  lemma ShiftedLanes(c: bv8, shifted: bv8)
    requires shifted == c >> 1
    ensures Lanes(shifted) == Lanes(c)[1..] + [false]
  {
    forall k: nat | k < 8 ensures Lanes(shifted)[k] == (k < 7 && Lanes(c)[k + 1]) { BitVectors.BitOfShift(c, k); }
  }

  lemma FeedbackLanes(c: bv8, fed: bv8)
    requires fed == c ^ 0x8C
    ensures forall k: nat | k < 8 :: Lanes(fed)[k] == (Lanes(c)[k] != (k in {2, 3, 7}))
  {
    forall k: nat | k < 8
      ensures Lanes(fed)[k] == (Lanes(c)[k] != (k in {2, 3, 7}))
    {
      BitVectors.BitOfXor(c, 0x8C, k);
      FeedbackBits(k);
    }
  }

  /** The register step on bytes, as both loops write it. */
  lemma StepOnVectors(c: bv8, i: bv8, shifted: bv8, fed: bv8, next: bv8)
    requires shifted == c >> 1 && fed == shifted ^ 0x8C
    requires next == if (c ^ i) & 1 != 0 then fed else shifted
    ensures Lanes(next) == Step(Lanes(c), Lanes(i)[0])
  {
    hide Lanes;
    MixBit(c, i);
    ShiftedLanes(c, shifted);
    FeedbackLanes(shifted, fed);
  }

  lemma ShiftOneMore(data: seq<byte>, i: nat, j: nat)
    requires i < |data| && j < 8
    ensures Shift(ZERO, BitsOf(data)[..8 * i + j + 1]) == Step(Shift(ZERO, BitsOf(data)[..8 * i + j]), View(data[i])[j])
  {
    hide Bit;
    var k := 8 * i + j;
    assert k / 8 == i && k % 8 == j;
    assert BitsOf(data)[..k + 1] == BitsOf(data)[..k] + [BitsOf(data)[k]];
    ShiftConcat(ZERO, BitsOf(data)[..k], [BitsOf(data)[k]]);
  }

  /** What the loops of Crc8 know: j bits of byte i are in the register, the others are still in inbyte. */
  predicate Progress(data: seq<byte>, i: nat, j: nat, reg: Reg, inbyte: Reg)
    requires i < |data| && j <= 8
  {
    && inbyte[..8 - j] == View(data[i])[j..]
    && reg == Shift(ZERO, BitsOf(data)[..8 * i + j])
  }

  lemma InnerStep(data: seq<byte>, i: nat, j: nat, reg: Reg, inbyte: Reg, next: Reg, rest: Reg)
    requires i < |data| && j < 8 && Progress(data, i, j, reg, inbyte)
    requires next == Step(reg, inbyte[0]) && rest == inbyte[1..] + [false]
    ensures Progress(data, i, j + 1, next, rest)
  {
    hide View, BitsOf, Step;
    ShiftOneMore(data, i, j);
    assert inbyte[0] == inbyte[..8 - j][0] == View(data[i])[j..][0];
    assert rest[..8 - (j + 1)] == inbyte[..8 - j][1..];
  }

  /** `crc8` on the host and `Runtime_crc8` on the device. */
  method Crc8(data: seq<byte>) returns (crc: byte)
    ensures crc == Crc(data)
  {
    hide Lanes, View, BitsOf, Vector, FromVector, Step;
    var reg: bv8 := 0;
    LanesOfZero();
    for i := 0 to |data|
      invariant Lanes(reg) == Shift(ZERO, BitsOf(data)[..8 * i])
    {
      var inbyte := Vector(data[i]);
      LanesOfVector(data[i]);
      for j := 0 to 8
        invariant Progress(data, i, j, Lanes(reg), Lanes(inbyte))
      {
        ghost var reg0, inbyte0 := reg, inbyte;
        var mix := (reg ^ inbyte) & 1;
        reg := reg >> 1;
        if mix != 0 {
          reg := reg ^ 0x8C;
        }
        inbyte := inbyte >> 1;
        StepOnVectors(reg0, inbyte0, reg0 >> 1, (reg0 >> 1) ^ 0x8C, reg);
        ShiftedLanes(inbyte0, inbyte);
        InnerStep(data, i, j, Lanes(reg0), Lanes(inbyte0), Lanes(reg), Lanes(inbyte));
      }
    }
    assert BitsOf(data)[..8 * |data|] == BitsOf(data);
    crc := FromVector(reg);
    ViewOfCrc(data);
    VectorOfFromVector(reg);
    LanesOfVector(crc);
    ViewIsInjective(crc, Crc(data));
  }

  lemma LanesOfZero()
    ensures Lanes(0) == ZERO
  {
    forall k: nat | k < 8 ensures !BitVectors.Bit(0, k) { BitVectors.BitOfZero(k); }
  }

  // ---- Linearity ----

  function Xor(x: seq<bool>, y: seq<bool>): (z: seq<bool>)
    requires |x| == |y|
    ensures |z| == |x|
  {
    seq(|x|, k requires 0 <= k < |x| => x[k] != y[k])
  }

  lemma XorIsZero(c: Reg, w: Reg)
    ensures Xor(c, w) == ZERO <==> c == w
  {
    if Xor(c, w) == ZERO {
      forall k | 0 <= k < 8 ensures c[k] == w[k] { assert Xor(c, w)[k] == ZERO[k]; }
    }
    if w == c {
      assert Xor(c, w) == ZERO;
    }
  }

  lemma StepIsLinear(c: Reg, d: Reg, i: bool, j: bool)
    ensures Step(Xor(c, d), i != j) == Xor(Step(c, i), Step(d, j))
  {
  }

  lemma {:induction false} ShiftIsLinear(c: Reg, d: Reg, x: seq<bool>, y: seq<bool>)
    requires |x| == |y|
    ensures Shift(Xor(c, d), Xor(x, y)) == Xor(Shift(c, x), Shift(d, y))
    decreases |x|
  {
    if x != [] {
      StepIsLinear(c, d, x[0], y[0]);
      assert Xor(x, y)[1..] == Xor(x[1..], y[1..]);
      ShiftIsLinear(Step(c, x[0]), Step(d, y[0]), x[1..], y[1..]);
    }
  }

  // ---- Parity ----

  function Weight(bits: seq<bool>): nat {
    if bits == [] then 0 else (if bits[0] then 1 else 0) + Weight(bits[1..])
  }

  predicate Odd(bits: seq<bool>) {
    Weight(bits) % 2 == 1
  }

  lemma OddCons(b: bool, bits: seq<bool>)
    ensures Odd([b] + bits) == (b != Odd(bits))
  {
    assert ([b] + bits)[1..] == bits;
  }

  lemma ParityOf4(s: seq<bool>, tail: seq<bool>)
    requires |s| >= 4 && tail == s[4..]
    ensures Odd(s) == (s[0] != (s[1] != (s[2] != (s[3] != Odd(tail)))))
  {
    assert s == [s[0]] + ([s[1]] + ([s[2]] + ([s[3]] + tail)));
    OddCons(s[3], tail);
    OddCons(s[2], [s[3]] + tail);
    OddCons(s[1], [s[2]] + ([s[3]] + tail));
    OddCons(s[0], [s[1]] + ([s[2]] + ([s[3]] + tail)));
  }

  lemma ParityOf8(c: Reg)
    ensures Odd(c) == (c[0] != (c[1] != (c[2] != (c[3] != Odd(c[4..])))))
    ensures Odd(c[4..]) == (c[4] != (c[5] != (c[6] != c[7])))
  {
    ParityOf4(c, c[4..]);
    ParityOf4(c[4..], []);
  }

  /** The feedback flips an even number of register bits when the input bit is 0, and an odd number when it is 1. */
  lemma StepKeepsParity(c: Reg, i: bool)
    ensures Odd(Step(c, i)) == (Odd(c) != i)
  {
    ParityOf8(c);
    ParityOf8(Step(c, i));
  }

  lemma {:induction false} ShiftKeepsParity(c: Reg, bits: seq<bool>)
    ensures Odd(Shift(c, bits)) == (Odd(c) != Odd(bits))
    decreases |bits|
  {
    if bits != [] {
      assert bits == [bits[0]] + bits[1..];
      OddCons(bits[0], bits[1..]);
      StepKeepsParity(c, bits[0]);
      ShiftKeepsParity(Step(c, bits[0]), bits[1..]);
    }
  }

  // ---- Bursts ----

  /** Up to eight bits, low end first, as a register. */
  function Pad(w: seq<bool>): Reg
    requires |w| <= 8
  {
    w + Zeros(8 - |w|)
  }

  /** Feeding up to eight bits is the same as adding them into the register and feeding zeros. */
  lemma {:induction false} FoldInput(c: Reg, w: seq<bool>)
    requires |w| <= 8
    ensures Shift(c, w) == Shift(Xor(c, Pad(w)), Zeros(|w|))
    decreases |w|
  {
    if w == [] {
      assert Xor(c, Pad(w)) == c;
    } else {
      StepIsLinear(c, Pad(w), w[0], w[0]);
      assert Step(Pad(w), w[0]) == Pad(w[1..]);
      assert Zeros(|w|)[1..] == Zeros(|w| - 1);
      FoldInput(Step(c, w[0]), w[1..]);
    }
  }

  /** The zero-input step loses nothing: a register reaches 0 on zeros only from 0. */
  lemma {:induction false} ZerosAreInvertible(c: Reg, n: nat)
    ensures Shift(c, Zeros(n)) == ZERO <==> c == ZERO
    decreases n
  {
    if n > 0 {
      var d := Step(c, false);
      assert Zeros(n)[1..] == Zeros(n - 1);
      ZerosAreInvertible(d, n - 1);
      if d == ZERO {
        assert d[7] == c[0];
        forall k | 1 <= k < 8 ensures !c[k] { assert !d[k - 1]; }
        assert c == ZERO;
      }
      if c == ZERO {
        assert d == ZERO;
      }
    }
  }

  /** A register followed by eight bits leaves residue 0 exactly when they are its own bits. */
  lemma ResidueIsZero(c: Reg, w: Reg)
    ensures Shift(c, w) == ZERO <==> w == c
  {
    FoldInput(c, w);
    assert Pad(w) == w;
    ZerosAreInvertible(Xor(c, w), 8);
    XorIsZero(c, w);
  }

  /** A nonzero window of at most eight bits, with zeros around it, leaves a nonzero residue. */
  lemma BurstLeavesResidue(before: nat, w: seq<bool>, after: nat)
    requires |w| <= 8 && true in w
    ensures Shift(ZERO, Zeros(before) + w + Zeros(after)) != ZERO
  {
    ZerosAreInvertible(ZERO, before);
    ShiftConcat(ZERO, Zeros(before), w);
    FoldInput(ZERO, w);
    var k :| 0 <= k < |w| && w[k];
    assert Xor(ZERO, Pad(w))[k];
    ZerosAreInvertible(Xor(ZERO, Pad(w)), |w|);
    ShiftConcat(ZERO, Zeros(before) + w, Zeros(after));
    ZerosAreInvertible(Shift(ZERO, w), after);
  }

  // ---- Two single bits ----

  const ONE: Reg := [true, false, false, false, false, false, false, false]

  /** n zero inputs bring the register 0x01 back to itself. */
  predicate Returns(n: nat) {
    Shift(ONE, Zeros(n)) == ONE
  }

  lemma ZerosConcat(c: Reg, a: nat, b: nat)
    ensures Shift(c, Zeros(a + b)) == Shift(Shift(c, Zeros(a)), Zeros(b))
  {
    assert Zeros(a + b) == Zeros(a) + Zeros(b);
    ShiftConcat(c, Zeros(a), Zeros(b));
  }

  /** One turn of the inner loop on a zero bit, and 2^k of them. */
  function Turn(v: bv8): bv8 {
    if v & 1 != 0 then (v >> 1) ^ 0x8C else v >> 1
  }

  function Turns(v: bv8, k: nat): bv8
    decreases k
  {
    if k == 0 then Turn(v) else Turns(Turns(v, k - 1), k - 1)
  }

  lemma TurnIsZeroInput(v: bv8)
    ensures Lanes(Turn(v)) == Shift(Lanes(v), Zeros(1))
  {
    hide Lanes, Step;
    LanesOfZero();
    assert v ^ 0 == v;
    StepOnVectors(v, 0, v >> 1, (v >> 1) ^ 0x8C, Turn(v));
    assert Zeros(1)[1..] == [];
  }

  lemma {:induction false} TurnsAreZeroInputs(v: bv8, k: nat)
    ensures Lanes(Turns(v, k)) == Shift(Lanes(v), Zeros(Pow2(k)))
    decreases k
  {
    hide Lanes, Turn, Shift;
    if k == 0 {
      TurnIsZeroInput(v);
    } else {
      TurnsAreZeroInputs(v, k - 1);
      TurnsAreZeroInputs(Turns(v, k - 1), k - 1);
      ZerosConcat(Lanes(v), Pow2(k - 1), Pow2(k - 1));
    }
  }

  lemma FirstTurns()
    ensures Turn(0x01) == 0x8C && Turns(0x01, 6) == 0x43
  {
  }

  lemma NextTurns()
    ensures Turns(0x43, 6) == 0x8C
  {
  }

  /** 128 zero inputs do to 0x01 what one does, so 127 bring it back. */
  lemma ReturnsAfter127()
    ensures Returns(127)
  {
    hide Turn, Turns, Lanes, Shift;
    FirstTurns();
    NextTurns();
    LanesOfOne();
    TurnIsZeroInput(0x01);
    TurnsAreZeroInputs(0x01, 6);
    TurnsAreZeroInputs(0x43, 6);
    assert Pow2(6) == 64;
    ZerosConcat(ONE, 64, 64);
    ZerosConcat(ONE, 127, 1);
    ZerosAreInjective(Shift(ONE, Zeros(127)), ONE, 1);
  }

  lemma ZerosAreInjective(c: Reg, d: Reg, n: nat)
    requires Shift(c, Zeros(n)) == Shift(d, Zeros(n))
    ensures c == d
  {
    hide Shift;
    assert Xor(Zeros(n), Zeros(n)) == Zeros(n);
    ShiftIsLinear(c, d, Zeros(n), Zeros(n));
    XorIsZero(Shift(c, Zeros(n)), Shift(d, Zeros(n)));
    ZerosAreInvertible(Xor(c, d), n);
    XorIsZero(c, d);
  }

  lemma LanesOfOne()
    ensures Lanes(0x01) == ONE
  {
    forall k: nat | k < 8
      ensures Lanes(0x01)[k] == ONE[k]
    {
      if k == 0 {} else if k == 1 {} else if k == 2 {} else if k == 3 {}
      else if k == 4 {} else if k == 5 {} else if k == 6 {} else {}
    }
  }

  /** The checksums that the source's tests name. */
  lemma KnownChecksums()
    ensures Crc([]) == 0 && Crc([0x00]) == 0 && Crc([0x01]) == 0x5E
  {
    hide Crc, Turns;
    CrcOfByte(0x00);
    CrcOfByte(0x01);
    CrcOfNothing();
    FewTurns();
    SomeVectors();
  }

  lemma SomeVectors()
    ensures Vector(0x00) == 0x00 && Vector(0x01) == 0x01
    ensures FromVector(0x00) == 0x00 && FromVector(0x5E) == 0x5E
  {
  }

  lemma FewTurns()
    ensures Turns(0x00, 3) == 0 && Turns(0x01, 3) == 0x5E
  {
  }

  lemma CrcOfNothing()
    ensures Crc([]) == 0
  {
    hide Lanes, Vector, FromVector;
    SomeVectors();
    LanesOfZero();
    LanesOfVector(0);
    ViewOfCrc([]);
    assert BitsOf([]) == [];
    ViewIsInjective(Crc([]), 0);
  }

  /** One byte: it is folded into the register, and eight zero inputs follow. */
  lemma CrcOfByte(b: byte)
    ensures Crc([b]) == FromVector(Turns(Vector(b), 3))
  {
    hide Lanes, Turns, Shift, Vector, FromVector;
    var after := FromVector(Turns(Vector(b), 3));
    assert BitsOf([b]) == View(b);
    FoldInput(ZERO, View(b));
    assert Xor(ZERO, Pad(View(b))) == View(b);
    LanesOfVector(b);
    TurnsAreZeroInputs(Vector(b), 3);
    assert Pow2(3) == 8;
    VectorOfFromVector(Turns(Vector(b), 3));
    LanesOfVector(after);
    ViewOfCrc([b]);
    ViewIsInjective(Crc([b]), after);
  }

  lemma ReturnsNotAfter1()
    ensures !Returns(1)
  {
    assert Zeros(1)[1..] == [];
    assert Step(ONE, false)[2];
  }

  lemma ReturnsAgain(a: nat, b: nat)
    requires Returns(a)
    ensures Returns(a + b) <==> Returns(b)
  {
    ZerosConcat(ONE, a, b);
  }

  /** Two returns have a common divisor that is one, by Euclid's subtractions. */
  lemma {:induction false} CommonReturn(a: nat, b: nat) returns (g: nat, i: nat, j: nat)
    requires a > 0 && Returns(a) && Returns(b)
    ensures Returns(g) && a == g * i && b == g * j
    decreases a + b
  {
    hide Returns;
    if b == 0 {
      g, i, j := a, 1, 0;
    } else if a <= b {
      ReturnsAgain(a, b - a);
      g, i, j := CommonReturn(a, b - a);
      j := i + j;
    } else {
      ReturnsAgain(b, a - b);
      g, j, i := CommonReturn(b, a - b);
      i := i + j;
    }
  }

  lemma DivisorsOf127(g: nat, i: nat)
    requires g * i == 127
    ensures g == 1 || g == 127
  {
    if g <= 11 {
      assert g in {0, 1, 2, 3, 4, 5, 6, 7, 8, 9, 10, 11};
    } else if g > 11 {
      if i > 11 { MulMonotone(12, i, g); }
      assert i in {1, 2, 3, 4, 5, 6, 7, 8, 9, 10, 11};
    }
  }

  lemma NoEarlierReturn(n: nat)
    requires n > 0 && Returns(n)
    ensures n >= 127
  {
    hide Returns;
    ReturnsAfter127();
    ReturnsNotAfter1();
    var g, i, j := CommonReturn(127, n);
    DivisorsOf127(g, i);
    assert j >= 1;
  }

  lemma {:induction false} ReturnsModulo127(n: nat)
    ensures Returns(n) <==> n % 127 == 0
  {
    hide Returns;
    if n < 127 {
      DivideUnique(n, 127, 0, n);
      FirstReturns(n);
    } else {
      StepsBack(n, 127, 127);
      ReturnsAfter127();
      ReturnsAgain(127, n - 127);
      ReturnsModulo127(n - 127);
    }
  }

  lemma FirstReturns(n: nat)
    requires n < 127
    ensures Returns(n) <==> n == 0
  {
    hide Returns;
    ReturnsAfter127();
    ReturnsAgain(127, 0);
    if n > 0 && Returns(n) {
      NoEarlierReturn(n);
    }
  }

  /** Exactly the bits p and q are flipped. */
  ghost predicate TwoBits(error: seq<bool>, p: nat, q: nat) {
    p < q < |error| && forall k | 0 <= k < |error| :: error[k] <==> k == p || k == q
  }

  /** Two bits at distance d leave residue 0 exactly when d zero inputs bring 0x01 back. */
  lemma TwoBitsResidue(before: nat, d: nat, after: nat)
    requires d >= 1
    ensures Shift(ZERO, Zeros(before) + [true] + Zeros(d - 1) + [true] + Zeros(after)) == ZERO <==> Returns(d)
  {
    hide Shift, Step;
    var c := Shift(ZERO, Zeros(before) + [true] + Zeros(d - 1));
    assert c == Shift(ONE, Zeros(d)) by {
      ZerosAreInvertible(ZERO, before);
      ShiftConcat(ZERO, Zeros(before), [true]);
      FoldInput(ZERO, [true]);
      assert Xor(ZERO, Pad([true])) == ONE;
      ShiftConcat(ZERO, Zeros(before) + [true], Zeros(d - 1));
      ZerosConcat(ONE, 1, d - 1);
    }
    ShiftConcat(ZERO, Zeros(before) + [true] + Zeros(d - 1), [true]);
    FoldInput(c, [true]);
    assert Pad([true]) == ONE;
    ZerosAreInvertible(Xor(c, ONE), 1);
    XorIsZero(c, ONE);
    ShiftConcat(ZERO, Zeros(before) + [true] + Zeros(d - 1) + [true], Zeros(after));
    ZerosAreInvertible(Shift(c, [true]), after);
  }

  // ---- Codewords and errors ----

  /** A code word is data followed by its CRC byte; `Valid` is what both receivers check. */
  predicate Valid(word: seq<byte>)
    requires word != []
  {
    word[|word| - 1] == Crc(word[..|word| - 1])
  }

  lemma ValidIffResidueZero(word: seq<byte>)
    requires word != []
    ensures Valid(word) <==> Shift(ZERO, BitsOf(word)) == ZERO
  {
    var n := |word| - 1;
    var data, c := word[..n], word[n];
    assert word == data + [c];
    BitsOfConcat(data, [c]);
    assert BitsOf([c]) == View(c);
    ShiftConcat(ZERO, BitsOf(data), View(c));
    ResidueIsZero(Shift(ZERO, BitsOf(data)), View(c));
    ViewOfCrc(data);
    if View(c) == View(Crc(data)) {
      ViewIsInjective(c, Crc(data));
    }
  }

  /** `hit` is `word` with exactly the bits flipped that are true in `error`. */
  predicate Corrupts(word: seq<byte>, error: seq<bool>, hit: seq<byte>) {
    && |hit| == |word|
    && |error| == 8 * |word|
    && BitsOf(hit) == Xor(BitsOf(word), error)
  }

  /** A corrupted code word is still a code word exactly when the error pattern has residue 0. */
  lemma UndetectedIffResidueZero(word: seq<byte>, error: seq<bool>, hit: seq<byte>)
    requires word != [] && Valid(word) && Corrupts(word, error, hit)
    ensures Valid(hit) <==> Shift(ZERO, error) == ZERO
  {
    ValidIffResidueZero(word);
    ValidIffResidueZero(hit);
    assert Xor(ZERO, ZERO) == ZERO;
    ShiftIsLinear(ZERO, ZERO, BitsOf(word), error);
    var r := Shift(ZERO, error);
    assert Xor(ZERO, r) == r;
  }

  /** All the flipped bits lie within eight consecutive positions, LSB-first, also across bytes. */
  ghost predicate Burst(error: seq<bool>) {
    exists p: nat :: WithinWindow(error, p)
  }

  ghost predicate WithinWindow(error: seq<bool>, p: nat) {
    p <= |error| && forall k | 0 <= k < |error| && error[k] :: p <= k < p + 8
  }

  lemma OddErrorsAreDetected(word: seq<byte>, error: seq<bool>, hit: seq<byte>)
    requires word != [] && Valid(word) && Corrupts(word, error, hit)
    requires Odd(error)
    ensures !Valid(hit)
  {
    UndetectedIffResidueZero(word, error, hit);
    ShiftKeepsParity(ZERO, error);
    ParityOf8(ZERO);
  }

  lemma BurstErrorsAreDetected(word: seq<byte>, error: seq<bool>, hit: seq<byte>)
    requires word != [] && Valid(word) && Corrupts(word, error, hit)
    requires Burst(error) && true in error
    ensures !Valid(hit)
  {
    UndetectedIffResidueZero(word, error, hit);
    var p: nat :| WithinWindow(error, p);
    var q := if p + 8 <= |error| then p + 8 else |error|;
    var w := error[p..q];
    assert error == Zeros(p) + w + Zeros(|error| - q);
    var k :| 0 <= k < |error| && error[k];
    assert w[k - p];
    BurstLeavesResidue(p, w, |error| - q);
  }

  /**
   Two flipped bits pass the comparison exactly when their distance is a multiple of 127: in up to 15 bytes, never.
   */
  lemma TwoBitErrorsPassExactly(word: seq<byte>, error: seq<bool>, hit: seq<byte>, p: nat, q: nat)
    requires word != [] && Valid(word) && Corrupts(word, error, hit)
    requires TwoBits(error, p, q)
    ensures Valid(hit) <==> (q - p) % 127 == 0
    ensures |word| <= 15 ==> !Valid(hit)
  {
    hide Valid, Shift, Returns;
    UndetectedIffResidueZero(word, error, hit);
    assert error == Zeros(p) + [true] + Zeros(q - p - 1) + [true] + Zeros(|error| - q - 1);
    TwoBitsResidue(p, q - p, |error| - q - 1);
    ReturnsModulo127(q - p);
    assert |error| == 8 * |word|;
  }

  /** The patterns that every comparison catches. */
  ghost predicate Detectable(error: seq<bool>) {
    || Odd(error)
    || (Burst(error) && true in error)
    || exists p: nat, q: nat :: TwoBits(error, p, q) && (q - p) % 127 != 0
  }

  lemma DetectableErrorsAreDetected(word: seq<byte>, error: seq<bool>, hit: seq<byte>)
    requires word != [] && Valid(word) && Corrupts(word, error, hit)
    requires Detectable(error)
    ensures !Valid(hit)
  {
    hide Valid, Corrupts, Odd, Burst, TwoBits;
    if Odd(error) {
      OddErrorsAreDetected(word, error, hit);
    } else if Burst(error) && true in error {
      BurstErrorsAreDetected(word, error, hit);
    } else {
      var p: nat, q: nat :| TwoBits(error, p, q) && (q - p) % 127 != 0;
      TwoBitErrorsPassExactly(word, error, hit, p, q);
    }
  }

  /** In a payload of up to 14 bytes and its CRC every pair of flipped bits is caught. */
  lemma ShortPairsAreDetectable(error: seq<bool>, p: nat, q: nat)
    requires |error| <= 120 && TwoBits(error, p, q)
    ensures Detectable(error)
  {
  }
}
