/** A module of its own: with nothing else in scope the solver proves this at once. */
module Conversion {
  lemma FromIntAndBack(n: nat)
    requires n < 256
    ensures (n as bv8) as int == n
  {
  }
}

/**
 Facts about the masks, shifts and conversions of 8-bit vectors,
 which the solver proves best with nothing else around.
 */
module BitVectors {

  predicate Bit(b: bv8, k: nat)
    requires k < 8
  {
    (b >> k) & 1 == 1
  }

  lemma BitIsMask(b: bv8, k: nat)
    requires k < 8
    ensures Bit(b, k) == (b & (1 << k) != 0)
  {
    if k == 0 {} else if k == 1 {} else if k == 2 {} else if k == 3 {}
    else if k == 4 {} else if k == 5 {} else if k == 6 {} else {}
  }

  lemma BitOfZero(k: nat)
    requires k < 8
    ensures !Bit(0, k)
  {
    if k == 0 {} else if k == 1 {} else if k == 2 {} else if k == 3 {}
    else if k == 4 {} else if k == 5 {} else if k == 6 {} else {}
  }

  /** Or-ing a one-bit mask into a byte sets that bit and no other. */
  lemma OrMaskSetsBit(b: bv8, k: nat, j: nat)
    requires k < 8 && j < 8
    ensures Bit(b | (1 << k), j) == (Bit(b, j) || j == k)
  {
    BitIsMask(b, j);
    BitIsMask(b | (1 << k), j);
    if k == 0 {} else if k == 1 {} else if k == 2 {} else if k == 3 {}
    else if k == 4 {} else if k == 5 {} else if k == 6 {} else {}
  }

  lemma BitOfXor(x: bv8, y: bv8, k: nat)
    requires k < 8
    ensures Bit(x ^ y, k) == (Bit(x, k) != Bit(y, k))
  {
    hide Bit;
    var mask: bv8 := 1 << k;
    BitIsMask(x, k);
    BitIsMask(y, k);
    BitIsMask(x ^ y, k);
    MaskIsOneBit(k, mask);
    XorUnderMask(x, y, mask);
  }

  lemma MaskIsOneBit(k: nat, mask: bv8)
    requires k < 8 && mask == 1 << k
    ensures mask & (mask - 1) == 0
  {
    if k == 0 {} else if k == 1 {} else if k == 2 {} else if k == 3 {}
    else if k == 4 {} else if k == 5 {} else if k == 6 {} else {}
  }

  lemma XorUnderMask(x: bv8, y: bv8, mask: bv8)
    requires mask & (mask - 1) == 0
    ensures ((x ^ y) & mask != 0) == ((x & mask != 0) != (y & mask != 0))
  {
  }

  lemma BitOfShift(x: bv8, k: nat)
    requires k < 8
    ensures Bit(x >> 1, k) == (k < 7 && Bit(x, k + 1))
  {
    if k == 0 {} else if k == 1 {} else if k == 2 {} else if k == 3 {}
    else if k == 4 {} else if k == 5 {} else if k == 6 {} else {}
  }

  lemma SameBitsSameVector(x: bv8, y: bv8)
    requires forall k: nat | k < 8 :: Bit(x, k) == Bit(y, k)
    ensures x == y
  {
    assert Bit(x, 0) == Bit(y, 0) && Bit(x, 1) == Bit(y, 1) && Bit(x, 2) == Bit(y, 2) && Bit(x, 3) == Bit(y, 3);
    assert Bit(x, 4) == Bit(y, 4) && Bit(x, 5) == Bit(y, 5) && Bit(x, 6) == Bit(y, 6) && Bit(x, 7) == Bit(y, 7);
  }

  lemma ToIntAndBack(b: bv8)
    ensures 0 <= b as int < 256
    ensures (b as int) as bv8 == b
  {
  }
}

/**
 Bytes and bits, shared by the link modules and the codec modules.

 A byte is a number below 256. Facts about bits are stated on Bit(b, k), the k-th bit
 of a byte counted from the least significant one, and on BitAt(buf, k), the k-th bit
 of a buffer counted the same way through its bytes (LSB-first).
 */
module Bytes {
  import BitVectors
  import Conversion

  newtype byte = x: int | 0 <= x < 256

  datatype Option<+T> = None | Some(value: T)

  predicate Distinct<T(==)>(s: seq<T>) {
    forall i, j | 0 <= i < j < |s| :: s[i] != s[j]
  }

  function Zeros(n: nat): (z: seq<bool>)
    ensures |z| == n && forall i | 0 <= i < n :: !z[i]
  {
    seq(n, _ => false)
  }

  // ---- Bits of one byte ----

  /** The byte as the eight-bit register that masks and shifts work on, and back. */
  function Vector(b: byte): bv8 { b as int as bv8 }

  function FromVector(v: bv8): byte {
    BitVectors.ToIntAndBack(v);
    v as int as byte
  }

  lemma VectorOfFromVector(v: bv8)
    ensures Vector(FromVector(v)) == v
  {
    BitVectors.ToIntAndBack(v);
  }

  lemma FromVectorOfVector(b: byte)
    ensures FromVector(Vector(b)) == b
  {
    Conversion.FromIntAndBack(b as int);
  }

  predicate Bit(b: byte, k: nat)
    requires k < 8
  {
    BitVectors.Bit(Vector(b), k)
  }

  lemma SameBitsSameByte(x: byte, y: byte)
    requires forall k: nat | k < 8 :: Bit(x, k) == Bit(y, k)
    ensures x == y
  {
    hide Vector, FromVector;
    forall k: nat | k < 8
      ensures BitVectors.Bit(Vector(x), k) == BitVectors.Bit(Vector(y), k)
    {
      assert Bit(x, k) == Bit(y, k);
    }
    BitVectors.SameBitsSameVector(Vector(x), Vector(y));
    FromVectorOfVector(x);
    FromVectorOfVector(y);
  }

  // ---- Bits of a buffer ----

  predicate BitAt(buf: seq<byte>, k: nat)
    requires k < 8 * |buf|
  {
    Bit(buf[k / 8], k % 8)
  }

  lemma SameBitsSameBuffer(x: seq<byte>, y: seq<byte>)
    requires |x| == |y|
    requires forall k: nat | k < 8 * |x| :: BitAt(x, k) == BitAt(y, k)
    ensures x == y
  {
    hide Bit;
    forall i | 0 <= i < |x|
      ensures x[i] == y[i]
    {
      forall k: nat | k < 8
        ensures Bit(x[i], k) == Bit(y[i], k)
      {
        assert BitAt(x, 8 * i + k) == BitAt(y, 8 * i + k);
      }
      SameBitsSameByte(x[i], y[i]);
    }
  }

  // ---- 16-bit lengths as two bytes ----

  function LowByte(n: nat): byte { (n % 256) as byte }

  function HighByte(n: nat): byte { ((n / 256) % 256) as byte }

  /** `lo | hi << 8` on 16 bits. */
  function Word(lo: byte, hi: byte): (n: nat)
    ensures n < 65536
  {
    lo as int + 256 * (hi as int)
  }

  lemma WordOfBytes(n: nat)
    requires n < 65536
    ensures Word(LowByte(n), HighByte(n)) == n
  {
  }

  lemma BytesOfWord(lo: byte, hi: byte)
    ensures LowByte(Word(lo, hi)) == lo
    ensures HighByte(Word(lo, hi)) == hi
  {
  }
}
