/**
 The bit-packing helpers of the generated C code: loops that or bits into a byte buffer
 and gather them back, least significant bit first, at any bit offset.
 */
module Packing {
  import BitVectors
  import opened Bytes
  import opened BitStrings

  /** `after` is `before` with the bits or-ed in from position `at` on, and nothing else changed. */
  ghost predicate Placed(before: seq<byte>, after: seq<byte>, at: nat, bits: seq<bool>) {
    && |after| == |before|
    && at + |bits| <= 8 * |before|
    && forall k: nat | k < 8 * |before| ::
         BitAt(after, k) == (BitAt(before, k) || (at <= k < at + |bits| && bits[k - at]))
  }

  ghost predicate ClearAt(buf: seq<byte>, at: nat, n: nat) {
    at + n <= 8 * |buf| && forall k: nat | at <= k < at + n :: !BitAt(buf, k)
  }

  /** `buf[j / 8] |= 1 << (j % 8)`. */
  function WithBit(buf: seq<byte>, j: nat): seq<byte>
    requires j < 8 * |buf|
  {
    var mask: bv8 := 1 << (j % 8);
    buf[j / 8 := FromVector(Vector(buf[j / 8]) | mask)]
  }

  lemma WithBitPlaces(buf: seq<byte>, j: nat)
    requires j < 8 * |buf|
    ensures Placed(buf, WithBit(buf, j), j, [true])
  {
    hide Vector, FromVector, BitVectors.Bit;
    var after := WithBit(buf, j);
    forall k: nat | k < 8 * |buf|
      ensures BitAt(after, k) == (BitAt(buf, k) || k == j)
    {
      if k / 8 == j / 8 {
        var mask: bv8 := 1 << (j % 8);
        VectorOfFromVector(Vector(buf[j / 8]) | mask);
        BitVectors.OrMaskSetsBit(Vector(buf[j / 8]), j % 8, k % 8);
      }
    }
  }

  lemma PlacedNothing(buf: seq<byte>, at: nat, bits: seq<bool>)
    requires at + |bits| <= 8 * |buf| && forall i | 0 <= i < |bits| :: !bits[i]
    ensures Placed(buf, buf, at, bits)
  {
  }

  /** Placing two neighbouring strings places their concatenation. */
  lemma PlacedThen(a: seq<byte>, b: seq<byte>, c: seq<byte>, at: nat, xs: seq<bool>, ys: seq<bool>)
    requires Placed(a, b, at, xs) && Placed(b, c, at + |xs|, ys)
    ensures Placed(a, c, at, xs + ys)
  {
    hide BitAt;
    forall k: nat | k < 8 * |a|
      ensures BitAt(c, k) == (BitAt(a, k) || (at <= k < at + |xs + ys| && (xs + ys)[k - at]))
    {
      assert BitAt(b, k) == (BitAt(a, k) || (at <= k < at + |xs| && xs[k - at]));
    }
  }

  /** Where the buffer was clear, the placed bits are what is read back. */
  lemma PlacedReadsBack(a: seq<byte>, b: seq<byte>, at: nat, bits: seq<bool>)
    requires Placed(a, b, at, bits) && ClearAt(a, at, |bits|)
    ensures Window(b, at, |bits|) == bits
  {
    hide BitAt;
    forall i | 0 <= i < |bits|
      ensures Window(b, at, |bits|)[i] == bits[i]
    {
      assert !BitAt(a, at + i);
      assert BitAt(b, at + i) == (BitAt(a, at + i) || bits[i]);
    }
  }

  /** What is placed in one range leaves every other range as it was. */
  lemma PlacedElsewhere(a: seq<byte>, b: seq<byte>, at: nat, bits: seq<bool>, from: nat, n: nat)
    requires Placed(a, b, at, bits) && from + n <= 8 * |a|
    requires from + n <= at || at + |bits| <= from
    ensures Window(b, from, n) == Window(a, from, n)
  {
    hide BitAt;
  }

  lemma OneMoreBit(before: seq<byte>, now: seq<byte>, at: nat, bits: seq<bool>, i: nat)
    requires i < |bits| && Placed(before, now, at, bits[..i]) && at + i < 8 * |now|
    ensures Placed(before, if bits[i] then WithBit(now, at + i) else now, at, bits[..i + 1])
  {
    hide Placed, WithBit, BitAt;
    assert bits[..i + 1] == bits[..i] + [bits[i]];
    if bits[i] {
      WithBitPlaces(now, at + i);
      PlacedThen(before, now, WithBit(now, at + i), at, bits[..i], [true]);
    } else {
      PlacedNothing(now, at + i, [false]);
      PlacedThen(before, now, now, at, bits[..i], [false]);
    }
  }

  /** `pack_bits`. */
  method PackBits(buf: array<byte>, at: nat, bits: nat, value: nat)
    requires bits <= 32 && at + bits <= 8 * buf.Length
    modifies buf
    ensures Placed(old(buf[..]), buf[..], at, LowBits(value, bits))
  {
    hide LowBits, WithBit, BitAt, BitOf, Placed;
    ghost var all := LowBits(value, bits);
    ghost var before := buf[..];
    PlacedNothing(before, at, all[..0]);
    for i := 0 to bits
      invariant Placed(before, buf[..], at, all[..i])
    {
      ghost var now := buf[..];
      var byteIdx := (at + i) / 8;
      var bitIdx := (at + i) % 8;
      if BitOf(value, i) {
        var mask: bv8 := 1 << bitIdx;
        buf[byteIdx] := FromVector(Vector(buf[byteIdx]) | mask);
        WithBitIs(now, at + i);
        assert buf[..] == WithBit(now, at + i);
      }
      BitOfLowBits(value, bits, i);
      OneMoreBit(before, now, at, all, i);
    }
    assert all[..bits] == all;
  }

  lemma WithBitIs(buf: seq<byte>, j: nat)
    requires j < 8 * |buf|
    ensures var mask: bv8 := 1 << (j % 8); WithBit(buf, j) == buf[j / 8 := FromVector(Vector(buf[j / 8]) | mask)]
  {
  }

  /** `unpack_bits`; or-ing in a bit that is still clear adds its weight. */
  method UnpackBits(buf: array<byte>, at: nat, bits: nat) returns (value: nat)
    requires bits <= 32 && at + bits <= 8 * buf.Length
    ensures value == ToNat(Window(buf[..], at, bits))
  {
    hide ToNat, BitAt;
    value := 0;
    ghost var all := Window(buf[..], at, bits);
    assert ToNat(all[..0]) == 0 by {
      ToNatOfNothing();
    }
    for i := 0 to bits
      invariant value == ToNat(all[..i])
    {
      var byteIdx := (at + i) / 8;
      var bitIdx := (at + i) % 8;
      assert all[i] == Bit(buf[byteIdx], bitIdx) by {
        BitAtIs(buf[..], at + i);
      }
      if Bit(buf[byteIdx], bitIdx) {
        value := value + Pow2(i);
      }
      ToNatSnoc(all[..i], all[i]);
      assert all[..i + 1] == all[..i] + [all[i]];
    }
    assert all[..bits] == all;
  }

  lemma ToNatOfNothing()
    ensures ToNat([]) == 0
  {
  }

  lemma BitAtIs(buf: seq<byte>, k: nat)
    requires k < 8 * |buf|
    ensures BitAt(buf, k) == Bit(buf[k / 8], k % 8)
  {
  }

  /** `memset(buf, 0, n)`. */
  method Clear(buf: array<byte>, n: nat)
    requires n <= buf.Length
    modifies buf
    ensures ClearAt(buf[..], 0, 8 * n) && buf[n..] == old(buf[n..])
  {
    for i := 0 to n
      invariant forall j | 0 <= j < i :: buf[j] == 0
      invariant buf[n..] == old(buf[n..])
    {
      buf[i] := 0;
    }
    forall k: nat | k < 8 * n
      ensures !BitAt(buf[..], k)
    {
      ZeroHasNoBits(k % 8);
    }
  }

  lemma ZeroHasNoBits(k: nat)
    requires k < 8
    ensures !Bit(0, k)
  {
    hide BitVectors.Bit;
    assert Vector(0) == 0;
    BitVectors.BitOfZero(k);
  }
}
