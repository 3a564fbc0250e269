/**
 Bit strings, least significant bit first: the values that fields have on the wire.
 */
module BitStrings {
  import opened Arithmetic
  import opened Bytes

  function Pow2(k: nat): (p: nat)
    ensures p >= 1
  {
    if k == 0 then 1 else 2 * Pow2(k - 1)
  }

  lemma {:induction false} Pow2Sum(a: nat, b: nat)
    ensures Pow2(a + b) == Pow2(a) * Pow2(b)
    decreases a
  {
    if a > 0 {
      Pow2Sum(a - 1, b);
    }
  }

  lemma {:induction false} Pow2Grows(a: nat, b: nat)
    requires a <= b
    ensures Pow2(a) <= Pow2(b)
    decreases b
  {
    if a < b {
      Pow2Grows(a, b - 1);
    }
  }

  /** The powers the code's word sizes come from. */
  lemma Pow2OfWords()
    ensures Pow2(0) == 1 && Pow2(1) == 2 && Pow2(7) == 0x80 && Pow2(8) == 0x100
    ensures Pow2(15) == 0x8000 && Pow2(16) == 0x1_0000
    ensures Pow2(31) == 0x8000_0000 && Pow2(32) == 0x1_0000_0000
  {
    assert Pow2(4) == 16;
    assert Pow2(7) == 0x80;
    Pow2Sum(8, 7);
    Pow2Sum(8, 8);
    Pow2Sum(16, 15);
    Pow2Sum(16, 16);
  }

  /** Bit i of a number: `(n >> i) & 1`. */
  predicate BitOf(n: nat, i: nat) {
    (n / Pow2(i)) % 2 == 1
  }

  /** The k low bits of n. */
  function LowBits(n: nat, k: nat): (s: seq<bool>)
    ensures |s| == k
  {
    if k == 0 then [] else [n % 2 == 1] + LowBits(n / 2, k - 1)
  }

  function ToNat(s: seq<bool>): nat {
    if s == [] then 0 else (if s[0] then 1 else 0) + 2 * ToNat(s[1..])
  }

  lemma {:induction false} ToNatBound(s: seq<bool>)
    ensures ToNat(s) < Pow2(|s|)
    decreases |s|
  {
    if s != [] {
      ToNatBound(s[1..]);
    }
  }

  /** Taking the low b bits first does not change the low a bits. */
  lemma ModOfMod(s: int, a: nat, b: nat)
    requires a <= b
    ensures (s % Pow2(b)) % Pow2(a) == s % Pow2(a)
  {
    hide Pow2;
    Pow2Sum(a, b - a);
    NestedMod(s, Pow2(a), Pow2(b - a));
  }

  /** Reading the low bits back gives the number modulo their weight. */
  lemma {:induction false} ToNatOfLowBits(n: nat, k: nat)
    ensures ToNat(LowBits(n, k)) == n % Pow2(k)
    decreases k
  {
    if k > 0 {
      var s := LowBits(n, k);
      assert s[1..] == LowBits(n / 2, k - 1);
      ToNatOfLowBits(n / 2, k - 1);
      HalveBy(n, Pow2(k - 1));
    }
  }

  lemma {:induction false} BitOfLowBits(n: nat, k: nat, i: nat)
    requires i < k
    ensures LowBits(n, k)[i] == BitOf(n, i)
    decreases k
  {
    if i > 0 {
      BitOfLowBits(n / 2, k - 1, i - 1);
      HalveBy(n, Pow2(i - 1));
    }
  }

  /** One more bit on top. */
  lemma {:induction false} ToNatSnoc(s: seq<bool>, b: bool)
    ensures ToNat(s + [b]) == ToNat(s) + (if b then Pow2(|s|) else 0)
    decreases |s|
  {
    if s == [] {
      assert (s + [b])[1..] == [];
    } else {
      assert (s + [b])[1..] == s[1..] + [b];
      ToNatSnoc(s[1..], b);
    }
  }

  /** The least width whose numbers include 0 .. n - 1: the exact ceiling of the binary logarithm. */
  function CeilLog2(n: nat): (b: nat)
    requires n >= 1
    ensures n <= Pow2(b)
    ensures forall c | 0 <= c < b :: Pow2(c) < n
  {
    LeastWidth(n, 0)
  }

  lemma CeilLog2AtMost(n: nat, b: nat)
    requires 1 <= n <= Pow2(b)
    ensures CeilLog2(n) <= b
  {
  }

  function LeastWidth(n: nat, b: nat): (w: nat)
    requires forall c | 0 <= c < b :: Pow2(c) < n
    ensures n <= Pow2(w)
    ensures forall c | 0 <= c < w :: Pow2(c) < n
    decreases n - Pow2(b)
  {
    if n <= Pow2(b) then b else LeastWidth(n, b + 1)
  }

  // ---- Bits of a buffer ----

  /** The n bits of the buffer from bit `at` on. */
  function Window(buf: seq<byte>, at: nat, n: nat): (s: seq<bool>)
    requires at + n <= 8 * |buf|
    ensures |s| == n
    ensures forall i: nat | i < n :: s[i] == BitAt(buf, at + i)
  {
    seq(n, i requires 0 <= i < n => BitAt(buf, at + i))
  }

  lemma WindowSplit(buf: seq<byte>, at: nat, m: nat, n: nat)
    requires at + m + n <= 8 * |buf|
    ensures Window(buf, at, m + n) == Window(buf, at, m) + Window(buf, at + m, n)
  {
    hide BitAt;
  }

  lemma WindowOfWindow(buf: seq<byte>, at: nat, n: nat, i: nat, m: nat)
    requires at + n <= 8 * |buf| && i + m <= n
    ensures Window(buf, at, n)[i..i + m] == Window(buf, at + i, m)
  {
    hide BitAt;
  }
}
