/** Multiplication, quotients and remainders, where the solver needs each step on its own. */
module Arithmetic {

  /** Quotient and remainder are unique. */
  lemma DivideUnique(n: int, d: int, q: int, r: int)
    requires d > 0 && n == d * q + r && 0 <= r < d
    ensures n / d == q && n % d == r
  {
    var e := q - n / d;
    SmallMultiple(d, e, n % d - r);
  }

  /** A multiple of d strictly between -d and d is zero. */
  lemma SmallMultiple(d: int, e: int, m: int)
    requires d > 0 && m == d * e && -d < m < d
    ensures e == 0
  {
    assert e > 0 ==> d * e >= d;
    assert e < 0 ==> d * e <= -d;
  }

  lemma RoundsDown(x: nat, d: nat)
    requires d >= 1
    ensures 0 <= x - (x / d) * d < d
  {
    assert x == d * (x / d) + x % d;
  }

  lemma MulMonotone(a: int, b: int, s: nat)
    requires 0 <= a <= b
    ensures 0 <= a * s <= b * s
  {
    assert b * s == a * s + (b - a) * s;
  }

  lemma QuotientBelow(w: nat, q: nat, d: nat)
    requires d >= 1 && w < q * d
    ensures 0 <= w / d < q
  {
    assert w == d * (w / d) + w % d;
    if w / d >= q {
      MulMonotone(q, w / d, d);
    }
  }

  lemma QuotientAtMost(w: nat, q: nat, d: nat)
    requires d >= 1 && w <= q * d
    ensures 0 <= w / d <= q
  {
    assert q * d < (q + 1) * d;
    QuotientBelow(w, q + 1, d);
  }

  lemma QuotientAtLeast(a: nat, q: nat, b: nat)
    requires b > 0 && a >= q * b
    ensures a / b >= q
  {
    var r := a / b;
    assert a == b * r + a % b;
    if r < q {
      MulMonotone(r + 1, q, b);
    }
  }

  lemma Distribute(m: int, a: int, b: int)
    ensures m * (a - b) == m * a - m * b
    ensures (a - b) * m == a * m - b * m
  {
  }

  lemma OneMore(k: nat, x: nat)
    ensures (k + 1) * x == k * x + x && k * x >= 0
    ensures x * (k + 1) == x * k + x && x * k >= 0
  {
  }

  lemma ProductNotNegative(a: int, b: int)
    requires a >= 0 && b >= 0
    ensures a * b >= 0
  {
  }

  lemma QuotientAtMostSelf(w: nat, scale: nat)
    requires scale >= 1
    ensures 0 <= w / scale <= w
  {
    MulMonotone(1, scale, w);
    assert w * scale >= w;
    QuotientAtMost(w, w, scale);
  }

  /** Dividing by more than the scale falls short of the number itself. */
  lemma AddedDivisor(w: nat, d: nat, k: nat, m: nat)
    requires k >= 1 && m >= 1 && w <= d * k
    ensures 0 <= w / (k + m) < d + m
  {
    assert (d + m) * (k + m) > d * k by {
      assert (d + m) * (k + m) == d * k + d * m + m * (k + m);
      assert d * m >= 0 && m * (k + m) > 0;
    }
    QuotientBelow(w, d + m, k + m);
  }

  lemma ModAtMost(s: nat, m: nat)
    requires m > 0
    ensures s % m <= s
  {
    if s < m {
      DivideUnique(s, m, 0, s);
    }
  }

  lemma HalveBy(n: nat, p: nat)
    requires p > 0
    ensures n / (2 * p) == (n / 2) / p
    ensures n % (2 * p) == n % 2 + 2 * ((n / 2) % p)
  {
    var h, r := n / 2, n % 2;
    var q, m := h / p, h % p;
    assert n == (2 * p) * q + (2 * m + r) by {
      assert h == p * q + m;
      assert (2 * p) * q == 2 * (p * q);
    }
    DivideUnique(n, 2 * p, q, 2 * m + r);
  }

  lemma Pieces(s: int, p: nat, q: nat, t: int, r: int, u: int, v: int)
    requires p > 0 && s == (p * q) * t + r && r == p * u + v && 0 <= v < p
    ensures s % p == v
  {
    assert p * (q * t + u) == (p * q) * t + p * u;
    DivideUnique(s, p, q * t + u, v);
  }

  lemma NestedMod(s: int, p: nat, q: nat)
    requires p > 0 && q > 0
    ensures p * q > 0 && (s % (p * q)) % p == s % p
  {
    var m := p * q;
    assert m > 0;
    Pieces(s, p, q, s / m, s % m, (s % m) / p, (s % m) % p);
  }

  lemma MultipleIffCongruent(x: int, y: int, m: int)
    requires m > 0
    ensures x % m == y % m <==> (x - y) % m == 0
  {
    var qx, qy, rx, ry := x / m, y / m, x % m, y % m;
    Distribute(m, qx, qy);
    if rx == ry {
      DivideUnique(x - y, m, qx - qy, 0);
    } else if rx > ry {
      DivideUnique(x - y, m, qx - qy, rx - ry);
    } else {
      Distribute(m, qx - qy, 1);
      DivideUnique(x - y, m, qx - qy - 1, rx - ry + m);
    }
  }

  lemma AddCongruent(x: int, y: int, d: int, m: int)
    requires m > 0
    ensures x % m == y % m <==> (x + d) % m == (y + d) % m
  {
    MultipleIffCongruent(x, y, m);
    MultipleIffCongruent(x + d, y + d, m);
  }

  /** Going back k places around a ring of c. */
  lemma StepsBack(n: nat, c: nat, k: nat)
    requires 0 < c && k <= c && k <= n
    ensures (n - k) % c == if n % c >= k then n % c - k else c - (k - n % c)
  {
    var q, h := n / c, n % c;
    assert n == c * q + h;
    if h >= k {
      DivideUnique(n - k, c, q, h - k);
    } else {
      Distribute(c, q, 1);
      DivideUnique(n - k, c, q - 1, c - (k - h));
    }
  }

  lemma SuccessorMod(n: nat, c: nat)
    requires 0 < c
    ensures (n + 1) % c == (n % c + 1) % c
  {
    var q, h := n / c, n % c;
    assert n == c * q + h;
    if h + 1 < c {
      DivideUnique(n + 1, c, q, h + 1);
      DivideUnique(h + 1, c, 0, h + 1);
    } else {
      Distribute(c, q + 1, 1);
      DivideUnique(n + 1, c, q + 1, 0);
      DivideUnique(h + 1, c, 1, 0);
    }
  }

  /** Going around a ring once ends where it began. */
  lemma WrapsAround(n: nat, c: nat, i: nat)
    requires 0 < c <= n && i < c
    ensures (n - c + i) % c == (n % c + i) % c
  {
    var q, h := n / c, n % c;
    assert n == c * q + h;
    Distribute(c, q, 1);
    if h + i < c {
      DivideUnique(n - c + i, c, q - 1, h + i);
      DivideUnique(h + i, c, 0, h + i);
    } else {
      DivideUnique(n - c + i, c, q, h + i - c);
      DivideUnique(h + i, c, 1, h + i - c);
    }
  }

  /** Slots of e numbers each, one after the other: the j-th of them ends within all, */
  lemma SlotEnds(j: nat, count: nat, e: nat)
    requires j < count
    ensures 0 <= j * e && j * e + e <= e * count
  {
    assert j * e + e == (j + 1) * e;
    MulMonotone(j + 1, count, e);
  }

  /** every number below the end is in one, */
  lemma SlotOf(n: nat, e: nat, count: nat) returns (j: nat)
    requires n < e * count
    ensures j < count && j * e <= n < j * e + e
  {
    assert e > 0;
    j := n / e;
    assert n == e * j + n % e && e * j == j * e;
    if j >= count {
      MulMonotone(count, j, e);
    }
  }

  /** and in no other. */
  lemma SameSlot(i: nat, j: nat, e: nat, n: int)
    requires i * e <= n < i * e + e && j * e <= n < j * e + e
    ensures i == j
  {
    DivideUnique(n, e, i, n - i * e);
    DivideUnique(n, e, j, n - j * e);
  }
}
