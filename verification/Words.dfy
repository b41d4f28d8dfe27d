/** Machine words as bounded naturals: powers of two, shifts, bitwise or and and. */
module Words {

  const B64: nat := 0x1_0000_0000_0000_0000
  const B128: nat := 0x1_0000_0000_0000_0000_0000_0000_0000_0000

  /** The width of a `u128`. */
  const U128_BITS: nat := 128

  /** The width of a `U256` and of a storage word. */
  const WORD_BITS: nat := U128_BITS + U128_BITS

  type u64 = x: nat | x < B64
  type u128 = x: nat | x < B128

  function Pow2(n: nat): (r: nat)
    ensures r >= 1
  {
    if n == 0 then 1 else 2 * Pow2(n - 1)
  }

  lemma {:induction false} Pow2Add(m: nat, n: nat)
    ensures Pow2(m + n) == Pow2(m) * Pow2(n)
  {
    if m > 0 {
      Pow2Add(m - 1, n);
      assert Pow2(m + n) == 2 * Pow2(m + n - 1);
    }
  }

  lemma {:induction false} Pow2Monotone(m: nat, n: nat)
    requires m <= n
    ensures Pow2(m) <= Pow2(n)
    decreases n - m
  {
    if m < n {
      Pow2Monotone(m + 1, n);
    }
  }

  lemma Pow2Double(n: nat, v: nat, m: nat)
    requires Pow2(n) == v && m == n + n
    ensures Pow2(m) == v * v
  {
    Pow2Add(n, n);
  }

  lemma Pow2Of64()
    ensures Pow2(64) == B64
  {
    assert Pow2(4) == 16;
    Pow2Double(4, 16, 8);
    Pow2Double(8, 0x100, 16);
    Pow2Double(16, 0x1_0000, 32);
    Pow2Double(32, 0x1_0000_0000, 64);
  }

  lemma Pow2Of128()
    ensures Pow2(128) == B128
  {
    Pow2Of64();
    Pow2Double(64, B64, 128);
  }

  // ---------- bitwise operations on naturals ----------

  function BitOr(x: nat, y: nat): nat {
    if x == 0 && y == 0 then 0
    else 2 * BitOr(x / 2, y / 2) + (if x % 2 == 1 || y % 2 == 1 then 1 else 0)
  }

  function BitAnd(x: nat, y: nat): nat {
    if x == 0 || y == 0 then 0
    else 2 * BitAnd(x / 2, y / 2) + (if x % 2 == 1 && y % 2 == 1 then 1 else 0)
  }

  lemma {:induction false} BitOrZero(x: nat)
    ensures BitOr(x, 0) == x && BitOr(0, x) == x
  {
    if x > 0 {
      BitOrZero(x / 2);
    }
  }

  /** Joining a multiple of `2^k` with something below `2^k` is addition. */
  lemma {:induction false} BitOrDisjoint(a: nat, y: nat, k: nat)
    requires y < Pow2(k)
    ensures BitOr(a * Pow2(k), y) == a * Pow2(k) + y
  {
    if k == 0 {
      BitOrZero(a);
    } else {
      var p := Pow2(k - 1);
      var x := a * Pow2(k);
      assert x == 2 * (a * p) by {
        assert a * (2 * p) == 2 * (a * p);
      }
      BitOrDisjoint(a, y / 2, k - 1);
      assert x / 2 == a * p && x % 2 == 0;
    }
  }

  lemma {:induction false} BitOrCommutes(x: nat, y: nat)
    ensures BitOr(x, y) == BitOr(y, x)
  {
    if x > 0 || y > 0 {
      BitOrCommutes(x / 2, y / 2);
    }
  }

  // ---------- products and quotients ----------

  lemma MulMonotone(a: nat, b: nat, c: nat, d: nat)
    requires a <= c && b <= d
    ensures a * b <= c * d
  {
    assert a * b <= c * b by {
      assert (c - a) * b >= 0;
    }
    assert c * b <= c * d by {
      assert c * (d - b) >= 0;
    }
  }

  /** Quotient and remainder are what they have to be. */
  lemma DivModUnique(n: int, d: int, q: int, r: int)
    requires d > 0 && n == q * d + r && 0 <= r < d
    ensures n / d == q && n % d == r
  {
    var e := n / d - q;
    assert e * d == r - n % d by {
      assert n == (n / d) * d + n % d;
      assert e * d == (n / d) * d - q * d;
    }
    SmallMultiple(e, d);
  }

  lemma SmallMultiple(e: int, d: int)
    requires d > 0 && -d < e * d < d
    ensures e == 0
  {
    MultipleGrows(e, d);
  }

  lemma MultipleGrows(e: int, d: int)
    requires d > 0
    ensures e >= 1 ==> e * d >= d
    ensures e <= -1 ==> e * d <= -d
  {
    if e >= 1 {
      assert (e - 1) * d >= 0;
    }
    if e <= -1 {
      assert (-1 - e) * d >= 0;
    }
  }

  lemma MulExpand(h: nat, ah: nat, al: nat, bh: nat, bl: nat)
    ensures (ah * h + al) * (bh * h + bl) == ah * bh * (h * h) + (al * bh + ah * bl) * h + al * bl
  {
    assert (ah * h + al) * (bh * h + bl) == (ah * h) * (bh * h) + (ah * h) * bl + al * (bh * h) + al * bl;
    assert (ah * h) * (bh * h) == ah * bh * (h * h);
    assert (ah * h) * bl == (ah * bl) * h;
    assert al * (bh * h) == (al * bh) * h;
    assert (al * bh + ah * bl) * h == (al * bh) * h + (ah * bl) * h;
  }

  /** Multiplying by `p` inside a word of size `p * q` drops the high part. */
  lemma ShiftParts(x: nat, p: nat, q: nat)
    requires p > 0 && q > 0
    ensures x * p == (x / q) * (p * q) + (x % q) * p
    ensures p * q > 0 && (x * p) % (p * q) == (x % q) * p
    ensures (x % q) * p + p <= p * q
    ensures x < p * q ==> x / q < p
  {
    ShiftPartsOf(x, p, q, x / q, x % q);
    QuotientBound(x, p, q);
  }

  lemma ShiftPartsOf(x: nat, p: nat, q: nat, k: nat, m: nat)
    requires p > 0 && q > 0 && x == k * q + m && m < q
    ensures x * p == k * (p * q) + m * p
    ensures p * q > 0 && (x * p) % (p * q) == m * p
    ensures m * p + p <= p * q
  {
    ShiftRegroup(k, m, p, q);
    NextMultiple(m, p, q);
    DivModUnique(x * p, p * q, k, m * p);
  }

  lemma ShiftRegroup(k: nat, m: nat, p: nat, q: nat)
    ensures (k * q + m) * p == k * (p * q) + m * p
  {
    assert (k * q + m) * p == (k * q) * p + m * p;
    assert (k * q) * p == k * (q * p);
  }

  lemma NextMultiple(m: nat, p: nat, q: nat)
    requires m < q
    ensures m * p + p <= p * q
  {
    MulMonotone(m + 1, p, q, p);
    assert (m + 1) * p == m * p + p;
  }

  lemma QuotientBound(x: nat, p: nat, q: nat)
    requires q > 0
    ensures x < p * q <==> x / q < p
  {
    var k := x / q;
    if k >= p {
      MulMonotone(p, q, k, q);
    } else {
      MulMonotone(k + 1, q, p, q);
      assert (k + 1) * q == k * q + q;
    }
  }

  lemma Pow2Split(m: nat, n: nat)
    requires m <= n
    ensures Pow2(m) * Pow2(n - m) == Pow2(n)
  {
    Pow2Add(m, n - m);
  }
}
