/** Shift-and-subtract long division of 256-bit integers (cambrian-core/src/lib.rs). */
module U256Div {
  import opened Wrappers
  import opened Words
  import opened U256Words

  function BitLength(x: nat): nat {
    if x == 0 then 0 else 1 + BitLength(x / 2)
  }

  lemma {:induction false} BitLengthBounds(x: nat)
    ensures x < Pow2(BitLength(x))
    ensures x > 0 ==> BitLength(x) > 0 && Pow2(BitLength(x) - 1) <= x
  {
    if x > 0 {
      BitLengthBounds(x / 2);
    }
  }

  lemma {:induction false} BitLengthFits(x: nat, n: nat)
    requires x < Pow2(n)
    ensures BitLength(x) <= n
  {
    if x > 0 {
      BitLengthFits(x / 2, n - 1);
    }
  }

  function LeadingZeros128(x: u128): nat {
    Pow2Of128();
    BitLengthFits(x, 128);
    128 - BitLength(x)
  }

  function LeadingZeros(v: U256): nat {
    if v.hi == 0 then 128 + LeadingZeros128(v.lo) else LeadingZeros128(v.hi)
  }

  /** The leading one of `v` is at bit `255 - LeadingZeros(v)`. */
  lemma LeadingZerosBounds(v: U256)
    ensures LeadingZeros(v) <= 256 && Val(v) < Pow2(256 - LeadingZeros(v))
    ensures Val(v) > 0 ==> LeadingZeros(v) <= 255 && Pow2(255 - LeadingZeros(v)) <= Val(v)
  {
    Pow2Of128();
    if v.hi == 0 {
      BitLengthBounds(v.lo);
    } else {
      var l := BitLength(v.hi);
      BitLengthBounds(v.hi);
      BitLengthFits(v.hi, 128);
      Pow2Add(l, 128);
      Pow2Add(l - 1, 128);
      LimbBounds(v.hi, v.lo, Pow2(l - 1), Pow2(l), B128);
    }
  }

  lemma LimbBounds(hi: nat, lo: nat, low: nat, high: nat, b: nat)
    requires low <= hi < high && lo < b
    ensures low * b <= hi * b + lo < high * b
  {
    MulMonotone(low, b, hi, b);
    MulMonotone(hi + 1, b, high, b);
    assert (hi + 1) * b == hi * b + b;
  }

  function AbsDiff(a: nat, b: nat): nat {
    if a >= b then a - b else b - a
  }

  /** A value and a divisor with these leading bits, aligned. */
  lemma Align(n: nat, d: nat, topN: nat, topD: nat)
    requires 0 < topD <= topN
    requires n < Pow2(topN) && Pow2(topD - 1) <= d < Pow2(topD)
    ensures n < 2 * (d * Pow2(topN - topD)) && d * Pow2(topN - topD) < Pow2(topN)
  {
    var s := topN - topD;
    Pow2Add(topD - 1, s);
    Pow2Add(topD, s);
    MulMonotone(Pow2(topD - 1), Pow2(s), d, Pow2(s));
    MulMonotone(d + 1, Pow2(s), Pow2(topD), Pow2(s));
    assert (d + 1) * Pow2(s) == d * Pow2(s) + Pow2(s);
    assert Pow2(topD - 1 + s) * 2 == Pow2(topN);
  }

  lemma LeadingZerosOrder(n: U256, d: U256)
    requires 0 < Val(d) <= Val(n)
    ensures LeadingZeros(n) <= LeadingZeros(d) <= 255
  {
    LeadingZerosBounds(n);
    LeadingZerosBounds(d);
    if LeadingZeros(n) > LeadingZeros(d) {
      Pow2Monotone(256 - LeadingZeros(n), 255 - LeadingZeros(d));
    }
  }

  /** The starting shift aligns the leading ones and loses no bit of the divisor. */
  lemma StartShift(n: U256, d: U256)
    requires 0 < Val(d) <= Val(n)
    ensures var shift := AbsDiff(LeadingZeros(n), LeadingZeros(d));
            && shift <= 255
            && Val(Shl(d, shift)) == Val(d) * Pow2(shift)
            && Val(n) < 2 * (Val(d) * Pow2(shift))
  {
    LeadingZerosOrder(n, d);
    AlignedDivisor(n, d);
    var shift := LeadingZeros(d) - LeadingZeros(n);
    assert AbsDiff(LeadingZeros(n), LeadingZeros(d)) == shift;
    ShlKeeps(d, shift);
  }

  lemma AlignedDivisor(n: U256, d: U256)
    requires 0 < Val(d) <= Val(n) && LeadingZeros(n) <= LeadingZeros(d) <= 255
    ensures var aligned := Val(d) * Pow2(LeadingZeros(d) - LeadingZeros(n));
            Val(n) < 2 * aligned && aligned < B128 * B128
  {
    LeadingZerosBounds(n);
    LeadingZerosBounds(d);
    var ln, ld := LeadingZeros(n), LeadingZeros(d);
    Align(Val(n), Val(d), 256 - ln, 256 - ld);
    Pow2Of256();
    Pow2Monotone(256 - ln, WORD_BITS);
  }

  lemma {:induction false} ShlKeeps(v: U256, s: nat)
    requires Val(v) * Pow2(s) < B128 * B128
    ensures Val(Shl(v, s)) == Val(v) * Pow2(s)
  {
    ShlExact(v, s);
    SmallModulo(Val(v), Pow2(s), B128 * B128);
  }

  lemma SmallModulo(x: nat, y: nat, w: nat)
    requires x * y < w
    ensures (x * y) % w == x * y
  {
    assert x * y >= 0;
  }

  lemma {:induction false} PowerOfTwo(i: nat)
    requires i <= 255
    ensures Val(Shl(ONE, i)) == Pow2(i)
  {
    Pow2Monotone(i, 255);
    Pow2Of256();
    ShlExact(ONE, i);
    OneTimes(Pow2(i), B128 * B128);
  }

  lemma OneTimes(p: nat, m: nat)
    requires p < m
    ensures (1 * p) % m == p
  {
    DivModUnique(p, m, 0, p);
  }

  lemma HalveDivisor(divisor: U256, d: nat, i: nat)
    requires i > 0 && Val(divisor) == d * Pow2(i)
    ensures Val(Shr(divisor, 1)) == d * Pow2(i - 1)
  {
    ShrExact(divisor, 1);
    assert Pow2(1) == 2;
    HalfProduct(d, Pow2(i), Pow2(i - 1));
  }

  lemma HalfProduct(d: nat, p: nat, q: nat)
    requires p == 2 * q
    ensures d * p / 2 == d * q
  {
    assert d * p == 2 * (d * q);
  }

  /** `n = quot * d + rem` before bits `k - 1 .. 0` of the quotient are decided. */
  ghost predicate DivInv(n: nat, d: nat, quot: nat, rem: nat, k: nat) {
    n == quot * d + rem && rem < d * Pow2(k)
  }

  /** Deciding bit `i`: subtracting keeps the invariant and the quotient fits. */
  lemma DivBit(n: nat, d: nat, quot: nat, rem: nat, i: nat)
    requires d > 0 && DivInv(n, d, quot, rem, i + 1)
    ensures if rem >= d * Pow2(i)
            then DivInv(n, d, quot + Pow2(i), rem - d * Pow2(i), i) && quot + Pow2(i) <= n
            else DivInv(n, d, quot, rem, i)
  {
    var v := d * Pow2(i);
    assert d * Pow2(i + 1) == 2 * v;
    if rem >= v {
      assert (quot + Pow2(i)) * d == quot * d + v;
      MulMonotone(quot + Pow2(i), 1, quot + Pow2(i), d);
    }
  }

  method DivRem(n: U256, d: U256) returns (r: Option<(U256, U256)>)
    ensures r.Some? <==> Val(d) != 0
    ensures r.Some? ==> Val(n) == Val(r.value.0) * Val(d) + Val(r.value.1) && Val(r.value.1) < Val(d)
  {
    if d.hi == 0 && d.lo == 0 {
      return None;
    }
    if Less(n, d) {
      return Some((ZERO, n));
    }
    if d.hi == 0 && n.hi == 0 {
      QuotientFits(n.lo, d.lo);
      return Some((U256(0, n.lo / d.lo), U256(0, n.lo % d.lo)));
    }
    var q, m := LongDivide(n, d);
    return Some((q, m));
  }

  method LongDivide(n: U256, d: U256) returns (quot: U256, rem: U256)
    requires 0 < Val(d) <= Val(n)
    ensures Val(n) == Val(quot) * Val(d) + Val(rem) && Val(rem) < Val(d)
  {
    var shift := AbsDiff(LeadingZeros(n), LeadingZeros(d));
    StartShift(n, d);
    var divisor := Shl(d, shift);
    rem, quot := n, ZERO;
    StartInv(Val(n), Val(d), shift);
    var k := shift + 1;
    while k > 0
      invariant 0 <= k <= shift + 1
      invariant DivInv(Val(n), Val(d), Val(quot), Val(rem), k)
      invariant k > 0 ==> Val(divisor) == Val(d) * Pow2(k - 1)
    {
      var i := k - 1;
      quot, rem := DecideBit(n, d, quot, rem, divisor, i);
      if i > 0 {
        HalveDivisor(divisor, Val(d), i);
      }
      divisor := Shr(divisor, 1);
      k := i;
    }
  }

  lemma {:induction false} StartInv(n: nat, d: nat, shift: nat)
    requires n < 2 * (d * Pow2(shift))
    ensures DivInv(n, d, 0, n, shift + 1)
  {
    assert d * Pow2(shift + 1) == 2 * (d * Pow2(shift));
  }

  /** The body of the loop: neither the subtraction nor the addition can fail. */
  method DecideBit(ghost n: U256, ghost d: U256, quot0: U256, rem0: U256, divisor: U256,
                   i: nat) returns (quot: U256, rem: U256)
    requires Val(d) > 0 && i <= 255
    requires DivInv(Val(n), Val(d), Val(quot0), Val(rem0), i + 1)
    requires Val(divisor) == Val(d) * Pow2(i)
    ensures DivInv(Val(n), Val(d), Val(quot), Val(rem), i)
  {
    DivBit(Val(n), Val(d), Val(quot0), Val(rem0), i);
    quot, rem := quot0, rem0;
    if !Less(rem, divisor) {
      PowerOfTwo(i);
      rem := Sub(rem, divisor).value;
      quot := Add(quot, Shl(ONE, i)).value;
    }
  }

  lemma QuotientFits(a: u128, b: u128)
    requires b > 0
    ensures 0 <= a / b < B128 && a == (a / b) * b + a % b
  {
    DivBounded(a, b, B128);
  }
}
