/** Full-width multiply-then-divide (cambrian-core/src/lib.rs): the 512-bit
    product and divider behind `muldiv` on U256, and the u128 and i128 forms. */
module MulDiv {
  import opened Wrappers
  import opened Words
  import opened U256Words
  import opened U256Div

  datatype U512 = U512(hi: U256, lo: U256)

  const B512: nat := B128 * B128 * (B128 * B128)

  function Val512(x: U512): nat {
    Val(x.hi) * (B128 * B128) + Val(x.lo)
  }

  /** The top limb of a product of two values below `b * b` fits. */
  lemma TopLimb(b: nat, low: nat, p2: nat, p3: nat, x: nat, y: nat)
    requires b > 0 && x < b * b && y < b * b
    requires (p3 * b + p2) * (b * b) + low == x * y
    ensures p3 < b
  {
    var m := b * b;
    MulMonotone(x, y, m - 1, m - 1);
    assert (m - 1) * (m - 1) == m * m - 2 * m + 1;
    if p3 >= b {
      TopLimbGrows(b, p2, p3);
    }
  }

  lemma TopLimbGrows(b: nat, p2: nat, p3: nat)
    requires p3 >= b
    ensures (p3 * b + p2) * (b * b) >= (b * b) * (b * b)
  {
    MulMonotone(b, b, p3, b);
    MulMonotone(b * b, b * b, p3 * b + p2, b * b);
  }

  /** Adding limb products with their carries adds the products. */
  lemma CarrySum(b: nat, llHi: nat, llLo: nat, lhHi: nat, lhLo: nat, hlHi: nat, hlLo: nat, hhHi: nat, hhLo: nat,
                 p1: nat, c1: nat, p2: nat, c2: nat)
    requires p1 + c1 * b == llHi + lhLo + hlLo
    requires p2 + c2 * b == lhHi + hlHi + hhLo + c1
    ensures ((hhHi + c2) * b + p2) * (b * b) + (p1 * b + llLo) ==
            (hhHi * b + hhLo) * (b * b) + ((lhHi * b + lhLo) + (hlHi * b + hlLo)) * b + (llHi * b + llLo)
  {
    var bb := b * b;
    LowColumn(b, llHi + lhLo + hlLo, p1, c1);
    HighColumn(b, lhHi + hlHi + hhLo + c1, p2, c2, hhHi);
    assert (lhHi + hlHi + hhLo + c1) * bb == lhHi * bb + hlHi * bb + hhLo * bb + c1 * bb;
    assert (llHi + lhLo + hlLo) * b == llHi * b + lhLo * b + hlLo * b;
    CrossColumns(b, lhHi, lhLo, hlHi, hlLo);
    assert (hhHi * b + hhLo) * bb == (hhHi * b) * bb + hhLo * bb;
  }

  lemma LowColumn(b: nat, sum: nat, p: nat, c: nat)
    requires p + c * b == sum
    ensures p * b + c * (b * b) == sum * b
  {
    assert (p + c * b) * b == p * b + (c * b) * b;
  }

  lemma HighColumn(b: nat, sum: nat, p: nat, c: nat, top: nat)
    requires p + c * b == sum
    ensures ((top + c) * b + p) * (b * b) == (top * b) * (b * b) + sum * (b * b)
  {
    assert (top + c) * b + p == top * b + sum;
  }

  lemma CrossColumns(b: nat, lhHi: nat, lhLo: nat, hlHi: nat, hlLo: nat)
    ensures ((lhHi * b + lhLo) + (hlHi * b + hlLo)) * b == lhHi * (b * b) + hlHi * (b * b) + lhLo * b + hlLo * b
  {
    assert (lhHi * b) * b == lhHi * (b * b) && (hlHi * b) * b == hlHi * (b * b);
  }

  /** Sum of three limbs: the wrapped limb and the number of carries. */
  function Add3(x: u128, y: u128, z: u128): (r: (u128, nat))
    ensures r.1 <= 2 && r.0 + r.1 * B128 == x + y + z
  {
    var (s, c) := OverflowingAdd(x, y);
    var (t, d) := OverflowingAdd(s, z);
    (t, c + d)
  }

  lemma Columns(a: U256, b: U256, llHi: nat, llLo: nat, lhHi: nat, lhLo: nat, hlHi: nat, hlLo: nat, hhHi: nat,
                hhLo: nat,
                p1: nat, c1: nat, p2: nat, c2: nat)
    requires llHi * B128 + llLo == a.lo * b.lo && lhHi * B128 + lhLo == a.lo * b.hi
    requires hlHi * B128 + hlLo == a.hi * b.lo && hhHi * B128 + hhLo == a.hi * b.hi
    requires p1 + c1 * B128 == llHi + lhLo + hlLo
    requires p2 + c2 * B128 == lhHi + hlHi + hhLo + c1
    ensures hhHi + c2 < B128
    ensures ((hhHi + c2) * B128 + p2) * (B128 * B128) + (p1 * B128 + llLo) == Val(a) * Val(b)
  {
    ProductOfLimbs(a, b);
    CarrySum(B128, llHi, llLo, lhHi, lhLo, hlHi, hlLo, hhHi, hhLo, p1, c1, p2, c2);
    TopLimb(B128, p1 * B128 + llLo, p2, hhHi + c2, Val(a), Val(b));
  }

  /** Four limb products and their carries; the top limb does not overflow. */
  function Mul512(a: U256, b: U256): (r: U512)
    ensures Val512(r) == Val(a) * Val(b)
  {
    var (llHi, llLo) := WideningMul(a.lo, b.lo);
    var (lhHi, lhLo) := WideningMul(a.lo, b.hi);
    var (hlHi, hlLo) := WideningMul(a.hi, b.lo);
    var (hhHi, hhLo) := WideningMul(a.hi, b.hi);
    var (p1, c1) := Add3(llHi, lhLo, hlLo);
    var (p2a, c2a) := Add3(lhHi, hlHi, hhLo);
    var (p2, c2b) := OverflowingAdd(p2a, c1);
    var c2 := c2a + c2b;
    Columns(a, b, llHi, llLo, lhHi, lhLo, hlHi, hlLo, hhHi, hhLo, p1, c1, p2, c2);
    var p3: u128 := hhHi + c2;
    U512(U256(p3, p2), U256(p1, llLo))
  }

  function Sub512(a: U512, b: U512): (r: Option<U512>)
    ensures r.Some? <==> Val512(b) <= Val512(a)
    ensures r.Some? ==> Val512(r.value) == Val512(a) - Val512(b)
  {
    var borrow := Less(a.lo, b.lo);
    var lo := if borrow then Add(Add(Sub(MAX, b.lo).value, a.lo).value, ONE).value else Sub(a.lo, b.lo).value;
    var hi1 :- Sub(a.hi, b.hi);
    var hi :- Sub(hi1, if borrow then ONE else ZERO);
    Some(U512(hi, lo))
  }

  predicate Gte512(a: U512, b: U512)
    ensures Gte512(a, b) <==> Val512(b) <= Val512(a)
  {
    Less(b.hi, a.hi) || (a.hi == b.hi && !Less(a.lo, b.lo))
  }

  function Shl512(v: U256, s: nat): U512 {
    if s == 0 then U512(ZERO, v)
    else if s >= 512 then U512(ZERO, ZERO)
    else if s >= 256 then U512(Shl(v, s - 256), ZERO)
    else U512(Shr(v, 256 - s), Shl(v, s))
  }

  lemma {:induction false} Shl512Low(v: U256, s: nat)
    requires 0 < s < 256
    ensures Val512(Shl512(v, s)) == Val(v) * Pow2(s)
  {
    Pow2Of256();
    Pow2Split(s, WORD_BITS);
    ShlExact(v, s);
    ShrExact(v, 256 - s);
    SpreadShift(Val(v), Pow2(s), Pow2(256 - s), B128 * B128);
  }

  lemma SpreadShift(x: nat, p: nat, q: nat, w: nat)
    requires p > 0 && q > 0 && w == p * q
    ensures w > 0 && (x / q) * w + (x * p) % w == x * p
  {
    ShiftParts(x, p, q);
  }

  lemma HighShift(x: nat, p: nat, w: nat, ps: nat)
    requires ps == w * p && x * ps < w * w
    ensures x * p < w && x * ps == (x * p) * w
  {
    assert x * (w * p) == (x * p) * w;
    if x * p >= w {
      MulMonotone(w, w, x * p, w);
    }
  }

  lemma {:induction false} HighValue(v: U256, s: nat)
    requires 256 <= s < 512 && Val(v) * Pow2(s) < B512
    ensures Val(v) * Pow2(s) == Val(Shl(v, s - 256)) * (B128 * B128)
  {
    WidePowers(s);
    HighShift(Val(v), Pow2(s - 256), B128 * B128, Pow2(s));
    ShlKeeps(v, s - 256);
  }

  lemma WidePowers(s: nat)
    requires s >= 256
    ensures Pow2(s) == B128 * B128 * Pow2(s - 256)
  {
    Pow2Of256();
    Pow2Split(WORD_BITS, s);
  }

  lemma {:induction false} Shl512High(v: U256, s: nat)
    requires 256 <= s < 512 && Val(v) * Pow2(s) < B512
    ensures Val512(Shl512(v, s)) == Val(v) * Pow2(s)
  {
    HighValue(v, s);
    assert Val(ZERO) == 0;
  }

  lemma ZeroIfBig(x: nat, p: nat)
    requires x * p < p
    ensures x == 0
  {
    if x >= 1 {
      MulMonotone(1, p, x, p);
    }
  }

  lemma {:induction false} Shl512Ends(v: U256, s: nat)
    requires s == 0 || (s >= 512 && Val(v) * Pow2(s) < Pow2(s))
    ensures Val512(Shl512(v, s)) == Val(v) * Pow2(s)
  {
    if s == 0 {
      assert Pow2(s) == 1;
    } else {
      ZeroIfBig(Val(v), Pow2(s));
    }
  }

  /** The shifted divisor is exact whenever it fits in 512 bits. */
  lemma {:induction false} Shl512Exact(v: U256, s: nat)
    requires s <= 512 && Val(v) * Pow2(s) < B512
    ensures Val512(Shl512(v, s)) == Val(v) * Pow2(s)
  {
    if 0 < s < 256 {
      Shl512Low(v, s);
    } else if 0 < s < 512 {
      Shl512High(v, s);
    } else {
      if s == 512 {
        WidePowers(s);
        Pow2AroundWord(s - 256);
      }
      Shl512Ends(v, s);
    }
  }

  /** The first shift is large enough to cover the dividend and keeps the divisor in 512 bits. */
  lemma StartShift512(n: U512, d: U256)
    requires Val(n.hi) > 0
    ensures var nlz, dlz := LeadingZeros(n.hi), LeadingZeros(d);
            && nlz <= 255
            && Val(d) * Pow2(256 + dlz - nlz) < B512
            && (Val(d) > 0 ==> Val512(n) < 2 * (Val(d) * Pow2(256 + dlz - nlz)))
  {
    var nlz, dlz := LeadingZeros(n.hi), LeadingZeros(d);
    LeadingZerosBounds(n.hi);
    LeadingZerosBounds(d);
    DividendBound(n, nlz);
    AlignWide(Val512(n), Val(d), 256 - nlz, 256 - dlz);
  }

  lemma DividendBound(n: U512, nlz: nat)
    requires nlz <= 256 && Val(n.hi) < Pow2(256 - nlz)
    ensures Val512(n) < Pow2(512 - nlz)
  {
    Pow2Of256();
    Pow2Add(256 - nlz, WORD_BITS);
    LimbBounds(Val(n.hi), Val(n.lo), 0, Pow2(256 - nlz), B128 * B128);
  }

  lemma PowerFits512(s: nat)
    requires s <= 512
    ensures Pow2(s) <= B512
  {
    if s < 256 {
      Pow2AroundWord(s);
    } else {
      WidePowers(s);
      Pow2AroundWord(s - 256);
    }
  }

  lemma AlignWide(n: nat, d: nat, topN: nat, topD: nat)
    requires 0 < topN <= 256 && topD <= 256 && n < Pow2(topN + 256)
    requires d < Pow2(topD) && (d > 0 ==> topD > 0 && Pow2(topD - 1) <= d)
    ensures d * Pow2(topN + 256 - topD) < B512
    ensures d > 0 ==> n < 2 * (d * Pow2(topN + 256 - topD))
  {
    if d > 0 {
      Align(n, d, topN + 256, topD);
      PowerFits512(topN + 256);
    }
  }

  /** A bit at or above 2^256 in the quotient means the quotient does not fit. */
  lemma {:induction false} BigBit(n: nat, d: nat, w: nat, i: nat)
    requires i >= 256 && w == B128 * B128 && n >= d * Pow2(i)
    ensures n >= d * w
  {
    Pow2AroundWord(i);
    MulMonotone(d, w, d, Pow2(i));
  }

  lemma SmallQuotient(n: nat, d: nat, q: nat, w: nat)
    requires q * d <= n < d * w
    ensures q < w
  {
    if q >= w {
      MulMonotone(w, d, q, d);
    }
  }

  lemma {:induction false} ShiftedFits(d: nat, i: nat, shift: nat)
    requires i <= shift && d * Pow2(shift) < B512
    ensures d * Pow2(i) < B512
  {
    Pow2Monotone(i, shift);
    MulMonotone(d, Pow2(i), d, Pow2(shift));
  }

  /** The quotient has no bit at or above `k` yet, once `k` has passed 256. */
  ghost predicate Div512Inv(n: nat, d: nat, quot: nat, rem: nat, k: nat) {
    && n == quot * d + rem
    && (d > 0 ==> rem < d * Pow2(k))
    && (k >= 256 ==> quot == 0)
    && (k <= 256 ==> n < d * (B128 * B128))
  }

  method ShiftDivisor(d: U256, i: nat) returns (dsh: U512)
    requires i <= 512 && Val(d) * Pow2(i) < B512
    ensures Val512(dsh) == Val(d) * Pow2(i)
  {
    dsh := Shl512(d, i);
    Shl512Exact(d, i);
  }

  method SetBit(quot0: U256, i: nat) returns (quot: U256)
    requires i < 256 && Val(quot0) + Pow2(i) < B128 * B128
    ensures Val(quot) == Val(quot0) + Pow2(i)
  {
    PowerOfTwo(i);
    Pow2Of256();
    quot := Add(quot0, Shl(ONE, i)).value;
  }

  method Subtract512(a: U512, b: U512) returns (r: U512)
    requires Val512(b) <= Val512(a)
    ensures Val512(r) == Val512(a) - Val512(b)
  {
    r := Sub512(a, b).value;
  }

  /** One iteration; `None` is the failed assertion that the bit is below 256. */
  method DecideBit512(ghost n: nat, d: U256, quot0: U256, rem0: U512, i: nat) returns (r: Option<(U256, U512)>)
    requires i <= 512 && Val(d) * Pow2(i) < B512
    requires Div512Inv(n, Val(d), Val(quot0), Val512(rem0), i + 1)
    ensures r.None? ==> n >= Val(d) * (B128 * B128)
    ensures r.Some? ==> Div512Inv(n, Val(d), Val(r.value.0), Val512(r.value.1), i)
  {
    var dsh := ShiftDivisor(d, i);
    if Gte512(rem0, dsh) {
      if i >= 256 {
        NoQuotientYet(n, Val(d), Val(quot0), Val512(rem0), i);
        return None;
      }
      BitFits(n, Val(d), Val(quot0), Val512(rem0), i);
      var quot := SetBit(quot0, i);
      var rem := Subtract512(rem0, dsh);
      Bit512(n, Val(d), Val(quot0), Val512(rem0), i, Val(quot), Val512(rem));
      return Some((quot, rem));
    }
    NoBit512(n, Val(d), Val(quot0), Val512(rem0), i);
    return Some((quot0, rem0));
  }

  lemma {:induction false} NoQuotientYet(n: nat, d: nat, quot: nat, rem: nat, i: nat)
    requires i >= 256 && Div512Inv(n, d, quot, rem, i + 1) && rem >= d * Pow2(i)
    ensures n >= d * (B128 * B128)
  {
    assert quot * d == 0;
    BigBit(n, d, B128 * B128, i);
  }

  lemma {:induction false} BitFits(n: nat, d: nat, quot: nat, rem: nat, i: nat)
    requires i < 256 && Div512Inv(n, d, quot, rem, i + 1) && rem >= d * Pow2(i)
    ensures quot + Pow2(i) < B128 * B128
  {
    PositiveDivisor(n, d, B128 * B128);
    DivBit(n, d, quot, rem, i);
    SmallQuotient(n, d, quot + Pow2(i), B128 * B128);
  }

  lemma {:induction false} Bit512(n: nat, d: nat, quot: nat, rem: nat, i: nat, quot': nat, rem': nat)
    requires i < 256 && Div512Inv(n, d, quot, rem, i + 1) && rem >= d * Pow2(i)
    requires quot' == quot + Pow2(i) && rem' == rem - d * Pow2(i)
    ensures Div512Inv(n, d, quot', rem', i)
  {
    PositiveDivisor(n, d, B128 * B128);
    DivBit(n, d, quot, rem, i);
  }

  lemma NoBit512(n: nat, d: nat, quot: nat, rem: nat, i: nat)
    requires Div512Inv(n, d, quot, rem, i + 1) && rem < d * Pow2(i)
    ensures Div512Inv(n, d, quot, rem, i)
  {
    assert quot == 0 ==> quot * d == 0;
    if i == 256 {
      Pow2AroundWord(i);
    }
  }

  lemma {:induction false} Start512(n: nat, d: nat, shift: nat)
    requires d > 0 ==> n < 2 * (d * Pow2(shift))
    requires d == 0 ==> shift >= 256
    ensures Div512Inv(n, d, 0, n, shift + 1)
  {
    assert d * Pow2(shift + 1) == 2 * (d * Pow2(shift));
    if shift + 1 <= 256 {
      Pow2AroundWord(shift + 1);
      MulMonotone(d, Pow2(shift + 1), d, B128 * B128);
    }
  }

  function SaturatingSub(a: nat, b: nat): nat {
    if a >= b then a - b else 0
  }

  lemma PositiveDivisor(n: nat, d: nat, w: nat)
    requires n < d * w
    ensures d > 0
  {
  }

  lemma Finish512(n: nat, d: nat, quot: nat, rem: nat)
    requires Div512Inv(n, d, quot, rem, 0)
    ensures n < d * (B128 * B128) && d > 0 && n / d == quot
  {
    PositiveDivisor(n, d, B128 * B128);
    assert Pow2(0) == 1;
    DivModUnique(n, d, quot, rem);
  }

  /** Division panics exactly when the quotient does not fit in 256 bits, zero divisors included. */
  method Div512(n: U512, d: U256) returns (r: Option<U256>)
    ensures r.Some? <==> Val512(n) < Val(d) * (B128 * B128)
    ensures r.Some? ==> Val(d) > 0 && Val(r.value) == Val512(n) / Val(d)
  {
    if n.hi.hi == 0 && n.hi.lo == 0 {
      assert Val512(n) == Val(n.lo);
      r := DivideLow(n.lo, d);
      return;
    }
    var nlz, dlz := LeadingZeros(n.hi), LeadingZeros(d);
    StartShift512(n, d);
    if nlz > dlz + 256 {
      assert false;
    }
    var shift := SaturatingSub(256 + dlz, nlz);
    r := LongDivide512(n, d, shift);
  }

  method DivideLow(n: U256, d: U256) returns (r: Option<U256>)
    ensures r.Some? <==> Val(n) < Val(d) * (B128 * B128)
    ensures r.Some? ==> Val(d) > 0 && Val(r.value) == Val(n) / Val(d)
  {
    var qr := DivRem(n, d);
    SmallDividend(Val(n), Val(d));
    match qr
    case None => return None;
    case Some((q, m)) =>
      DivModUnique(Val(n), Val(d), Val(q), Val(m));
      return Some(q);
  }

  lemma SmallDividend(n: nat, d: nat)
    requires n < B128 * B128
    ensures n < d * (B128 * B128) <==> d != 0
  {
    Pow2Of256();
    if d > 0 {
      MulMonotone(1, B128 * B128, d, B128 * B128);
    }
  }

  method LongDivide512(n: U512, d: U256, shift: nat) returns (r: Option<U256>)
    requires shift <= 512 && Val(d) * Pow2(shift) < B512
    requires Val(d) > 0 ==> Val512(n) < 2 * (Val(d) * Pow2(shift))
    requires Val(d) == 0 ==> shift >= 256
    ensures r.Some? <==> Val512(n) < Val(d) * (B128 * B128)
    ensures r.Some? ==> Val(d) > 0 && Val(r.value) == Val512(n) / Val(d)
  {
    var quot, rem := ZERO, n;
    Start512(Val512(n), Val(d), shift);
    var k := shift + 1;
    while k > 0
      invariant 0 <= k <= shift + 1
      invariant Div512Inv(Val512(n), Val(d), Val(quot), Val512(rem), k)
    {
      var i := k - 1;
      ShiftedFits(Val(d), i, shift);
      var step := DecideBit512(Val512(n), d, quot, rem, i);
      if step.None? {
        return None;
      }
      quot, rem := step.value.0, step.value.1;
      k := i;
    }
    Finish512(Val512(n), Val(d), Val(quot), Val512(rem));
    return Some(quot);
  }

  // ---------- muldiv on U256 ----------

  lemma QuotientFitsIff(n: nat, d: nat)
    ensures n < d * (B128 * B128) <==> d > 0 && n / d < B128 * B128
  {
    Pow2Of256();
    if d > 0 {
      QuotientBound(n, B128 * B128, d);
    }
  }

  method U256MulDiv(x: U256, y: U256, z: U256) returns (r: Option<U256>)
    ensures Val(x) * Val(y) == 0 ==> r == Some(ZERO)
    ensures Val(x) * Val(y) > 0 ==> (r.Some? <==> Val(z) > 0 && Val(x) * Val(y) / Val(z) < B128 * B128)
    ensures Val(x) * Val(y) > 0 && r.Some? ==> Val(r.value) == Val(x) * Val(y) / Val(z)
  {
    if IsZero(x) || IsZero(y) {
      return Some(ZERO);
    }
    NonZeroProduct(Val(x), Val(y));
    var product := Mul512(x, y);
    QuotientFitsIff(Val512(product), Val(z));
    r := Div512(product, z);
  }

  predicate IsZero(x: U256)
    ensures IsZero(x) <==> Val(x) == 0
  {
    x.hi == 0 && x.lo == 0
  }

  lemma NonZeroProduct(x: nat, y: nat)
    requires x > 0 && y > 0
    ensures x * y > 0
  {
    MulMonotone(1, 1, x, y);
  }

  method U256MulDivMod(x: U256, y: U256, z: U256) returns (r: Option<(U256, U256)>)
    ensures Val(x) * Val(y) == 0 ==> r == Some((ZERO, ZERO))
    ensures Val(x) * Val(y) > 0 ==> (r.Some? <==> Val(z) > 0 && Val(x) * Val(y) / Val(z) < B128 * B128)
    ensures Val(x) * Val(y) > 0 && r.Some? ==>
              && Val(x) * Val(y) == Val(r.value.0) * Val(z) + Val(r.value.1)
              && Val(r.value.1) < Val(z)
  {
    if IsZero(x) || IsZero(y) {
      return Some((ZERO, ZERO));
    }
    NonZeroProduct(Val(x), Val(y));
    var product := Mul512(x, y);
    QuotientFitsIff(Val512(product), Val(z));
    var q := Div512(product, z);
    if q.None? {
      return None;
    }
    var qz := Mul512(q.value, z);
    RemainderSmall(Val512(product), Val(z), Val(q.value));
    var rest := Subtract512(product, qz);
    LowHalf(rest, Val(z));
    return Some((q.value, rest.lo));
  }

  lemma RemainderSmall(n: nat, d: nat, q: nat)
    requires d > 0 && q == n / d
    ensures q * d <= n && n - q * d < d
  {
    assert n == (n / d) * d + n % d;
  }

  lemma HighIsZero(h: nat, w: nat, l: nat)
    requires h * w + l < w
    ensures h == 0
  {
    if h >= 1 {
      MulMonotone(1, w, h, w);
    }
  }

  lemma LowHalf(x: U512, z: nat)
    requires Val512(x) < z < B128 * B128
    ensures Val(x.lo) == Val512(x)
  {
    HighIsZero(Val(x.hi), B128 * B128, Val(x.lo));
  }

  // ---------- muldiv on u128 and i128 ----------

  lemma OneLimb(v: U256)
    ensures v.hi == 0 <==> Val(v) < B128
    ensures v.hi == 0 ==> Val(v) == v.lo
  {
  }

  method U128WideMulDiv(x: u128, y: u128, z: u128) returns (r: Option<u128>)
    ensures r.Some? <==> z > 0 && x * y / z < B128
    ensures r.Some? ==> r.value == x * y / z
  {
    var (hi, lo) := WideningMul(x, y);
    var qr := DivRem(U256(hi, lo), U256(0, z));
    match qr
    case None => return None;
    case Some((q, m)) =>
      DivModUnique(x * y, z, Val(q), Val(m));
      OneLimb(q);
      if q.hi != 0 {
        return None;
      }
      return Some(q.lo);
  }

  method U128MulDiv(x: u128, y: u128, z: u128) returns (r: Option<u128>)
    ensures x * y == 0 ==> r == Some(0)
    ensures x * y > 0 ==> (r.Some? <==> z > 0 && x * y / z < B128)
    ensures x * y > 0 && r.Some? ==> r.value == x * y / z
  {
    if x == 0 || y == 0 {
      return Some(0);
    }
    NonZeroProduct(x, y);
    r := U128WideMulDiv(x, y, z);
  }

  method U128MulDivMod(x: u128, y: u128, z: u128) returns (r: Option<(u128, u128)>)
    ensures x * y == 0 ==> r == Some((0, 0))
    ensures x * y > 0 ==> (r.Some? <==> z > 0 && x * y / z < B128)
    ensures x * y > 0 && r.Some? ==> x * y == r.value.0 * z + r.value.1 && r.value.1 < z
  {
    if x == 0 || y == 0 {
      return Some((0, 0));
    }
    NonZeroProduct(x, y);
    var q := U128WideMulDiv(x, y, z);
    if q.None? {
      return None;
    }
    var (hi, lo) := WideningMul(x, y);
    var rem := Remainder(U256(hi, lo), U256(0, z));
    OneLimb(rem);
    RemainderSmall(x * y, z, q.value);
    return Some((q.value, rem.lo));
  }

  method Remainder(n: U256, d: U256) returns (rem: U256)
    requires Val(d) > 0
    ensures Val(rem) == Val(n) - Val(n) / Val(d) * Val(d) && Val(rem) < Val(d)
  {
    var qr := DivRem(n, d);
    rem := qr.value.1;
    DivModUnique(Val(n), Val(d), Val(qr.value.0), Val(rem));
  }

  const B127: int := 0x8000_0000_0000_0000_0000_0000_0000_0000

  type i128 = x: int | -B127 <= x < B127

  function Abs(x: int): nat {
    if x < 0 then -x else x
  }

  function UnsignedAbs(x: i128): u128 {
    Abs(x)
  }

  function ToI128Checked(val: u128, negative: bool): Option<i128> {
    if negative then
      if val == B127 then Some(-B127)
      else if val > B127 then None
      else Some(-(val as int))
    else if val <= B127 - 1 then Some(val) else None
  }

  /** Division truncating toward zero. */
  function TruncDiv(n: int, d: int): int
    requires d != 0
  {
    if (n < 0) != (d < 0) then -(Abs(n) / Abs(d)) else Abs(n) / Abs(d)
  }

  /** `n = q*d + r` with `r` smaller than `d` and zero or signed like `n`. */
  ghost predicate Truncated(n: int, d: int, q: int, r: int) {
    n == q * d + r && Abs(r) < Abs(d) && (r == 0 || (r < 0 <==> n < 0))
  }

  lemma AbsProduct(x: int, y: int)
    ensures Abs(x * y) == Abs(x) * Abs(y)
    ensures x != 0 && y != 0 ==> (x * y < 0 <==> (x < 0) != (y < 0)) && Abs(x) * Abs(y) > 0
    ensures x == 0 || y == 0 ==> Abs(x) * Abs(y) == 0
  {
    if x != 0 && y != 0 {
      NonZeroProduct(Abs(x), Abs(y));
    }
    assert (-x) * y == -(x * y) && x * (-y) == -(x * y) && (-x) * (-y) == x * y;
  }

  lemma SignedFromUnsigned(n: int, d: int, q: int, r: int)
    requires d != 0 && q >= 0 && r >= 0 && Abs(n) == q * Abs(d) + r && r < Abs(d)
    ensures Truncated(n, d, if (n < 0) != (d < 0) then -q else q, if n < 0 then -r else r)
    ensures TruncDiv(n, d) == if (n < 0) != (d < 0) then -q else q
  {
    DivModUnique(Abs(n), Abs(d), q, r);
    assert (-q) * d == -(q * d) && q * (-d) == -(q * d) && (-q) * (-d) == q * d;
  }

  method I128MulDivMod(x: i128, y: i128, z: i128) returns (r: Option<(i128, i128)>)
    ensures x * y == 0 ==> r == Some((0, 0))
    ensures x * y != 0 ==> (r.Some? <==> z != 0 && -B127 <= TruncDiv(x * y, z) < B127)
    ensures x * y != 0 && r.Some? ==> Truncated(x * y, z, r.value.0, r.value.1)
  {
    AbsProduct(x, y);
    if x == 0 || y == 0 {
      return Some((0, 0));
    }
    var qr := U128MulDivMod(UnsignedAbs(x), UnsignedAbs(y), UnsignedAbs(z));
    var qSign := ((x < 0) != (y < 0)) != (z < 0);
    var rSign := (x < 0) != (y < 0);
    match qr
    case None =>
      return None;
    case Some((qu, ru)) =>
      SignedFromUnsigned(x * y, z, qu, ru);
      var q := ToI128Checked(qu, qSign);
      var m := ToI128Checked(ru, rSign);
      if q.None? || m.None? {
        return None;
      }
      return Some((q.value, m.value));
  }

  method I128MulDiv(x: i128, y: i128, z: i128) returns (r: Option<i128>)
    ensures x * y == 0 ==> r == Some(0)
    ensures x * y != 0 ==> (r.Some? <==> z != 0 && -B127 <= TruncDiv(x * y, z) < B127)
    ensures x * y != 0 && r.Some? ==> r.value == TruncDiv(x * y, z)
  {
    AbsProduct(x, y);
    if x == 0 || y == 0 {
      return Some(0);
    }
    var sign := ((x < 0) != (y < 0)) != (z < 0);
    var q := U128MulDiv(UnsignedAbs(x), UnsignedAbs(y), UnsignedAbs(z));
    match q
    case None => return None;
    case Some(qu) => return ToI128Checked(qu, sign);
  }

  /** The truncated quotient and remainder are the only pair of that shape. */
  lemma TruncatedUnique(n: int, d: int, q: int, r: int)
    requires d != 0 && Truncated(n, d, q, r)
    ensures q == TruncDiv(n, d)
  {
    assert (-q) * d == -(q * d) && q * (-d) == -(q * d) && (-q) * (-d) == q * d;
    if n == 0 {
      SmallMultiple(q, Abs(d));
    } else {
      var s := if (n < 0) != (d < 0) then -q else q;
      assert Abs(n) == s * Abs(d) + Abs(r);
      DivModUnique(Abs(n), Abs(d), s, Abs(r));
    }
  }
}
