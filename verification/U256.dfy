/** 256-bit unsigned integers as two 128-bit limbs (cambrian-core/src/lib.rs).
    A panic of the original is the result `None`. */
module U256Words {
  import opened Wrappers
  import opened Words

  datatype U256 = U256(hi: u128, lo: u128)

  const ZERO := U256(0, 0)
  const ONE := U256(0, 1)
  const MAX := U256(B128 - 1, B128 - 1)

  function Val(x: U256): (r: nat)
    ensures r < B128 * B128
  {
    x.hi * B128 + x.lo
  }

  function CheckedAdd(a: u128, b: u128): Option<u128> {
    if a + b < B128 then Some(a + b) else None
  }

  function CheckedSub(a: u128, b: u128): Option<u128> {
    if a >= b then Some(a - b) else None
  }

  function CheckedMul(a: u128, b: u128): Option<u128> {
    if a * b < B128 then Some(a * b) else None
  }

  /** The overflowing forms: the wrapped result, and whether it wrapped. */
  function OverflowingAdd(a: u128, b: u128): (u128, nat) {
    if a + b < B128 then (a + b, 0) else (a + b - B128, 1)
  }

  function OverflowingSub(a: u128, b: u128): (u128, nat) {
    if a >= b then (a - b, 0) else (a - b + B128, 1)
  }

  function WrapAdd(a: u128, b: u128): u128 {
    OverflowingAdd(a, b).0
  }

  function WrapSub(a: u128, b: u128): u128 {
    OverflowingSub(a, b).0
  }

  function Add(a: U256, b: U256): (r: Option<U256>)
    ensures r.Some? <==> Val(a) + Val(b) < B128 * B128
    ensures r.Some? ==> Val(r.value) == Val(a) + Val(b)
  {
    var (lo, carry) := OverflowingAdd(a.lo, b.lo);
    var hi :- CheckedAdd(a.hi, b.hi);
    var hi2 :- CheckedAdd(hi, carry);
    Some(U256(hi2, lo))
  }

  function Sub(a: U256, b: U256): (r: Option<U256>)
    ensures r.Some? <==> Val(b) <= Val(a)
    ensures r.Some? ==> Val(r.value) == Val(a) - Val(b)
  {
    var (lo, borrow) := OverflowingSub(a.lo, b.lo);
    var hi :- CheckedSub(a.hi, b.hi);
    var hi2 :- CheckedSub(hi, borrow);
    Some(U256(hi2, lo))
  }

  function WrappingAdd(a: U256, b: U256): (r: U256)
    ensures Val(r) == (Val(a) + Val(b)) % (B128 * B128)
  {
    var (lo, carry) := OverflowingAdd(a.lo, b.lo);
    AddWraps(a, b);
    U256(WrapAdd(WrapAdd(a.hi, b.hi), carry), lo)
  }

  /** What the high limb loses is a multiple of 2^256. */
  lemma AddWraps(a: U256, b: U256)
    ensures var (lo, carry) := OverflowingAdd(a.lo, b.lo);
            Val(U256(WrapAdd(WrapAdd(a.hi, b.hi), carry), lo)) == (Val(a) + Val(b)) % (B128 * B128)
  {
    var (lo, carry) := OverflowingAdd(a.lo, b.lo);
    var high := a.hi + b.hi + carry;
    var j := if high < B128 then 0 else 1;
    DivModUnique(Val(a) + Val(b), B128 * B128, j, (high - j * B128) * B128 + lo);
  }

  function WrappingSub(a: U256, b: U256): (r: U256)
    ensures Val(r) == (Val(a) - Val(b)) % (B128 * B128)
  {
    var (lo, borrow) := OverflowingSub(a.lo, b.lo);
    SubWraps(a, b);
    U256(WrapSub(WrapSub(a.hi, b.hi), borrow), lo)
  }

  lemma SubWraps(a: U256, b: U256)
    ensures var (lo, borrow) := OverflowingSub(a.lo, b.lo);
            Val(U256(WrapSub(WrapSub(a.hi, b.hi), borrow), lo)) == (Val(a) - Val(b)) % (B128 * B128)
  {
    var (lo, borrow) := OverflowingSub(a.lo, b.lo);
    var high := a.hi - b.hi - borrow;
    var j := if high >= 0 then 0 else -1;
    DivModUnique(Val(a) - Val(b), B128 * B128, j, (high - j * B128) * B128 + lo);
  }

  /** The derived order compares the high limbs first. */
  predicate Less(a: U256, b: U256)
    ensures Less(a, b) <==> Val(a) < Val(b)
  {
    a.hi < b.hi || (a.hi == b.hi && a.lo < b.lo)
  }

  // ---------- multiplication ----------

  function Lo64(a: u128): u64 {
    a % B64
  }

  function Hi64(a: u128): u64 {
    a / B64
  }

  /** `x << 64` inside 128 bits. */
  function Shl64(x: u128): u128 {
    (x * B64) % B128
  }

  lemma HalfProducts(a: u128, b: u128)
    ensures Lo64(a) * Lo64(b) <= (B64 - 1) * (B64 - 1)
    ensures Lo64(a) * Hi64(b) <= (B64 - 1) * (B64 - 1)
    ensures Hi64(a) * Lo64(b) <= (B64 - 1) * (B64 - 1)
    ensures Hi64(a) * Hi64(b) <= (B64 - 1) * (B64 - 1)
    ensures a * b == Hi64(a) * Hi64(b) * B128 + (Lo64(a) * Hi64(b) + Hi64(a) * Lo64(b)) * B64 + Lo64(a) * Lo64(b)
  {
    MulMonotone(Lo64(a), Lo64(b), B64 - 1, B64 - 1);
    MulMonotone(Lo64(a), Hi64(b), B64 - 1, B64 - 1);
    MulMonotone(Hi64(a), Lo64(b), B64 - 1, B64 - 1);
    MulMonotone(Hi64(a), Hi64(b), B64 - 1, B64 - 1);
    MulExpand(B64, Hi64(a), Lo64(a), Hi64(b), Lo64(b));
    assert a == Hi64(a) * B64 + Lo64(a) && b == Hi64(b) * B64 + Lo64(b);
  }

  lemma Shl64Fits(x: nat)
    requires x < B64
    ensures Shl64(x) == x * B64
  {
  }

  lemma BitOrBelow(x: nat, y: nat, k: nat, b: nat)
    requires b == Pow2(k) && y < b
    ensures BitOr(x * b, y) == x * b + y
  {
    BitOrDisjoint(x, y, k);
  }

  lemma JoinHalves(x: nat, y: u64)
    requires x < B64
    ensures BitOr(Shl64(x), y) == x * B64 + y
  {
    Shl64Fits(x);
    Pow2Of64();
    BitOrBelow(x, y, 64, B64);
  }

  /** Schoolbook product of two limbs. Every step is a `u128`: none overflows. */
  function WideningMul(a: u128, b: u128): (r: (u128, u128))
    ensures r.0 * B128 + r.1 == a * b
  {
    HalfProducts(a, b);
    var ll: u128 := Lo64(a) * Lo64(b);
    var lh: u128 := Lo64(a) * Hi64(b);
    var hl: u128 := Hi64(a) * Lo64(b);
    var hh: u128 := Hi64(a) * Hi64(b);
    var mid: u128 := lh + Hi64(ll);
    var mid2: u128 := Lo64(mid) + hl;
    JoinHalves(Lo64(mid2), Lo64(ll));
    var lo: u128 := BitOr(Shl64(Lo64(mid2)), Lo64(ll));
    var hi: u128 := hh + Hi64(mid) + Hi64(mid2);
    (hi, lo)
  }

  lemma ProductOfLimbs(a: U256, b: U256)
    ensures Val(a) * Val(b) == a.hi * b.hi * (B128 * B128) + (a.lo * b.hi + a.hi * b.lo) * B128 + a.lo * b.lo
    ensures a.hi == 0 || b.hi == 0 ==> a.hi * b.hi == 0
    ensures a.hi != 0 && b.hi != 0 ==> a.hi * b.hi >= 1
  {
    MulExpand(B128, a.hi, a.lo, b.hi, b.lo);
    if a.hi != 0 && b.hi != 0 {
      MulMonotone(1, 1, a.hi, b.hi);
    }
  }

  /** The product fits exactly when not both high limbs are set and the middle sum fits in a limb. */
  lemma ProductFits(a: U256, b: U256, resHi: u128, resLo: u128)
    requires resHi * B128 + resLo == a.lo * b.lo
    ensures Val(a) * Val(b) < B128 * B128 <==> (a.hi == 0 || b.hi == 0) && resHi + a.hi * b.lo + a.lo * b.hi < B128
    ensures a.hi == 0 || b.hi == 0 ==> Val(a) * Val(b) == (resHi + a.hi * b.lo + a.lo * b.hi) * B128 + resLo
  {
    ProductOfLimbs(a, b);
    assert a.hi * b.lo >= 0 && a.lo * b.hi >= 0;
    LimbsFit(a.hi * b.hi, resHi + a.hi * b.lo + a.lo * b.hi, resLo);
  }

  lemma LimbsFit(high: nat, middle: nat, low: u128)
    ensures high * (B128 * B128) + middle * B128 + low < B128 * B128 <==> high == 0 && middle < B128
  {
  }

  /** Multiplication panics exactly when the product does not fit. */
  function Mul(a: U256, b: U256): (r: Option<U256>)
    ensures r.Some? <==> Val(a) * Val(b) < B128 * B128
    ensures r.Some? ==> Val(r.value) == Val(a) * Val(b)
  {
    var (resHi, resLo) := WideningMul(a.lo, b.lo);
    ProductFits(a, b, resHi, resLo);
    var cross1 :- CheckedMul(a.hi, b.lo);
    var cross2 :- CheckedMul(a.lo, b.hi);
    var hi1 :- CheckedAdd(resHi, cross1);
    var hi :- CheckedAdd(hi1, cross2);
    if a.hi != 0 && b.hi != 0 then None else Some(U256(hi, resLo))
  }

  function WrapMul(a: u128, b: u128): u128 {
    (a * b) % B128
  }

  function WrappingMul(a: U256, b: U256): (r: U256) {
    var (resHi, resLo) := WideningMul(a.lo, b.lo);
    U256(WrapAdd(WrapAdd(resHi, WrapMul(a.hi, b.lo)), WrapMul(a.lo, b.hi)), resLo)
  }

  lemma WrapSum(r: u128, c1: nat, c2: nat)
    ensures exists k: int :: WrapAdd(WrapAdd(r, c1 % B128), c2 % B128) == r + c1 + c2 - k * B128
  {
    var s := r + c1 % B128 + c2 % B128;
    var w := WrapAdd(WrapAdd(r, c1 % B128), c2 % B128);
    var j := if s < B128 then 0 else if s < 2 * B128 then 1 else 2;
    assert w == s - j * B128;
    assert w == r + c1 + c2 - (j + c1 / B128 + c2 / B128) * B128;
  }

  /** Wrapping multiplication is the product modulo 2^256. */
  lemma WrappingMulExact(a: U256, b: U256)
    ensures Val(WrappingMul(a, b)) == (Val(a) * Val(b)) % (B128 * B128)
  {
    ProductOfLimbs(a, b);
    var (resHi, resLo) := WideningMul(a.lo, b.lo);
    var c1, c2 := a.hi * b.lo, a.lo * b.hi;
    WrapSum(resHi, c1, c2);
    var r := WrappingMul(a, b);
    var k: int :| r.hi == resHi + c1 + c2 - k * B128;
    LiftWrap(B128, Val(a) * Val(b), a.hi * b.hi, c2 + c1, resHi, resLo, k, r.hi);
    DivModUnique(Val(a) * Val(b), B128 * B128, a.hi * b.hi + k, Val(r));
  }

  lemma LiftWrap(b: nat, p: nat, hh: nat, cross: nat, resHi: nat, resLo: nat, k: int, hi: int)
    requires p == hh * (b * b) + cross * b + (resHi * b + resLo)
    requires hi == resHi + cross - k * b
    ensures p == (hh + k) * (b * b) + hi * b + resLo
  {
    assert hi * b == resHi * b + cross * b - (k * b) * b;
    assert (k * b) * b == k * (b * b);
    assert (hh + k) * (b * b) == hh * (b * b) + k * (b * b);
  }

  // ---------- shifts ----------

  function Shl128(x: u128, s: nat): u128 {
    (x * Pow2(s)) % B128
  }

  function Shr128(x: u128, s: nat): u128 {
    DivBounded(x, Pow2(s), B128);
    x / Pow2(s)
  }

  lemma DivBounded(x: nat, p: nat, b: nat)
    requires p > 0 && x < b
    ensures 0 <= x / p < b
  {
    MulMonotone(x / p, 1, x / p, p);
  }

  lemma Pow2Of256()
    ensures Pow2(WORD_BITS) == B128 * B128 && Pow2(255) < B128 * B128
  {
    Pow2Of128();
    Pow2Add(U128_BITS, U128_BITS);
  }

  lemma Pow2AroundWord(s: nat)
    ensures s <= 256 ==> Pow2(s) <= B128 * B128
    ensures s >= 256 ==> Pow2(s) >= B128 * B128
  {
    Pow2Of256();
    if s <= 256 {
      Pow2Monotone(s, WORD_BITS);
    } else {
      Pow2Monotone(WORD_BITS, s);
    }
  }

  lemma DisjointParts(b: nat, p: nat, q: nat, hi: nat, lo: nat)
    requires p > 0 && q > 0 && b == p * q && lo < b
    ensures b > 0 && (hi * p) % b == (hi % q) * p && 0 <= lo / q < p && (hi % q) * p + lo / q < b
  {
    ShiftParts(hi, p, q);
    ShiftParts(lo, p, q);
  }

  lemma JoinShl(hi: u128, lo: u128, s: nat)
    requires 0 < s < 128
    ensures BitOr(Shl128(hi, s), Shr128(lo, 128 - s)) == (hi % Pow2(128 - s)) * Pow2(s) + lo / Pow2(128 - s) < B128
  {
    Pow2Of128();
    Pow2Split(s, 128);
    DisjointParts(B128, Pow2(s), Pow2(128 - s), hi, lo);
    BitOrDisjoint(hi % Pow2(128 - s), lo / Pow2(128 - s), s);
  }

  lemma JoinShr(hi: u128, lo: u128, s: nat)
    requires 0 < s < 128
    ensures BitOr(Shr128(lo, s), Shl128(hi, 128 - s)) == (hi % Pow2(s)) * Pow2(128 - s) + lo / Pow2(s) < B128
  {
    JoinShl(hi, lo, 128 - s);
    BitOrCommutes(Shr128(lo, s), Shl128(hi, 128 - s));
  }

  function Shl(v: U256, s: nat): U256 {
    if s == 0 then v
    else if s >= 256 then ZERO
    else if s >= 128 then U256(Shl128(v.lo, s - 128), 0)
    else
      JoinShl(v.hi, v.lo, s);
      U256(BitOr(Shl128(v.hi, s), Shr128(v.lo, 128 - s)), Shl128(v.lo, s))
  }

  function Shr(v: U256, s: nat): U256 {
    if s == 0 then v
    else if s >= 256 then ZERO
    else if s >= 128 then U256(0, Shr128(v.hi, s - 128))
    else
      JoinShr(v.hi, v.lo, s);
      U256(Shr128(v.hi, s), BitOr(Shr128(v.lo, s), Shl128(v.hi, 128 - s)))
  }

  lemma ShlValue(b: nat, p: nat, q: nat, hi: nat, lo: nat)
    requires p > 0 && q > 0 && b == p * q
    requires hi < b && lo < b
    ensures ((hi * b + lo) * p) % (b * b) == ((hi % q) * p + lo / q) * b + (lo % q) * p
  {
    ShiftParts(hi, p, q);
    ShiftParts(lo, p, q);
    ShlJoin(b, p, hi, lo, hi / q, (hi % q) * p, lo / q, (lo % q) * p);
  }

  lemma ShlSum(b: nat, p: nat, hi: nat, lo: nat, h1: nat, h0: nat, l1: nat, l0: nat)
    requires hi * p == h1 * b + h0 && lo * p == l1 * b + l0
    ensures (hi * b + lo) * p == h1 * (b * b) + ((h0 + l1) * b + l0)
  {
    assert (hi * b + lo) * p == (hi * p) * b + lo * p;
    assert (hi * p) * b == h1 * (b * b) + h0 * b;
    assert (h0 + l1) * b == h0 * b + l1 * b;
  }

  lemma BelowSquare(b: nat, x: nat, l: nat)
    requires x < b && l < b
    ensures 0 <= x * b + l < b * b
  {
    MulMonotone(x + 1, b, b, b);
    assert (x + 1) * b == x * b + b;
  }

  lemma ShlJoin(b: nat, p: nat, hi: nat, lo: nat, h1: nat, h0: nat, l1: nat, l0: nat)
    requires hi * p == h1 * b + h0 && h0 + p <= b
    requires lo * p == l1 * b + l0 && l1 < p && l0 < b
    ensures b > 0 && ((hi * b + lo) * p) % (b * b) == (h0 + l1) * b + l0
  {
    ShlSum(b, p, hi, lo, h1, h0, l1, l0);
    BelowSquare(b, h0 + l1, l0);
    DivModUnique((hi * b + lo) * p, b * b, h1, (h0 + l1) * b + l0);
  }

  lemma ShrValue(b: nat, p: nat, q: nat, hi: nat, lo: nat)
    requires p > 0 && q > 0 && b == p * q
    ensures (hi * b + lo) / p == (hi / p) * b + ((hi % p) * q + lo / p)
  {
    var h, m := hi / p, hi % p;
    var r := h * b + (m * q + lo / p);
    assert hi == h * p + m;
    assert hi * b == (h * p) * b + m * b;
    assert (h * p) * b == (h * b) * p;
    assert m * b == (m * q) * p;
    assert r * p == (h * b) * p + (m * q) * p + (lo / p) * p;
    DivModUnique(hi * b + lo, p, r, lo % p);
  }

  /** A left shift multiplies by `2^s` modulo 2^256. */
  lemma {:induction false} ShlExact(v: U256, s: nat)
    ensures Val(Shl(v, s)) == (Val(v) * Pow2(s)) % (B128 * B128)
  {
    Pow2Of128();
    if s == 0 {
      DivModUnique(Val(v), B128 * B128, 0, Val(v));
    } else if s >= 128 {
      ShlHigh(v, s);
    } else {
      ShlWithin(v, s);
    }
  }

  lemma {:induction false} ShlWithin(v: U256, s: nat)
    requires 0 < s < 128
    ensures Val(Shl(v, s)) == (Val(v) * Pow2(s)) % (B128 * B128)
  {
    Pow2Of128();
    Pow2Split(s, 128);
    JoinShl(v.hi, v.lo, s);
    ShiftParts(v.lo, Pow2(s), Pow2(128 - s));
    ShlValue(B128, Pow2(s), Pow2(128 - s), v.hi, v.lo);
  }

  lemma {:induction false} ShlHigh(v: U256, s: nat)
    requires s >= 128
    ensures Val(Shl(v, s)) == (Val(v) * Pow2(s)) % (B128 * B128)
  {
    Pow2Of128();
    Pow2Split(128, s);
    var p := Pow2(s - 128);
    if s >= 256 {
      Pow2Split(128, s - 128);
      ShlGone(B128, Pow2(s - 256), Val(v), Pow2(s));
    } else {
      ShlLow(B128, p, v.hi, v.lo, Pow2(s));
    }
  }

  lemma ShlGone(b: nat, p: nat, x: nat, ps: nat)
    requires b > 0 && ps == b * (b * p)
    ensures (x * ps) % (b * b) == 0
  {
    assert x * ps == (x * p) * (b * b);
    assert b * b > 0;
    DivModUnique(x * ps, b * b, x * p, 0);
  }

  lemma ShlLow(b: nat, p: nat, hi: nat, lo: nat, ps: nat)
    requires b > 0 && ps == b * p
    ensures ((hi * b + lo) * ps) % (b * b) == ((lo * p) % b) * b
  {
    var k, m := (lo * p) / b, (lo * p) % b;
    ShlLowSum(b, p, hi, lo, k, m);
    NextMultiple(m, b, b);
    DivModUnique((hi * b + lo) * ps, b * b, hi * p + k, m * b);
  }

  lemma ShlLowSum(b: nat, p: nat, hi: nat, lo: nat, k: nat, m: nat)
    requires lo * p == k * b + m
    ensures (hi * b + lo) * (b * p) == (hi * p + k) * (b * b) + m * b
  {
    assert (hi * b + lo) * (b * p) == (hi * p) * (b * b) + (lo * p) * b;
    assert (lo * p) * b == k * (b * b) + m * b;
    assert (hi * p + k) * (b * b) == (hi * p) * (b * b) + k * (b * b);
  }

  /** A right shift divides by `2^s`. */
  lemma {:induction false} ShrExact(v: U256, s: nat)
    ensures Val(Shr(v, s)) == Val(v) / Pow2(s)
  {
    Pow2Of128();
    if s == 0 {
    } else if s >= 128 {
      ShrHigh(v, s);
    } else {
      Pow2Split(s, 128);
      JoinShr(v.hi, v.lo, s);
      ShrValue(B128, Pow2(s), Pow2(128 - s), v.hi, v.lo);
    }
  }

  lemma {:induction false} ShrHigh(v: U256, s: nat)
    requires s >= 128
    ensures Val(Shr(v, s)) == Val(v) / Pow2(s)
  {
    Pow2Of128();
    Pow2Split(128, s);
    var p := Pow2(s - 128);
    ShrLow(B128, p, v.hi, v.lo, Pow2(s));
    if s >= 256 {
      Pow2Monotone(128, s - 128);
      DivModUnique(v.hi, p, 0, v.hi);
    }
  }

  lemma ShrLow(b: nat, p: nat, hi: nat, lo: nat, ps: nat)
    requires b > 0 && p > 0 && ps == b * p && lo < b
    ensures ps > 0 && (hi * b + lo) / ps == hi / p
  {
    MulMonotone(1, 1, b, p);
    ShrLowOf(b, p, hi / p, hi % p, lo);
    DivModUnique(hi * b + lo, ps, hi / p, (hi % p) * b + lo);
  }

  lemma ShrLowOf(b: nat, p: nat, k: nat, m: nat, lo: nat)
    requires m < p && lo < b
    ensures (k * p + m) * b + lo == k * (b * p) + (m * b + lo)
    ensures m * b + lo < b * p
  {
    assert (k * p + m) * b == (k * p) * b + m * b;
    assert (k * p) * b == k * (b * p);
    MulMonotone(m + 1, b, p, b);
    assert (m + 1) * b == m * b + b && p * b == b * p;
  }
}
