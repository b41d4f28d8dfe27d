/** Replacing a bit field of a 256-bit word by masking, as the emitted Solidity does. */
module WordUpdate {
  import opened Words

  /** `lo` below bit `k`, `hi` above it. */
  function Join(hi: nat, lo: nat, k: nat): nat {
    hi * Pow2(k) + lo
  }

  lemma DivNonNegative(x: nat, p: nat)
    requires p > 0
    ensures x / p >= 0
  {
  }

  /** The bits from `k` upwards. */
  function High(x: nat, k: nat): nat {
    DivNonNegative(x, Pow2(k));
    x / Pow2(k)
  }

  /** The bits below `k`. */
  function Low(x: nat, k: nat): (r: nat)
    ensures r < Pow2(k)
  {
    x % Pow2(k)
  }

  /** `k` bits of `word` from bit `o` upwards. */
  function ReadBits(word: nat, o: nat, k: nat): nat {
    Low(High(word, o), k)
  }

  /** `word` with those bits replaced by `x`. */
  function SetBits(word: nat, o: nat, k: nat, x: nat): nat {
    Join(Join(High(word, o + k), x, k), Low(word, o), o)
  }

  // ---------- bitwise operations work on parts ----------

  lemma HalveJoin(x: nat, hi: nat, lo: nat, k: nat)
    requires k > 0 && x == Join(hi, lo, k)
    ensures x / 2 == Join(hi, lo / 2, k - 1) && x % 2 == lo % 2
  {
    assert hi * Pow2(k) == 2 * (hi * Pow2(k - 1));
  }

  lemma {:induction false} BitAndHalves(x: nat, y: nat)
    ensures BitAnd(x, y) == 2 * BitAnd(x / 2, y / 2) + (if x % 2 == 1 && y % 2 == 1 then 1 else 0)
  {
    assert x == 0 ==> BitAnd(x / 2, y / 2) == 0;
    assert y == 0 ==> BitAnd(x / 2, y / 2) == 0;
  }

  lemma {:induction false} BitOrHalves(x: nat, y: nat)
    ensures BitOr(x, y) == 2 * BitOr(x / 2, y / 2) + (if x % 2 == 1 || y % 2 == 1 then 1 else 0)
  {
    assert x == 0 && y == 0 ==> BitOr(x / 2, y / 2) == 0;
  }

  lemma DoubleJoin(h: nat, l: nat, k: nat, bit: nat)
    requires k > 0
    ensures 2 * Join(h, l, k - 1) + bit == Join(h, 2 * l + bit, k)
  {
    assert h * Pow2(k) == 2 * (h * Pow2(k - 1));
  }

  lemma {:induction false} BitAndJoin(x: nat, y: nat, a: nat, b: nat, c: nat, d: nat, k: nat)
    requires x == Join(a, b, k) && y == Join(c, d, k) && b < Pow2(k) && d < Pow2(k)
    ensures BitAnd(x, y) == Join(BitAnd(a, c), BitAnd(b, d), k)
    decreases k
  {
    if k > 0 {
      HalveJoin(x, a, b, k);
      HalveJoin(y, c, d, k);
      BitAndJoin(x / 2, y / 2, a, b / 2, c, d / 2, k - 1);
      BitAndHalves(x, y);
      BitAndHalves(b, d);
      DoubleJoin(BitAnd(a, c), BitAnd(b / 2, d / 2), k, if b % 2 == 1 && d % 2 == 1 then 1 else 0);
    }
  }

  lemma {:induction false} BitOrJoin(x: nat, y: nat, a: nat, b: nat, c: nat, d: nat, k: nat)
    requires x == Join(a, b, k) && y == Join(c, d, k) && b < Pow2(k) && d < Pow2(k)
    ensures BitOr(x, y) == Join(BitOr(a, c), BitOr(b, d), k)
    decreases k
  {
    if k > 0 {
      HalveJoin(x, a, b, k);
      HalveJoin(y, c, d, k);
      BitOrJoin(x / 2, y / 2, a, b / 2, c, d / 2, k - 1);
      BitOrHalves(x, y);
      BitOrHalves(b, d);
      DoubleJoin(BitOr(a, c), BitOr(b / 2, d / 2), k, if b % 2 == 1 || d % 2 == 1 then 1 else 0);
    }
  }

  lemma OnesHalve(k: nat)
    requires k > 0
    ensures (Pow2(k) - 1) / 2 == Pow2(k - 1) - 1 && (Pow2(k) - 1) % 2 == 1
  {
  }

  /** A mask of ones keeps everything below it. */
  lemma {:induction false} OnesKeep(l: nat, k: nat)
    requires l < Pow2(k)
    ensures BitAnd(l, Pow2(k) - 1) == l
  {
    if k > 0 {
      OnesKeep(l / 2, k - 1);
      OnesHalve(k);
      BitAndHalves(l, Pow2(k) - 1);
    }
  }

  lemma {:induction false} BitAndOnes(x: nat, k: nat)
    ensures BitAnd(x, Pow2(k) - 1) == Low(x, k)
  {
    SplitJoin(x, k);
    BitAndJoin(x, Pow2(k) - 1, High(x, k), Low(x, k), 0, Pow2(k) - 1, k);
    BitAndZero(High(x, k));
    OnesKeep(Low(x, k), k);
  }

  // ---------- a word as three parts ----------

  lemma {:induction false} BitAndZero(x: nat)
    ensures BitAnd(x, 0) == 0 && BitAnd(0, x) == 0
  {
  }

  /** Splitting at bit `k` and joining again. */
  lemma SplitJoin(x: nat, k: nat)
    ensures x == Join(High(x, k), Low(x, k), k)
  {
  }

  lemma {:induction false} JoinSplit(hi: nat, lo: nat, k: nat)
    requires lo < Pow2(k)
    ensures High(Join(hi, lo, k), k) == hi && Low(Join(hi, lo, k), k) == lo
  {
    DivModUnique(Join(hi, lo, k), Pow2(k), hi, lo);
  }

  lemma HighHigh(x: nat, j: nat, k: nat)
    ensures High(High(x, j), k) == High(x, j + k)
  {
    Pow2Add(j, k);
    DivDiv(x, Pow2(j), Pow2(k));
  }

  lemma DivDiv(x: nat, p: nat, q: nat)
    requires p > 0 && q > 0
    ensures p * q > 0 && x / p / q == x / (p * q)
  {
    var a, b := x / p, x % p;
    var c, d := a / q, a % q;
    MulMonotone(1, 1, p, q);
    assert x == a * p + b && a == c * q + d;
    assert (c * q + d) * p == c * (p * q) + d * p;
    MulMonotone(d + 1, p, q, p);
    assert (d + 1) * p == d * p + p && q * p == p * q;
    DivModUnique(x, p * q, c, d * p + b);
  }

  /** Reading back the replaced field. */
  lemma {:induction false} ReadOwn(word: nat, o: nat, k: nat, x: nat)
    requires x < Pow2(k)
    ensures ReadBits(SetBits(word, o, k, x), o, k) == x
  {
    JoinSplit(Join(High(word, o + k), x, k), Low(word, o), o);
    JoinSplit(High(word, o + k), x, k);
  }

  /** A field above the replaced one keeps its bits. */
  lemma {:induction false} ReadAbove(word: nat, o: nat, k: nat, x: nat, o': nat, k': nat)
    requires x < Pow2(k) && o + k <= o'
    ensures ReadBits(SetBits(word, o, k, x), o', k') == ReadBits(word, o', k')
  {
    var t := SetBits(word, o, k, x);
    JoinSplit(Join(High(word, o + k), x, k), Low(word, o), o);
    JoinSplit(High(word, o + k), x, k);
    HighHigh(t, o, k);
    HighHigh(t, o + k, o' - o - k);
    HighHigh(word, o + k, o' - o - k);
  }

  /** A field below the replaced one keeps its bits. */
  lemma ReadBelow(word: nat, o: nat, k: nat, x: nat, o': nat, k': nat)
    requires o' + k' <= o
    ensures ReadBits(SetBits(word, o, k, x), o', k') == ReadBits(word, o', k')
  {
    SplitJoin(word, o);
    LowField(High(word, o), Low(word, o), o, o', k');
    LowField(Join(High(word, o + k), x, k), Low(word, o), o, o', k');
  }

  /** Bits below `o` do not depend on what is above. */
  lemma LowField(hi: nat, lo: nat, o: nat, o': nat, k': nat)
    requires o' + k' <= o
    ensures ReadBits(Join(hi, lo, o), o', k') == ReadBits(lo, o', k')
  {
    var r := o - o' - k';
    Pow2Add(o', k');
    Pow2Add(o' + k', r);
    LowFieldOf(hi, lo, Pow2(o'), Pow2(k'), Pow2(r), Pow2(o));
  }

  lemma LowFieldOf(hi: nat, lo: nat, p: nat, q: nat, s: nat, w: nat)
    requires p > 0 && q > 0 && s > 0 && w == p * q * s
    ensures (hi * w + lo) / p % q == lo / p % q
  {
    var a, b := lo / p, lo % p;
    var c, d := a / q, a % q;
    assert hi * w == (hi * s * q) * p;
    assert lo == a * p + b;
    assert (hi * s * q + a) * p == (hi * s * q) * p + a * p;
    DivModUnique(hi * w + lo, p, hi * s * q + a, b);
    assert (hi * s + c) * q == hi * s * q + c * q;
    DivModUnique(hi * s * q + a, q, hi * s + c, d);
  }

  // ---------- the emitted update ----------

  /** `uint256` complement. */
  function Not256(x: nat): nat
    requires x < Pow2(WORD_BITS)
  {
    Pow2(WORD_BITS) - 1 - x
  }

  /** `uint256` left shift. */
  function Shl256(x: nat, s: nat): nat {
    Low(Join(x, 0, s), WORD_BITS)
  }

  /** `(word & ~(mask << o)) | ((val & mask) << o)`. */
  function MaskedUpdate(word: nat, mask: nat, o: nat, val: nat): nat {
    BitOr(BitAnd(word, Not256(Shl256(mask, o))), Shl256(BitAnd(val, mask), o))
  }

  lemma {:induction false} LowOfSmall(x: nat, k: nat)
    requires x < Pow2(k)
    ensures Low(x, k) == x
  {
    DivModUnique(x, Pow2(k), 0, x);
  }

  lemma {:induction false} ShiftSmall(x: nat, k: nat, o: nat)
    requires x < Pow2(k) && o + k <= WORD_BITS
    ensures Shl256(x, o) == Join(x, 0, o) && Join(x, 0, o) + Pow2(o) <= Pow2(WORD_BITS)
  {
    Pow2Add(k, o);
    Pow2Monotone(o + k, WORD_BITS);
    MulMonotone(x + 1, Pow2(o), Pow2(k), Pow2(o));
    assert (x + 1) * Pow2(o) == x * Pow2(o) + Pow2(o);
    LowOfSmall(Join(x, 0, o), WORD_BITS);
  }

  /** The complement of a field mask has ones above and below the field. */
  lemma MaskParts(k: nat, o: nat)
    requires o + k <= WORD_BITS
    ensures Shl256(Pow2(k) - 1, o) < Pow2(WORD_BITS)
    ensures Not256(Shl256(Pow2(k) - 1, o)) == Join(Join(Pow2(WORD_BITS - o - k) - 1, 0, k), Pow2(o) - 1, o)
  {
    ShiftSmall(Pow2(k) - 1, k, o);
    Pow2Add(WORD_BITS - o - k, k);
    Pow2Add(WORD_BITS - o, o);
    MaskArith(Pow2(WORD_BITS - o - k), Pow2(k), Pow2(o));
  }

  lemma MaskArith(a: nat, p: nat, q: nat)
    requires a > 0 && p > 0 && q > 0
    ensures (a * p) * q - 1 - ((p - 1) * q) == ((a - 1) * p) * q + (q - 1)
  {
    assert ((a - 1) * p) * q == (a * p) * q - p * q;
    assert (p - 1) * q == p * q - q;
  }

  lemma HighBound(word: nat, k: nat, n: nat)
    requires word < Pow2(n) && k <= n
    ensures High(word, k) < Pow2(n - k)
  {
    Pow2Add(n - k, k);
    QuotientBound(word, Pow2(n - k), Pow2(k));
  }

  /** Ones from bit `k` upwards keep the upper part and clear the lower. */
  lemma ClearLow(x: nat, n: nat, k: nat)
    requires x < Pow2(n + k)
    ensures BitAnd(x, Join(Pow2(n) - 1, 0, k)) == Join(High(x, k), 0, k)
  {
    SplitJoin(x, k);
    BitAndJoin(x, Join(Pow2(n) - 1, 0, k), High(x, k), Low(x, k), Pow2(n) - 1, 0, k);
    BitAndZero(Low(x, k));
    HighBound(x, k, n + k);
    BitAndOnes(High(x, k), n);
    LowOfSmall(High(x, k), n);
  }

  /** Ones below bit `o` keep the lower part. */
  lemma {:induction false} KeepLow(x: nat, upper: nat, o: nat)
    ensures BitAnd(x, Join(upper, Pow2(o) - 1, o)) == Join(BitAnd(High(x, o), upper), Low(x, o), o)
  {
    SplitJoin(x, o);
    BitAndJoin(x, Join(upper, Pow2(o) - 1, o), High(x, o), Low(x, o), upper, Pow2(o) - 1, o);
    BitAndOnes(Low(x, o), o);
    LowOfSmall(Low(x, o), o);
  }

  lemma ClearAbove(word: nat, k: nat, o: nat)
    requires word < Pow2(WORD_BITS) && o + k <= WORD_BITS
    ensures BitAnd(High(word, o), Join(Pow2(WORD_BITS - o - k) - 1, 0, k)) == Join(High(word, o + k), 0, k)
  {
    HighBound(word, o, WORD_BITS);
    ClearLow(High(word, o), WORD_BITS - o - k, k);
    HighHigh(word, o, k);
  }

  /** Clearing the field. */
  lemma {:induction false} ClearField(word: nat, mask: nat, k: nat, o: nat)
    requires word < Pow2(WORD_BITS) && o + k <= WORD_BITS && mask == Pow2(k) - 1
    ensures Shl256(mask, o) < Pow2(WORD_BITS)
    ensures BitAnd(word, Not256(Shl256(mask, o))) == Join(Join(High(word, o + k), 0, k), Low(word, o), o)
  {
    MaskParts(k, o);
    KeepLow(word, Join(Pow2(WORD_BITS - o - k) - 1, 0, k), o);
    ClearAbove(word, k, o);
  }

  /** Putting `x` into a cleared field. */
  lemma {:induction false} FillField(h: nat, l: nat, x: nat, k: nat, o: nat)
    requires x < Pow2(k) && l < Pow2(o)
    ensures BitOr(Join(Join(h, 0, k), l, o), Join(x, 0, o)) == Join(Join(h, x, k), l, o)
  {
    BitOrJoin(Join(Join(h, 0, k), l, o), Join(x, 0, o), Join(h, 0, k), l, x, 0, o);
    BitOrJoin(Join(h, 0, k), x, h, 0, 0, x, k);
    BitOrZero(l);
    BitOrZero(x);
    BitOrZero(h);
  }

  /** The emitted update replaces exactly `k` bits from `o` by the low `k` bits of the value. */
  lemma {:induction false} MaskedUpdateExact(word: nat, mask: nat, k: nat, o: nat, val: nat)
    requires word < Pow2(WORD_BITS) && o + k <= WORD_BITS && mask == Pow2(k) - 1
    ensures Shl256(mask, o) < Pow2(WORD_BITS)
    ensures MaskedUpdate(word, mask, o, val) == SetBits(word, o, k, Low(val, k))
  {
    ClearField(word, mask, k, o);
    BitAndOnes(val, k);
    ShiftSmall(Low(val, k), k, o);
    UpdateParts(word, mask, val, k, o, High(word, o + k), Low(word, o), Low(val, k));
  }

  lemma {:induction false} UpdateParts(word: nat, mask: nat, val: nat, k: nat, o: nat, h: nat, l: nat, v: nat)
    requires Shl256(mask, o) < Pow2(WORD_BITS) && l < Pow2(o) && v < Pow2(k)
    requires BitAnd(word, Not256(Shl256(mask, o))) == Join(Join(h, 0, k), l, o)
    requires BitAnd(val, mask) == v && Shl256(v, o) == Join(v, 0, o)
    ensures MaskedUpdate(word, mask, o, val) == Join(Join(h, v, k), l, o)
  {
    FillField(h, l, v, k, o);
  }

  lemma {:induction false} SetBitsFits(word: nat, o: nat, k: nat, x: nat)
    requires word < Pow2(WORD_BITS) && o + k <= WORD_BITS && x < Pow2(k)
    ensures SetBits(word, o, k, x) < Pow2(WORD_BITS)
  {
    var t := SetBits(word, o, k, x);
    JoinSplit(Join(High(word, o + k), x, k), Low(word, o), o);
    JoinSplit(High(word, o + k), x, k);
    HighHigh(t, o, k);
    HighHigh(t, o + k, WORD_BITS - (o + k));
    HighHigh(word, o + k, WORD_BITS - (o + k));
    FitsIff(word, WORD_BITS);
    FitsIff(t, WORD_BITS);
  }

  lemma {:induction false} FitsIff(x: nat, k: nat)
    ensures x < Pow2(k) <==> High(x, k) == 0
  {
    QuotientBound(x, 1, Pow2(k));
  }

  lemma JoinFits(hi: nat, lo: nat, m: nat, p: nat)
    requires hi < m && lo < p
    ensures hi * p + lo < m * p
  {
    MulMonotone(hi + 1, p, m, p);
    assert (hi + 1) * p == hi * p + p;
  }

  lemma {:induction false} LowJoin(hi: nat, x: nat, k: nat, m: nat)
    requires k <= m && x < Pow2(k)
    ensures Low(Join(hi, x, k), m) == Join(Low(hi, m - k), x, k)
  {
    Pow2Add(m - k, k);
    LowJoinOf(hi, x, Pow2(k), Pow2(m - k));
  }

  lemma LowJoinOf(hi: nat, x: nat, p: nat, q: nat)
    requires p > 0 && q > 0 && x < p
    ensures q * p > 0 && (hi * p + x) % (q * p) == (hi % q) * p + x
  {
    MulMonotone(1, 1, q, p);
    JoinFits(hi % q, x, q, p);
    assert hi == (hi / q) * q + hi % q;
    assert ((hi / q) * q + hi % q) * p == (hi / q) * (q * p) + (hi % q) * p;
    DivModUnique(hi * p + x, q * p, hi / q, (hi % q) * p + x);
  }

  lemma HighLow(y: nat, k: nat, m: nat)
    requires k <= m
    ensures High(Low(y, m), k) == Low(High(y, k), m - k)
  {
    SplitJoin(y, k);
    LowJoin(High(y, k), Low(y, k), k, m);
    JoinSplit(Low(High(y, k), m - k), Low(y, k), k);
  }

  /** Replacing only the low `k` of `m` bits keeps the upper ones. */
  lemma {:induction false} ReadWider(word: nat, o: nat, k: nat, x: nat, m: nat)
    requires x < Pow2(k) && k <= m
    ensures ReadBits(SetBits(word, o, k, x), o, m) == Join(High(ReadBits(word, o, m), k), x, k)
  {
    JoinSplit(Join(High(word, o + k), x, k), Low(word, o), o);
    LowJoin(High(word, o + k), x, k, m);
    HighHigh(word, o, k);
    HighLow(High(word, o), k, m);
  }

  lemma LowLow(x: nat, k: nat, m: nat)
    requires k <= m
    ensures Low(Low(x, m), k) == Low(x, k)
  {
    SplitJoin(x, k);
    LowJoin(High(x, k), Low(x, k), k, m);
    JoinSplit(Low(High(x, k), m - k), Low(x, k), k);
  }
}
