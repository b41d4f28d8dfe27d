/** Which bytes an encoding consists of: integers and length prefixes are written in
    base 256, the most significant digit first, negative ones in two's complement. */
module CodecBytes {
  import opened Words
  import opened Wrappers
  import opened Utf8
  import opened Codec

  /** The bytes are the lowest digits of `n` in base 256; for a negative `n` those of its two's complement. */
  ghost predicate Digits(n: int, bs: seq<byte>) {
    forall i :: 0 <= i < |bs| ==> bs[i] == Digit(n, |bs| - 1 - i)
  }

  function Digit(n: int, k: nat): byte {
    n / Pow256(k) % 256
  }

  lemma {:induction false} Pow256Bits(n: nat)
    ensures Pow256(n) == Pow2(8 * n)
  {
    if n > 0 {
      Pow256Bits(n - 1);
      Pow2Add(8, 8 * n - 8);
      assert Pow2(4) == 16 && Pow2(8) == 256 by { Pow2Add(4, 4); }
    }
  }

  lemma {:induction false} Pow256Add(m: nat, n: nat)
    ensures Pow256(m + n) == Pow256(m) * Pow256(n)
  {
    if m > 0 {
      Pow256Add(m - 1, n);
      Times256(m + n, Pow256(m - 1), Pow256(n));
    }
  }

  lemma Times256(k: nat, p: nat, q: nat)
    requires k > 0 && Pow256(k - 1) == p * q
    ensures Pow256(k) == (256 * p) * q
  {
  }

  // ---------- writing ----------

  /** The next higher digit is the same digit of the quotient. */
  lemma DigitShift(n: int, k: nat)
    ensures Digit(n, k + 1) == Digit(n / 256, k) && Digit(n, 0) == n % 256
  {
    var p := Pow256(k);
    var a, b := n / 256, n % 256;
    assert n == a * 256 + b;
    var q, r := a / p, a % p;
    assert a == q * p + r;
    QuotientOfDigits(n, p, q, r, b);
  }

  lemma QuotientOfDigits(n: int, p: nat, q: int, r: nat, b: nat)
    requires p > 0 && r < p && b < 256 && n == (q * p + r) * 256 + b
    ensures n / (256 * p) == q
  {
    assert (q * p + r) * 256 + b == q * (256 * p) + (256 * r + b);
    DivModUnique(n, 256 * p, q, 256 * r + b);
  }

  lemma {:induction false} ToBEDigits(n: nat, size: nat)
    ensures Digits(n, ToBE(n, size))
  {
    if size > 0 {
      ToBEDigits(n / 256, size - 1);
      forall i | 0 <= i < size
        ensures ToBE(n, size)[i] == Digit(n, size - 1 - i)
      {
        DigitShift(n, if i < size - 1 then size - 2 - i else 0);
      }
    }
  }

  lemma PeriodOf(n: int, p: nat, m: int)
    requires p > 0
    ensures (n + 256 * m * p) / p % 256 == n / p % 256
  {
    var q, r := n / p, n % p;
    assert n == q * p + r;
    Distribute(n, p, m, q, r);
    DivModUnique(n + 256 * m * p, p, q + 256 * m, r);
    DigitPeriod256(q, m);
  }

  lemma DigitPeriod256(q: int, m: int)
    ensures (q + 256 * m) % 256 == q % 256
  {
  }

  lemma Distribute(n: int, p: nat, m: int, q: int, r: int)
    requires n == q * p + r
    ensures n + 256 * m * p == (q + 256 * m) * p + r
  {
  }

  /** Adding a multiple of `256^size` changes no digit below that. */
  lemma {:induction false} DigitPeriod(n: int, size: nat, k: nat)
    requires k < size
    ensures Digit(n + Pow256(size), k) == Digit(n, k)
  {
    Pow256Add(size - k, k);
    PeriodOf(n, Pow256(k), Pow256(size - k - 1));
  }

  lemma {:induction false} WrapDigits(n: int, size: nat)
    requires -(Pow256(size) as int) <= 2 * n < Pow256(size) && size > 0
    ensures Wrap(n, size) >= 0 && Digits(n, ToBE(Wrap(n, size), size))
  {
    WrapFits(n, size);
    ToBEDigits(Wrap(n, size), size);
    if n < 0 {
      forall i | 0 <= i < size
        ensures Digit(n + Pow256(size), i) == Digit(n, i)
      {
        DigitPeriod(n, size, i);
      }
    }
  }

  // ---------- reading ----------

  lemma FromBEOne(b: byte)
    ensures FromBE([b]) == b
  {
    assert [b][..0] == [];
  }

  /** The digits of a concatenation: the front counts in units of the back. */
  lemma {:induction false} FromBEConcat(a: seq<byte>, b: seq<byte>)
    ensures FromBE(a + b) == FromBE(a) * Pow256(|b|) + FromBE(b)
    decreases |b|
  {
    if b == [] {
      assert a + b == a;
    } else {
      var n := |b| - 1;
      assert (a + b)[..|a + b| - 1] == a + b[..n];
      FromBEConcat(a, b[..n]);
      TimesBase(FromBE(a), Pow256(n), FromBE(b[..n]), b[n]);
    }
  }

  lemma TimesBase(x: nat, p: nat, y: nat, d: nat)
    ensures 256 * (x * p + y) + d == x * (256 * p) + (256 * y + d)
  {
  }

  /** A natural number below `256^size` has the digits `bs` exactly if `bs` is read as it. */
  lemma {:induction false} DigitsRead(n: nat, bs: seq<byte>)
    requires n < Pow256(|bs|)
    ensures Digits(n, bs) <==> FromBE(bs) == n
  {
    ToBEDigits(n, |bs|);
    BERoundTrip(n, |bs|);
    if Digits(n, bs) {
      assert bs == ToBE(n, |bs|);
    }
    if FromBE(bs) == n {
      ReadWritten(bs);
    }
  }

  lemma {:induction false} ReadWritten(bs: seq<byte>)
    ensures ToBE(FromBE(bs), |bs|) == bs
  {
    if bs != [] {
      var n := |bs| - 1;
      ReadWritten(bs[..n]);
      assert FromBE(bs) / 256 == FromBE(bs[..n]) && FromBE(bs) % 256 == bs[n];
      assert bs == bs[..n] + [bs[n]];
    }
  }

  ghost predicate Signed(n: int, size: nat) {
    -(Pow256(size) as int) <= 2 * n < Pow256(size)
  }

  lemma SameDigits(n: int, m: int, bs: seq<byte>)
    requires forall k :: 0 <= k < |bs| ==> Digit(n, k) == Digit(m, k)
    ensures Digits(n, bs) <==> Digits(m, bs)
  {
    forall i | 0 <= i < |bs|
      ensures bs[i] == Digit(n, |bs| - 1 - i) <==> bs[i] == Digit(m, |bs| - 1 - i)
    {
    }
  }

  lemma {:induction false} WrappedDigits(n: int, bs: seq<byte>)
    requires Signed(n, |bs|) && bs != []
    ensures Wrap(n, |bs|) >= 0 && (Digits(n, bs) <==> Digits(Wrap(n, |bs|), bs))
  {
    WrapFits(n, |bs|);
    forall k | 0 <= k < |bs|
      ensures Digit(n, k) == Digit(Wrap(n, |bs|), k)
    {
      DigitPeriod(n, |bs|, k);
    }
    SameDigits(n, Wrap(n, |bs|), bs);
  }

  lemma {:induction false} UnwrapExact(u: nat, n: int, size: nat)
    requires u < Pow256(size) && Signed(n, size) && size > 0
    ensures Unwrap(u, size) == n <==> u == Wrap(n, size)
  {
    Pow256Even(size);
  }

  /** A signed number of `size` bytes has the digits `bs` exactly if they are read as it. */
  lemma {:induction false} SignedRead(n: int, bs: seq<byte>)
    requires Signed(n, |bs|) && bs != []
    ensures Digits(n, bs) <==> Unwrap(FromBE(bs), |bs|) == n
  {
    FromBEBound(bs);
    WrapFits(n, |bs|);
    WrappedDigits(n, bs);
    DigitsRead(Wrap(n, |bs|), bs);
    UnwrapExact(FromBE(bs), n, |bs|);
  }

  // ---------- encodings ----------

  lemma PrefixDigits(n: nat)
    ensures Digits(n, ToBE(n % U32_LIMIT, 4))
  {
    var m, q := n % U32_LIMIT, n / U32_LIMIT;
    ToBEDigits(m, 4);
    Pow256Of4();
    forall k | 0 <= k < 4
      ensures Digit(n, k) == Digit(m, k)
    {
      PrefixPeriod(m, q, k);
    }
    SameDigits(n, m, ToBE(m, 4));
  }

  lemma {:induction false} PrefixPeriod(m: nat, q: nat, k: nat)
    requires k < 4
    ensures Digit(q * U32_LIMIT + m, k) == Digit(m, k)
  {
    Pow256Of4();
    Pow256Add(4 - k, k);
    var p, rest := Pow256(k), Pow256(3 - k);
    assert U32_LIMIT == 256 * rest * p;
    assert q * U32_LIMIT == 256 * (q * rest) * p;
    PeriodOf(m, p, q * rest);
  }

  /** The bytes of an encoding: digits for numbers and lengths, one byte for truth values and tags, text and
      byte arrays as they are. */
  ghost predicate Written(ty: Ty, v: Val, bs: seq<byte>)
    requires HasType(ty, v)
  {
    match ty
    case Uint(size) => |bs| == size && Digits(v.n, bs)
    case Int(size) => |bs| == size && Digits(v.n, bs)
    case Bool => bs == if v.b then [1] else [0]
    case Bytes32 => bs == v.bytes
    case Str => |bs| >= 4 && Digits(|v.bytes|, bs[..4]) && bs[4..] == v.bytes
    case Vec(_) => |bs| >= 4 && Digits(|v.items|, bs[..4])
    case Opt(_) => if v.VSome? then |bs| >= 1 && bs[0] == 1 else bs == [0]
    case Tuple(_) => true
    case HashMap(_, _) => |bs| >= 4 && Digits(|v.m|, bs[..4])
  }

  lemma {:induction false} EncodedBytes(ty: Ty, v: Val, bs: seq<byte>)
    requires ValidTy(ty) && HasType(ty, v) && Encodes(ty, v, bs)
    ensures Written(ty, v, bs)
  {
    match ty
    case Uint(size) => ToBEDigits(v.n, size);
    case Int(size) => WrapDigits(v.n, size);
    case Str =>
      PrefixDigits(|v.bytes|);
      assert bs[..4] == ToBE(|v.bytes| % U32_LIMIT, 4) && bs[4..] == v.bytes;
    case Vec(_) => PrefixDigits(|v.items|);
    case HashMap(_, _) => PrefixDigits(|v.m|);
    case _ =>
  }

  /** A decoded number has the digits that were read, and a decoded text is what so many bytes give. */
  ghost predicate ReadAs(ty: Ty, v: Val, data: seq<byte>, off: nat, o: nat) {
    match ty
    case Uint(size) =>
      o == off + size <= |data| && v.VInt? && 0 <= v.n < Pow256(size) && Digits(v.n, data[off..o])
    case Int(size) =>
      o == off + size <= |data| && v.VInt? && Signed(v.n, size) && Digits(v.n, data[off..o])
    case Bool => o == off + 1 <= |data| && v == VBool(data[off] != 0)
    case Str =>
      && off + 4 <= o <= |data| && o - off - 4 < U32_LIMIT
      && Digits(o - off - 4, data[off..off + 4]) && v == VBytes(Lossy(data[off + 4..o]))
    case _ => true
  }

  lemma {:induction false} DecodedBytes(ty: Ty, data: seq<byte>, off: nat)
    requires ValidTy(ty) && De(ty, data, off).0.Some?
    ensures ReadAs(ty, De(ty, data, off).0.value, data, off, De(ty, data, off).1)
  {
    match ty
    case Uint(size) => UintBytes(size, data, off);
    case Int(size) => IntBytes(size, data, off);
    case Str => TextBytes(data, off);
    case _ =>
  }

  lemma {:induction false} UintBytes(size: nat, data: seq<byte>, off: nat)
    requires De(Uint(size), data, off).0.Some?
    ensures ReadAs(Uint(size), De(Uint(size), data, off).0.value, data, off, De(Uint(size), data, off).1)
  {
    var bs := data[off..off + size];
    FromBEBound(bs);
    DigitsRead(FromBE(bs), bs);
  }

  lemma {:induction false} IntBytes(size: nat, data: seq<byte>, off: nat)
    requires size > 0 && De(Int(size), data, off).0.Some?
    ensures ReadAs(Int(size), De(Int(size), data, off).0.value, data, off, De(Int(size), data, off).1)
  {
    var bs := data[off..off + size];
    FromBEBound(bs);
    Pow256Even(size);
    SignedRead(Unwrap(FromBE(bs), size), bs);
  }

  lemma {:induction false} TextBytes(data: seq<byte>, off: nat)
    requires De(Str, data, off).0.Some?
    ensures ReadAs(Str, De(Str, data, off).0.value, data, off, De(Str, data, off).1)
  {
    var bs := data[off..off + 4];
    FromBEBound(bs);
    Pow256Of4();
    DigitsRead(FromBE(bs), bs);
  }

  /** For example. */
  lemma {:induction false} Samples(bs: seq<byte>)
    ensures Encodes(Uint(4), VInt(1), bs) ==> bs == [0, 0, 0, 1]
    ensures Encodes(Int(2), VInt(-2), bs) ==> bs == [255, 254]
    ensures Encodes(Str, VBytes([104, 105]), bs) ==> bs == [0, 0, 0, 2, 104, 105]
    ensures De(Uint(4), [0, 0, 0, 1], 0) == (Some(VInt(1)), 4)
  {
    assert Wrap(-2, 2) == 65534 && ToBE(255, 1) == [255];
    assert Pow256(0) == 1 && Pow256(1) == 256 && Pow256(2) == 65536;
    assert [0, 0, 0, 1][0..4] == [0, 0, 0, 1];
    assert [0, 0, 0, 1][..3] == [0, 0, 0] && [0, 0, 0][..2] == [0, 0] && [0, 0][..1] == [0] && [0][..0] == [];
  }
}
