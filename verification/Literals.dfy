/** Parsing and printing of 256-bit literals (cambrian-core/src/lib.rs). */
module Literals {
  import opened Sequences
  import opened Words
  import opened U256Words
  import opened U256Div
  import opened Power

  datatype ParseError = Empty | InvalidDigit | Overflow | TooManyDigits

  datatype Parsed = Ok(value: U256) | Err(error: ParseError)

  const LIMIT: nat := B128 * B128
  const TEN := U256(0, 10)

  function Strip(s: string): string {
    if s == [] then [] else (if s[0] == '_' then [] else [s[0]]) + Strip(s[1..])
  }

  /** Exactly the underscores are dropped. */
  lemma {:induction false} StripConcat(a: string, b: string)
    ensures Strip(a + b) == Strip(a) + Strip(b)
  {
    if a == [] {
      assert a + b == b;
    } else {
      StripConcat(a[1..], b);
      TailOfSum(a, b);
    }
  }

  lemma StripOne(c: char)
    ensures Strip([c]) == if c == '_' then [] else [c]
  {
    assert [c][1..] == [];
  }

  predicate IsHex(c: char) {
    '0' <= c <= '9' || 'a' <= c <= 'f' || 'A' <= c <= 'F'
  }

  function HexDigit(c: char): (d: nat)
    requires IsHex(c)
    ensures d < 16
  {
    if c <= '9' then (c as int) - ('0' as int)
    else if c <= 'F' then (c as int) - ('A' as int) + 10
    else (c as int) - ('a' as int) + 10
  }

  /** The digits are those of `0..9`, `a..f` and `A..F`, with these values. */
  lemma HexDigitsExact(c: char, d: nat)
    requires d < 16
    ensures IsHex(c) && HexDigit(c) == d <==> c == "0123456789abcdef"[d] || c == "0123456789ABCDEF"[d]
  {
  }

  predicate IsDigit(base: nat, c: char) {
    IsHex(c) && HexDigit(c) < base
  }

  predicate AllDigits(base: nat, s: string) {
    forall i :: 0 <= i < |s| ==> IsDigit(base, s[i])
  }

  /** The number that a string of digits denotes. */
  ghost function Denotes(base: nat, s: string): nat
    requires AllDigits(base, s)
  {
    if s == [] then 0 else base * Denotes(base, s[..|s| - 1]) + HexDigit(s[|s| - 1])
  }

  lemma {:induction false} DenotesSnoc(base: nat, s: string, i: nat)
    requires i < |s| && AllDigits(base, s[..i + 1])
    ensures AllDigits(base, s[..i]) && IsDigit(base, s[i])
    ensures Denotes(base, s[..i + 1]) == base * Denotes(base, s[..i]) + HexDigit(s[i])
  {
    assert s[..i + 1][..i] == s[..i];
    assert s[..i + 1][i] == s[i];
    forall k | 0 <= k < i
      ensures IsDigit(base, s[..i][k])
    {
      assert s[..i + 1][k] == s[k];
    }
  }

  /** More digits never denote less. */
  lemma {:induction false} DenotesGrows(base: nat, s: string, i: nat)
    requires base > 0 && AllDigits(base, s) && i <= |s|
    ensures AllDigits(base, s[..i]) && Denotes(base, s[..i]) <= Denotes(base, s)
    decreases |s|
  {
    if i == |s| {
      assert s[..i] == s;
    } else {
      DenotesGrows(base, s[..|s| - 1], i);
      assert s[..|s| - 1][..i] == s[..i];
      MulMonotone(1, Denotes(base, s[..|s| - 1]), base, Denotes(base, s[..|s| - 1]));
    }
  }

  /** What decimal parsing answers: the first problem from the left, or the number. */
  ghost predicate DecimalAnswer(s: string, r: Parsed) {
    if s == [] then r == Err(Empty)
    else
      match r
      case Ok(v) => AllDigits(10, s) && Denotes(10, s) == Val(v)
      case Err(InvalidDigit) =>
        exists i :: 0 <= i < |s| && !IsDigit(10, s[i]) && AllDigits(10, s[..i]) && Denotes(10, s[..i]) < LIMIT
      case Err(Overflow) =>
        exists i :: 0 < i <= |s| && AllDigits(10, s[..i]) && Denotes(10, s[..i]) >= LIMIT
      case Err(_) => false
  }

  /** On digits only: the number, or overflow exactly when it does not fit. */
  lemma {:induction false} DecimalExact(s: string, r: Parsed)
    requires DecimalAnswer(s, r) && s != [] && AllDigits(10, s)
    ensures if Denotes(10, s) < LIMIT then r.Ok? && Val(r.value) == Denotes(10, s) else r == Err(Overflow)
  {
    if r == Err(Overflow) {
      var i :| 0 < i <= |s| && AllDigits(10, s[..i]) && Denotes(10, s[..i]) >= LIMIT;
      DenotesGrows(10, s, i);
    }
  }

  /** The two guard constants make the test exact. */
  lemma GuardExact(result: nat, digit: nat, maxQ: nat, maxR: nat)
    requires digit < 10 && LIMIT - 1 == maxQ * 10 + maxR && maxR < 10
    ensures result > maxQ || (result == maxQ && digit > maxR) <==> result * 10 + digit >= LIMIT
  {
  }

  method FromDecimalStr(input: string) returns (r: Parsed)
    ensures DecimalAnswer(Strip(input), r)
  {
    var s := Strip(input);
    if |s| == 0 {
      return Err(Empty);
    }
    var max := DivRem(MAX, TEN);
    var maxQuotient, maxRemainder := max.value.0, max.value.1.lo;
    var result := ZERO;
    var i := 0;
    while i < |s|
      invariant 0 <= i <= |s|
      invariant AllDigits(10, s[..i]) && Denotes(10, s[..i]) == Val(result)
    {
      if !IsDigit(10, s[i]) {
        return Err(InvalidDigit);
      }
      var digit := HexDigit(s[i]);
      assert AllDigits(10, s[..i + 1]);
      DenotesSnoc(10, s, i);
      GuardExact(Val(result), digit, Val(maxQuotient), maxRemainder);
      if Less(maxQuotient, result) || (result == maxQuotient && digit > maxRemainder) {
        return Err(Overflow);
      }
      result := TimesTenPlus(result, digit);
      i := i + 1;
    }
    assert s[..i] == s;
    return Ok(result);
  }

  method TimesTenPlus(v: U256, digit: nat) returns (r: U256)
    requires digit < 10 && Val(v) * 10 + digit < LIMIT
    ensures Val(r) == Val(v) * 10 + digit
  {
    r := Add(Mul(v, TEN).value, U256(0, digit)).value;
  }

  // ---------- printing in decimal ----------

  function DigitChar(d: nat): (c: char)
    requires d < 16
    ensures IsHex(c) && HexDigit(c) == d && c != '_'
  {
    "0123456789abcdef"[d]
  }

  /** The digits of `n` without leading zeros; `"0"` for zero. */
  function Decimal(n: nat): string {
    (if n < 10 then [] else Decimal(n / 10)) + [DigitChar(n % 10)]
  }

  function Reverse(s: string): string {
    if s == [] then [] else Reverse(s[1..]) + [s[0]]
  }

  lemma {:induction false} ReverseSnoc(s: string, c: char)
    ensures Reverse(s + [c]) == [c] + Reverse(s)
  {
    if s == [] {
      assert s + [c] == [c] && [c][1..] == [];
    } else {
      ReverseSnoc(s[1..], c);
      assert (s + [c])[1..] == s[1..] + [c];
      assert (s + [c])[0] == s[0];
    }
  }

  method DivTen(n: U256) returns (q: U256, r: nat)
    ensures Val(q) == Val(n) / 10 && r == Val(n) % 10
  {
    var qr := DivRem(n, TEN);
    q, r := qr.value.0, qr.value.1.lo;
    DivModUnique(Val(n), 10, Val(q), r);
  }

  method ToDisplayDecimal(v: U256) returns (s: string)
    ensures s == Decimal(Val(v))
  {
    if v.hi == 0 {
      return Decimal(v.lo);
    }
    var n := v;
    var digits: string := [];
    while n != ZERO
      invariant (if Val(n) == 0 then [] else Decimal(Val(n))) + Reverse(digits) == Decimal(Val(v))
      decreases Val(n)
    {
      var q, r := DivTen(n);
      ReverseSnoc(digits, DigitChar(r));
      NextDigit(Val(n), Reverse(digits));
      digits := digits + [DigitChar(r)];
      n := q;
    }
    return Reverse(digits);
  }

  lemma {:induction false} NextDigit(n: nat, tail: string)
    requires n > 0
    ensures Decimal(n) + tail == (if n / 10 == 0 then [] else Decimal(n / 10)) + ([DigitChar(n % 10)] + tail)
  {
    var front := if n / 10 == 0 then [] else Decimal(n / 10);
    assert Decimal(n) == front + [DigitChar(n % 10)];
    assert front + [DigitChar(n % 10)] + tail == front + ([DigitChar(n % 10)] + tail);
  }

  lemma {:induction false} DecimalDenotes(n: nat)
    ensures AllDigits(10, Decimal(n)) && Denotes(10, Decimal(n)) == n
    ensures forall i :: 0 <= i < |Decimal(n)| ==> Decimal(n)[i] != '_'
  {
    var front := if n < 10 then [] else Decimal(n / 10);
    if n >= 10 {
      DecimalDenotes(n / 10);
    }
    AppendDigit(front, n % 10);
    assert Decimal(n) == front + [DigitChar(n % 10)];
  }

  lemma {:induction false} AppendDigit(front: string, d: nat)
    requires d < 10 && AllDigits(10, front)
    ensures AllDigits(10, front + [DigitChar(d)])
    ensures Denotes(10, front + [DigitChar(d)]) == 10 * Denotes(10, front) + d
  {
    assert (front + [DigitChar(d)])[..|front|] == front;
  }

  /** Only zero is printed with a leading zero. */
  lemma {:induction false} DecimalLeads(n: nat)
    ensures |Decimal(n)| >= 1 && (n > 0 ==> Decimal(n)[0] != '0')
  {
    if n >= 10 {
      DecimalLeads(n / 10);
    } else {
      assert HexDigit('0') == 0;
    }
  }

  /** No shorter string of digits denotes the same number. */
  lemma {:induction false} DecimalShortest(s: string)
    requires s != [] && AllDigits(10, s)
    ensures |Decimal(Denotes(10, s))| <= |s|
    decreases |s|
  {
    var n := |s| - 1;
    if n > 0 {
      var d := HexDigit(s[n]);
      DecimalShortest(s[..n]);
      DivModUnique(Denotes(10, s), 10, Denotes(10, s[..n]), d);
    }
  }

  lemma {:induction false} StripNothing(s: string)
    requires forall i :: 0 <= i < |s| ==> s[i] != '_'
    ensures Strip(s) == s
  {
    if s != [] {
      StripNothing(s[1..]);
      assert s == [s[0]] + s[1..];
    }
  }

  lemma ValInjective(a: U256, b: U256)
    requires Val(a) == Val(b)
    ensures a == b
  {
  }

  /** Parsing the printed form gives the value back. */
  lemma DecimalRoundTrip(v: U256, r: Parsed)
    requires DecimalAnswer(Strip(Decimal(Val(v))), r)
    ensures r == Ok(v)
  {
    DecimalDenotes(Val(v));
    StripNothing(Decimal(Val(v)));
    DecimalExact(Decimal(Val(v)), r);
    if r.Ok? {
      ValInjective(r.value, v);
    }
  }

  // ---------- hexadecimal ----------

  /** Length in bytes of the UTF-8 form, which is what the length limits look at. */
  function ByteLen(s: string): nat {
    if s == [] then 0 else CharBytes(s[0]) + ByteLen(s[1..])
  }

  function CharBytes(c: char): nat {
    var n := c as int;
    if n < 0x80 then 1 else if n < 0x800 then 2 else if n < 0x10000 then 3 else 4
  }

  lemma {:induction false} ByteLenBounds(s: string)
    ensures |s| <= ByteLen(s)
    ensures AllDigits(16, s) ==> ByteLen(s) == |s|
  {
    if s != [] {
      ByteLenBounds(s[1..]);
      if AllDigits(16, s) {
        assert IsDigit(16, s[0]);
        assert forall i :: 0 <= i < |s[1..]| ==> s[1..][i] == s[i + 1];
      }
    }
  }

  function Zeros(n: nat): (s: string)
    ensures |s| == n && forall i :: 0 <= i < n ==> s[i] == '0'
  {
    if n == 0 then [] else Zeros(n - 1) + ['0']
  }

  lemma ConcatStep(base: nat, x: nat, e: nat, y: nat, d: nat)
    ensures base * (x * e + y) + d == x * (base * e) + (base * y + d)
  {
    assert base * (x * e) == x * (base * e);
  }

  lemma {:induction false} DenotesConcat(base: nat, a: string, b: string)
    requires AllDigits(base, a) && AllDigits(base, b)
    ensures AllDigits(base, a + b)
    ensures Denotes(base, a + b) == Denotes(base, a) * Exp(base, |b|) + Denotes(base, b)
  {
    if b == [] {
      assert a + b == a;
    } else {
      var n := |b| - 1;
      DenotesConcat(base, a, b[..n]);
      assert (a + b)[..|a + b| - 1] == a + b[..n];
      ConcatStep(base, Denotes(base, a), Exp(base, n), Denotes(base, b[..n]), HexDigit(b[n]));
    }
  }

  lemma {:induction false} DenotesBound(base: nat, s: string)
    requires base > 0 && AllDigits(base, s)
    ensures Denotes(base, s) < Exp(base, |s|)
  {
    if s != [] {
      var n := |s| - 1;
      DenotesBound(base, s[..n]);
      MulMonotone(base, Denotes(base, s[..n]) + 1, base, Exp(base, n));
      assert base * (Denotes(base, s[..n]) + 1) == base * Denotes(base, s[..n]) + base;
    }
  }

  lemma {:induction false} ZerosDenote(n: nat)
    ensures AllDigits(16, Zeros(n)) && Denotes(16, Zeros(n)) == 0
  {
    if n > 0 {
      ZerosDenote(n - 1);
      assert Zeros(n)[..n - 1] == Zeros(n - 1);
    }
  }

  lemma Exp16()
    ensures Exp(16, 32) == B128
  {
    ExpPow2(32);
    Pow2Of128();
  }

  lemma {:induction false} ExpPow2(n: nat)
    ensures Exp(16, n) == Pow2(4 * n)
  {
    if n > 0 {
      ExpPow2(n - 1);
      assert Pow2(4) == 16;
      Pow2Add(4, 4 * n - 4);
    }
  }

  /** The library's radix-16 conversion of 32 digits to a limb. */
  function LimbFromHex(s: string): u128
    requires |s| == 32 && AllDigits(16, s)
  {
    DenotesBound(16, s);
    Exp16();
    HexNumber(s)
  }

  function HexNumber(s: string): (n: nat)
    requires AllDigits(16, s)
    ensures n == Denotes(16, s)
  {
    if s == [] then 0 else 16 * HexNumber(s[..|s| - 1]) + HexDigit(s[|s| - 1])
  }

  function FromHexDigits(input: string): Parsed {
    var s := Strip(input);
    if |s| == 0 then Err(Empty)
    else if ByteLen(s) > 64 then Err(TooManyDigits)
    else if !AllDigits(16, s) then Err(InvalidDigit)
    else
      ByteLenBounds(s);
      Ok(FromPadded(s))
  }

  /** Pads to 64 digits and converts the two halves. */
  function FromPadded(s: string): U256
    requires AllDigits(16, s) && |s| <= 64
  {
    var padded := Zeros(64 - |s|) + s;
    PaddedDigits(s);
    U256(LimbFromHex(padded[..32]), LimbFromHex(padded[32..]))
  }

  lemma PaddedDigits(s: string)
    requires AllDigits(16, s) && |s| <= 64
    ensures var p := Zeros(64 - |s|) + s;
            AllDigits(16, p) && AllDigits(16, p[..32]) && AllDigits(16, p[32..])
  {
    var p := Zeros(64 - |s|) + s;
    ZerosDenote(64 - |s|);
    forall i | 0 <= i < |p|
      ensures IsDigit(16, p[i])
    {
      assert i >= 64 - |s| ==> p[i] == s[i - (64 - |s|)];
    }
  }

  lemma {:induction false} HalvesDenote(p: string)
    requires |p| == 64 && AllDigits(16, p) && AllDigits(16, p[..32]) && AllDigits(16, p[32..])
    ensures Denotes(16, p) == Denotes(16, p[..32]) * B128 + Denotes(16, p[32..])
  {
    Exp16();
    assert p == p[..32] + p[32..];
    DenotesConcat(16, p[..32], p[32..]);
  }

  lemma {:induction false} PaddedDenotes(s: string)
    requires AllDigits(16, s) && |s| <= 64
    ensures var p := Zeros(64 - |s|) + s;
            && AllDigits(16, p[..32]) && AllDigits(16, p[32..])
            && Denotes(16, p[..32]) * B128 + Denotes(16, p[32..]) == Denotes(16, s)
  {
    var z := Zeros(64 - |s|);
    var p := z + s;
    PaddedDigits(s);
    ZerosDenote(64 - |s|);
    DenotesConcat(16, z, s);
    ZeroTimes(Exp(16, |s|));
    HalvesDenote(p);
  }

  lemma ZeroTimes(e: nat)
    ensures 0 * e == 0
  {
  }

  /** Hexadecimal parsing: the number for 1 to 64 digits, and which error otherwise. */
  lemma {:induction false} FromHexExact(input: string)
    ensures var s := Strip(input);
            var r := FromHexDigits(input);
            if s == [] then r == Err(Empty)
            else if ByteLen(s) > 64 then r == Err(TooManyDigits)
            else if AllDigits(16, s) then r.Ok? && Val(r.value) == Denotes(16, s)
            else r == Err(InvalidDigit)
  {
    var s := Strip(input);
    ByteLenBounds(s);
    if AllDigits(16, s) && |s| <= 64 {
      PaddedValue(s);
    }
  }

  lemma {:induction false} PaddedValue(s: string)
    requires AllDigits(16, s) && |s| <= 64
    ensures Val(FromPadded(s)) == Denotes(16, s)
  {
    PaddedDenotes(s);
  }

  /** `w` hexadecimal digits of `n`, zero-padded. */
  function HexPadded(n: nat, w: nat): (s: string)
    ensures |s| == w && forall i :: 0 <= i < w ==> s[i] != '_'
  {
    if w == 0 then [] else HexPadded(n / 16, w - 1) + [DigitChar(n % 16)]
  }

  lemma {:induction false} HexPaddedDenotes(n: nat, w: nat)
    requires n < Exp(16, w)
    ensures AllDigits(16, HexPadded(n, w)) && Denotes(16, HexPadded(n, w)) == n
  {
    if w > 0 {
      HexPaddedDenotes(n / 16, w - 1);
      var s := HexPadded(n, w);
      assert s[..w - 1] == HexPadded(n / 16, w - 1);
    }
  }

  /** The display form of a value above 2^128, after its `0x`. */
  function DisplayHex(v: U256): string {
    HexPadded(v.hi, 32) + HexPadded(v.lo, 32)
  }

  lemma HexRoundTrip(v: U256)
    ensures FromHexDigits(DisplayHex(v)) == Ok(v)
  {
    Exp16();
    HexPaddedDenotes(v.hi, 32);
    HexPaddedDenotes(v.lo, 32);
    DenotesConcat(16, HexPadded(v.hi, 32), HexPadded(v.lo, 32));
    StripNothing(DisplayHex(v));
    ByteLenBounds(DisplayHex(v));
    FromHexExact(DisplayHex(v));
    ValInjective(FromHexDigits(DisplayHex(v)).value, v);
  }

  // ---------- binary ----------

  function Body(input: string): string {
    Strip(if |input| >= 2 && input[..2] == "0b" then input[2..] else input)
  }

  /** One `0b` in front is dropped, and then the underscores. */
  lemma {:induction false} BodyExact(s: string)
    ensures Body("0b" + s) == Strip(s)
    ensures |s| < 2 || s[0] != '0' || s[1] != 'b' ==> Body(s) == Strip(s)
  {
    assert ("0b" + s)[..2] == "0b" && ("0b" + s)[2..] == s;
  }

  method FromBinaryDigits(input: string) returns (r: Parsed)
    ensures var s := Body(input);
            if s == [] then r == Err(Empty)
            else if ByteLen(s) > 256 then r == Err(TooManyDigits)
            else if AllDigits(2, s) then r.Ok? && Val(r.value) == Denotes(2, s)
            else r == Err(InvalidDigit)
  {
    var s := Body(input);
    if |s| == 0 {
      return Err(Empty);
    }
    if ByteLen(s) > 256 {
      return Err(TooManyDigits);
    }
    ByteLenBounds(s);
    var result := ZERO;
    var i := 0;
    while i < |s|
      invariant 0 <= i <= |s|
      invariant BitsRead(s, i, result)
    {
      ghost var before := result;
      result := Double(result, i);
      if s[i] == '1' {
        result := Add(result, ONE).value;
      } else if s[i] != '0' {
        return Err(InvalidDigit);
      }
      BitRead(s, i, before, result);
      i := i + 1;
    }
    assert s[..i] == s;
    return Ok(result);
  }

  /** The first `i` digits of `s` are binary and denote `v`. */
  ghost predicate BitsRead(s: string, i: nat, v: U256) {
    i <= |s| && AllDigits(2, s[..i]) && Denotes(2, s[..i]) == Val(v) < Pow2(i)
  }

  lemma BitRead(s: string, i: nat, v: U256, next: U256)
    requires i < |s| && BitsRead(s, i, v) && IsDigit(2, s[i])
    requires Val(next) == 2 * Val(v) + HexDigit(s[i])
    ensures BitsRead(s, i + 1, next)
  {
    assert s[..i + 1][..i] == s[..i];
    assert AllDigits(2, s[..i + 1]);
    DenotesSnoc(2, s, i);
  }

  method Double(v: U256, i: nat) returns (r: U256)
    requires i < 256 && Val(v) < Pow2(i)
    ensures Val(r) == 2 * Val(v) && Val(r) + 1 < B128 * B128
  {
    Pow2AroundWord(i + 1);
    assert Pow2(1) == 2;
    ShlKeeps(v, 1);
    r := Shl(v, 1);
  }
}
