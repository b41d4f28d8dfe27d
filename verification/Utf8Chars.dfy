/** The byte strings that Utf8.dfy calls well-formed are the encodings of lists of
    Unicode scalar values (RFC 3629, section 3), and its chunks are the longest
    beginnings of such characters. */
module Utf8Chars {
  import opened Words
  import opened Utf8

  /** A Unicode scalar value: a code point other than a surrogate. */
  predicate IsScalar(c: nat) {
    c < 0xD800 || 0xE000 <= c < 0x11_0000
  }

  /** Six bits of `c` per continuation byte. */
  function EncodeChar(c: nat): (r: seq<byte>)
    requires IsScalar(c)
    ensures 1 <= |r| <= 4
  {
    if c < 0x80 then [c]
    else if c < 0x800 then [0xC0 + c / 64, 0x80 + c % 64]
    else if c < 0x1_0000 then [0xE0 + c / 4096, 0x80 + c / 64 % 64, 0x80 + c % 64]
    else [0xF0 + c / 262144, 0x80 + c / 4096 % 64, 0x80 + c / 64 % 64, 0x80 + c % 64]
  }

  ghost predicate AllScalars(cs: seq<nat>) {
    forall i :: 0 <= i < |cs| ==> IsScalar(cs[i])
  }

  ghost function EncodeAll(cs: seq<nat>): seq<byte>
    requires AllScalars(cs)
  {
    if cs == [] then [] else EncodeChar(cs[0]) + EncodeAll(cs[1..])
  }

  /** The bytes of a character: a leading one that tells their number, and continuation bytes. */
  lemma CharBytes(c: nat)
    requires IsScalar(c)
    ensures var r := EncodeChar(c);
            && Width(r[0]) == |r|
            && (|r| >= 2 ==> SecondFits(r[0], r[1]))
            && forall i :: 2 <= i < |r| ==> Continues(r[i])
  {
    if c >= 0x1_0000 {
      FourParts(c);
    }
  }

  lemma FourParts(c: nat)
    requires 0x1_0000 <= c < 0x11_0000
    ensures Width(0xF0 + c / 262144) == 4 && SecondFits(0xF0 + c / 262144, 0x80 + c / 4096 % 64)
  {
    var h, m := c / 262144, c / 4096;
    assert m / 64 == h && 16 <= m < 272;
  }

  /** Every character is taken off the front as one. */
  lemma CharComplete(c: nat)
    requires IsScalar(c)
    ensures Complete(EncodeChar(c)) && Chunk(EncodeChar(c)) == |EncodeChar(c)|
  {
    CharBytes(c);
  }

  lemma TwoBytes(a: byte, b: byte) returns (c: nat)
    requires Width(a) == 2 && SecondFits(a, b)
    ensures IsScalar(c) && EncodeChar(c) == [a, b]
  {
    var x, y: nat := a - 0xC0, b - 0x80;
    c := x * 64 + y;
  }

  lemma Parts(q: nat, d: nat, r: nat)
    requires r < d
    ensures (q * d + r) / d == q && (q * d + r) % d == r
  {
    DivModUnique(q * d + r, d, q, r);
  }

  /** The parts of a number made of six-bit digits. */
  lemma SixBits(x: nat, y: nat, z: nat)
    requires y < 64 && z < 64
    ensures var c := x * 4096 + y * 64 + z;
            c / 4096 == x && c / 64 == x * 64 + y && c / 64 % 64 == y && c % 64 == z
  {
    Parts(x, 4096, y * 64 + z);
    Parts(x * 64 + y, 64, z);
    Parts(x, 64, y);
  }

  lemma ThreeBytes(a: byte, b: byte, d: byte) returns (c: nat)
    requires Width(a) == 3 && SecondFits(a, b) && Continues(d)
    ensures IsScalar(c) && EncodeChar(c) == [a, b, d]
  {
    var x: nat, y: nat, z: nat := a - 0xE0, b - 0x80, d - 0x80;
    c := x * 4096 + y * 64 + z;
    SixBits(x, y, z);
  }

  lemma FourBytes(a: byte, b: byte, d: byte, e: byte) returns (c: nat)
    requires Width(a) == 4 && SecondFits(a, b) && Continues(d) && Continues(e)
    ensures IsScalar(c) && EncodeChar(c) == [a, b, d, e]
  {
    var x: nat, y: nat, z: nat, u: nat := a - 0xF0, b - 0x80, d - 0x80, e - 0x80;
    c := (x * 64 + y) * 4096 + z * 64 + u;
    SixBits(x * 64 + y, z, u);
    Parts(x, 64, y);
    HighPart(x, y, z * 64 + u);
    assert c == x * 262144 + y * 4096 + (z * 64 + u);
  }

  lemma HighPart(x: nat, y: nat, r: nat)
    requires y < 64 && r < 4096
    ensures (x * 262144 + y * 4096 + r) / 262144 == x
  {
    Parts(x, 262144, y * 4096 + r);
  }

  /** What is taken off as a character is one. */
  lemma CompleteIsChar(bs: seq<byte>) returns (c: nat)
    requires bs != [] && Complete(bs)
    ensures IsScalar(c) && EncodeChar(c) == bs[..Chunk(bs)]
  {
    var n := Chunk(bs);
    if n == 1 {
      c := bs[0];
    } else if n == 2 {
      c := TwoBytes(bs[0], bs[1]);
    } else if n == 3 {
      c := ThreeBytes(bs[0], bs[1], bs[2]);
    } else {
      c := FourBytes(bs[0], bs[1], bs[2], bs[3]);
    }
  }

  /** Exactly the encodings of lists of scalar values are well-formed. */
  lemma {:induction false} ValidIff(bs: seq<byte>)
    ensures Valid(bs) <==> exists cs :: AllScalars(cs) && bs == EncodeAll(cs)
  {
    if Valid(bs) {
      var cs := Decoded(bs);
    }
    if cs :| AllScalars(cs) && bs == EncodeAll(cs) {
      EncodedValid(cs);
    }
  }

  lemma {:induction false} Decoded(bs: seq<byte>) returns (cs: seq<nat>)
    requires Valid(bs)
    ensures AllScalars(cs) && bs == EncodeAll(cs)
    decreases |bs|
  {
    if bs == [] {
      cs := [];
    } else {
      var c := CompleteIsChar(bs);
      var more := Decoded(bs[Chunk(bs)..]);
      cs := [c] + more;
      assert cs[1..] == more && bs == bs[..Chunk(bs)] + bs[Chunk(bs)..];
    }
  }

  lemma {:induction false} EncodedValid(cs: seq<nat>)
    requires AllScalars(cs)
    ensures Valid(EncodeAll(cs))
  {
    if cs != [] {
      EncodedValid(cs[1..]);
      CharComplete(cs[0]);
      ValidCons(EncodeChar(cs[0]), EncodeAll(cs[1..]));
    }
  }

  /** The first `n` bytes begin some character. */
  ghost predicate Begins(bs: seq<byte>, n: nat)
    requires n <= |bs|
  {
    exists c :: IsScalar(c) && n <= |EncodeChar(c)| && EncodeChar(c)[..n] == bs[..n]
  }

  /** A chunk of more than one byte is the longest beginning of `bs` that begins a character. */
  lemma {:induction false} ChunkLongest(bs: seq<byte>, n: nat)
    requires 1 < n <= |bs|
    ensures n <= Chunk(bs) <==> Begins(bs, n)
  {
    if n <= Chunk(bs) {
      ChunkBegins(bs, n);
    }
    if c :| IsScalar(c) && n <= |EncodeChar(c)| && EncodeChar(c)[..n] == bs[..n] {
      CharBytes(c);
      assert forall i :: 0 <= i < n ==> bs[i] == EncodeChar(c)[..n][i] == EncodeChar(c)[i];
    }
  }

  lemma ChunkBegins(bs: seq<byte>, n: nat)
    requires 1 < n <= |bs| && n <= Chunk(bs)
    ensures Begins(bs, n)
  {
    var w := Width(bs[0]);
    var third, fourth: byte := if n > 2 then bs[2] else 0x80, if n > 3 then bs[3] else 0x80;
    var c;
    if w == 2 {
      c := TwoBytes(bs[0], bs[1]);
    } else if w == 3 {
      c := ThreeBytes(bs[0], bs[1], third);
    } else {
      c := FourBytes(bs[0], bs[1], third, fourth);
    }
    assert EncodeChar(c)[..n] == bs[..n];
  }
}
