/** UTF-8 byte strings and the lossy conversion that the deserializer of
    cambrian-core/src/lib.rs applies to text (The Unicode Standard, section 3.9). */
module Utf8 {

  type byte = x: nat | x < 256

  /** U+FFFD. */
  const REPLACEMENT: seq<byte> := [0xEF, 0xBF, 0xBD]

  /** How many bytes a character with this first byte has; 0 if none starts with it. */
  function Width(b: byte): nat {
    if b < 0x80 then 1
    else if b < 0xC2 then 0
    else if b < 0xE0 then 2
    else if b < 0xF0 then 3
    else if b < 0xF5 then 4
    else 0
  }

  predicate Continues(b: byte) {
    0x80 <= b <= 0xBF
  }

  /** The ranges of second bytes that exclude overlong forms, surrogates and numbers above U+10FFFF. */
  predicate SecondFits(first: byte, second: byte) {
    if first == 0xE0 then 0xA0 <= second <= 0xBF
    else if first == 0xED then 0x80 <= second <= 0x9F
    else if first == 0xF0 then 0x90 <= second <= 0xBF
    else if first == 0xF4 then 0x80 <= second <= 0x8F
    else Continues(second)
  }

  /** The length of the longest beginning of `bs` that also begins a character; 1 if there is none. */
  function Chunk(bs: seq<byte>): (n: nat)
    requires bs != []
    ensures 1 <= n <= |bs|
  {
    var w := Width(bs[0]);
    if w <= 1 || |bs| < 2 || !SecondFits(bs[0], bs[1]) then 1
    else if w == 2 || |bs| < 3 || !Continues(bs[2]) then 2
    else if w == 3 || |bs| < 4 || !Continues(bs[3]) then 3
    else 4
  }

  /** That beginning is a character. */
  predicate Complete(bs: seq<byte>)
    requires bs != []
  {
    Width(bs[0]) == Chunk(bs)
  }

  predicate Valid(bs: seq<byte>)
    decreases |bs|
  {
    bs == [] || (Complete(bs) && Valid(bs[Chunk(bs)..]))
  }

  /** Each maximal part that is not a character becomes U+FFFD. */
  function Lossy(bs: seq<byte>): seq<byte>
    decreases |bs|
  {
    if bs == [] then []
    else (if Complete(bs) then bs[..Chunk(bs)] else REPLACEMENT) + Lossy(bs[Chunk(bs)..])
  }

  /** Well-formed text is unchanged. */
  lemma {:induction false} LossyOfValid(bs: seq<byte>)
    requires Valid(bs)
    ensures Lossy(bs) == bs
    decreases |bs|
  {
    if bs != [] {
      LossyOfValid(bs[Chunk(bs)..]);
      assert bs == bs[..Chunk(bs)] + bs[Chunk(bs)..];
    }
  }

  /** A character in front is taken off first, whatever follows. */
  lemma FirstCharacter(c: seq<byte>, rest: seq<byte>)
    requires c != [] && Complete(c) && Chunk(c) == |c|
    ensures Complete(c + rest) && Chunk(c + rest) == |c|
  {
    assert forall i :: 0 <= i < |c| ==> (c + rest)[i] == c[i];
  }

  lemma ValidCons(c: seq<byte>, rest: seq<byte>)
    requires c != [] && Complete(c) && Chunk(c) == |c| && Valid(rest)
    ensures Valid(c + rest)
  {
    FirstCharacter(c, rest);
    assert (c + rest)[|c|..] == rest;
  }

  lemma ChunkAlone(bs: seq<byte>)
    requires bs != [] && Complete(bs)
    ensures var c := bs[..Chunk(bs)];
            c != [] && Complete(c) && Chunk(c) == |c|
  {
  }

  /** What comes out is always well-formed. */
  lemma {:induction false} LossyIsValid(bs: seq<byte>)
    ensures Valid(Lossy(bs))
    decreases |bs|
  {
    if bs != [] {
      var rest := bs[Chunk(bs)..];
      LossyIsValid(rest);
      if Complete(bs) {
        ChunkAlone(bs);
        ValidCons(bs[..Chunk(bs)], Lossy(rest));
      } else {
        assert Complete(REPLACEMENT) && Chunk(REPLACEMENT) == 3;
        ValidCons(REPLACEMENT, Lossy(rest));
      }
    }
  }

  /** It grows to at most three times the length. */
  lemma {:induction false} LossyGrowth(bs: seq<byte>)
    ensures |Lossy(bs)| <= 3 * |bs|
    decreases |bs|
  {
    if bs != [] {
      LossyGrowth(bs[Chunk(bs)..]);
    }
  }

  /** A cut through well-formed text damages at most the character at the cut. */
  lemma {:induction false} LossyOfCut(text: seq<byte>, n: nat)
    requires Valid(text) && n <= |text|
    ensures |Lossy(text[..n])| <= n + 3
    decreases |text|
  {
    if n > 0 {
      var k := Chunk(text);
      if k <= n {
        CutBehind(text, n);
        LossyOfCut(text[k..], n - k);
      } else {
        CutInside(text, n);
      }
    }
  }

  lemma CutBehind(text: seq<byte>, n: nat)
    requires text != [] && Complete(text) && Chunk(text) <= n <= |text|
    ensures var k := Chunk(text);
            |Lossy(text[..n])| == k + |Lossy(text[k..][..n - k])|
  {
    var k := Chunk(text);
    ChunkAlone(text);
    FirstCharacter(text[..k], text[k..][..n - k]);
    assert text[..n] == text[..k] + text[k..][..n - k];
    assert text[..n][k..] == text[k..][..n - k];
  }

  lemma CutInside(text: seq<byte>, n: nat)
    requires text != [] && Complete(text) && 0 < n < Chunk(text)
    ensures |Lossy(text[..n])| == 3
  {
    assert Chunk(text[..n]) == n;
    assert text[..n][n..] == [];
  }
}
