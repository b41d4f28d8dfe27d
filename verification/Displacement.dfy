/** A storage table and a longer list of declared variables: which entries keep
    their place when further variables of whole words are declared in between. */
module Displacement {
  import opened StorageLayout
  import opened LayoutFacts

  // ---------- where a later cursor leads ----------

  lemma AlignMonotone(c: nat, c': nat)
    requires c <= c'
    ensures AlignUp(c) <= AlignUp(c')
  {
  }

  lemma AlignShift(c: nat)
    ensures AlignUp(c + 32) == AlignUp(c) + 32
  {
  }

  /** A cursor that is not behind but has less room used is in a later word. */
  lemma LaterWord(c: nat, c': nat)
    requires c <= c' && c' % 32 < c % 32
    ensures AlignUp(c) <= c'
  {
    assert c' / 32 > c / 32;
    assert AlignUp(c) == 32 * (c / 32) + 32;
  }

  /** Room for a shape: a value does not cross a word boundary, everything else starts at one. */
  predicate HasRoom(c: nat, s: Shape) {
    match s
    case Value(n) => c % 32 + n <= 32
    case Word => c % 32 == 0
    case Struct(_) => c % 32 == 0
  }

  lemma AlignLeast(c: nat, c': nat)
    requires c <= c' && c' % 32 == 0
    ensures AlignUp(c) <= c'
  {
    if c % 32 != 0 {
      LaterWord(c, c');
    } else {
      assert AlignUp(c) == c;
    }
  }

  /** A shape starts at the first byte from the cursor on where it has room. */
  lemma StartLeast(c: nat, s: Shape)
    requires s.Value? ==> s.size <= 32
    ensures HasRoom(Start(c, s), s)
    ensures forall c' :: c <= c' && HasRoom(c', s) ==> Start(c, s) <= c'
  {
    forall c' | c <= c' && HasRoom(c', s)
      ensures Start(c, s) <= c'
    {
      if s.Value? {
        if c' % 32 < c % 32 {
          LaterWord(c, c');
        }
      } else {
        AlignLeast(c, c');
      }
    }
  }

  lemma ValueMonotone(c: nat, c': nat, n: nat)
    requires c <= c'
    ensures Start(c, Value(n)) <= Start(c', Value(n))
  {
    AlignMonotone(c, c');
    if c' % 32 < c % 32 {
      LaterWord(c, c');
    }
  }

  lemma StartMonotone(c: nat, c': nat, s: Shape)
    requires c <= c'
    ensures Start(c, s) <= Start(c', s)
  {
    match s
    case Value(n) => ValueMonotone(c, c', n);
    case Word => AlignMonotone(c, c');
    case Struct(_) => AlignMonotone(c, c');
  }

  lemma {:induction false} EndMonotone(c: nat, c': nat, s: Shape)
    requires c <= c'
    ensures End(c, s) <= End(c', s)
    decreases s, 0
  {
    StartMonotone(c, c', s);
    match s
    case Value(_) =>
    case Word =>
    case Struct(fs) =>
      EndAllMonotone(Start(c, s), Start(c', s), fs);
      AlignMonotone(EndAll(Start(c, s), fs), EndAll(Start(c', s), fs));
  }

  lemma {:induction false} EndAllMonotone(c: nat, c': nat, fs: seq<Shape>)
    requires c <= c'
    ensures EndAll(c, fs) <= EndAll(c', fs)
    decreases fs, 1
  {
    if fs != [] {
      var n := |fs| - 1;
      EndAllMonotone(c, c', fs[..n]);
      EndMonotone(EndAll(c, fs[..n]), EndAll(c', fs[..n]), fs[n]);
    }
  }

  lemma StartShift(c: nat, s: Shape)
    ensures Start(c + 32, s) == Start(c, s) + 32
  {
    AlignShift(c);
    assert (c + 32) % 32 == c % 32;
  }

  lemma StructShift(c: nat, c': nat, fs: seq<Shape>)
    requires EndAll(Start(c', Struct(fs)), fs) == EndAll(Start(c, Struct(fs)), fs) + 32
    ensures End(c', Struct(fs)) == End(c, Struct(fs)) + 32
  {
    AlignShift(EndAll(Start(c, Struct(fs)), fs));
  }

  lemma {:induction false} EndShift(c: nat, s: Shape)
    ensures End(c + 32, s) == End(c, s) + 32
    decreases s, 0
  {
    StartShift(c, s);
    match s
    case Value(_) =>
    case Word =>
    case Struct(fs) =>
      EndAllShift(Start(c, s), fs);
      StructShift(c, c + 32, fs);
  }

  lemma {:induction false} EndAllShift(c: nat, fs: seq<Shape>)
    ensures EndAll(c + 32, fs) == EndAll(c, fs) + 32
    decreases fs, 1
  {
    if fs != [] {
      var n := |fs| - 1;
      EndAllShift(c, fs[..n]);
      EndShift(EndAll(c, fs[..n]), fs[n]);
    }
  }

  /** A cursor that is a word behind stays a word behind. */
  lemma {:induction false} LaterByAWord(c: nat, c': nat, s: Shape)
    requires c' >= c + 32
    ensures Start(c', s) >= Start(c, s) + 32 && End(c', s) >= End(c, s) + 32
  {
    StartMonotone(c + 32, c', s);
    StartShift(c, s);
    EndMonotone(c + 32, c', s);
    EndShift(c, s);
  }

  lemma {:induction false} CursorSnoc(items: seq<Item>, item: Item)
    ensures Cursor(items + [item]) == End(Cursor(items), item.shape)
  {
    assert (items + [item])[..|items|] == items;
  }

  lemma {:induction false} CursorsApart(a: seq<Item>, b: seq<Item>, more: seq<Item>)
    requires Cursor(b) >= Cursor(a) + 32
    ensures Cursor(b + more) >= Cursor(a + more) + 32
    decreases |more|
  {
    if more == [] {
      assert a + more == a && b + more == b;
    } else {
      var n := |more| - 1;
      CursorsApart(a, b, more[..n]);
      assert a + more == a + more[..n] + [more[n]] && b + more == b + more[..n] + [more[n]];
      CursorSnoc(a + more[..n], more[n]);
      CursorSnoc(b + more[..n], more[n]);
      LaterByAWord(Cursor(a + more[..n]), Cursor(b + more[..n]), more[n].shape);
    }
  }

  ghost predicate AllWords(items: seq<Item>) {
    forall i :: 0 <= i < |items| ==> items[i].shape == Word && Proper(items[i])
  }

  lemma {:induction false} WordsAdvance(a: seq<Item>, words: seq<Item>)
    requires AllWords(words)
    ensures Cursor(a + words) >= Cursor(a)
    ensures words != [] ==> Cursor(a + words) >= Cursor(a) + 32
    decreases |words|
  {
    if words == [] {
      assert a + words == a;
    } else {
      var n := |words| - 1;
      WordsAdvance(a, words[..n]);
      assert a + words == a + words[..n] + [words[n]];
      CursorSnoc(a + words[..n], words[n]);
    }
  }

  // ---------- two lists ----------

  /** What the table lists for one member, and what is declared behind it without being listed. */
  datatype Block = Block(own: seq<Item>, extra: seq<Item>)

  ghost function Listed(blocks: seq<Block>): seq<Item> {
    if blocks == [] then [] else Listed(blocks[..|blocks| - 1]) + blocks[|blocks| - 1].own
  }

  ghost function Declared(blocks: seq<Block>): seq<Item> {
    if blocks == [] then []
    else Declared(blocks[..|blocks| - 1]) + (blocks[|blocks| - 1].own + blocks[|blocks| - 1].extra)
  }

  ghost predicate Complete(blocks: seq<Block>) {
    forall i :: 0 <= i < |blocks| ==> blocks[i].extra == []
  }

  ghost predicate WordExtras(blocks: seq<Block>) {
    forall i :: 0 <= i < |blocks| ==> AllWords(blocks[i].extra)
  }

  lemma CompleteLast(blocks: seq<Block>)
    requires blocks != []
    ensures var n := |blocks| - 1;
            Complete(blocks) <==> Complete(blocks[..n]) && blocks[n].extra == []
  {
    var n := |blocks| - 1;
    assert forall i :: 0 <= i < n ==> blocks[..n][i] == blocks[i];
  }

  /** Exactly without unlisted variables the two lists are equally long, and then they are equal. */
  lemma {:induction false} DeclaredMore(blocks: seq<Block>)
    ensures |Declared(blocks)| >= |Listed(blocks)|
    ensures |Declared(blocks)| == |Listed(blocks)| <==> Complete(blocks)
    ensures Complete(blocks) ==> Declared(blocks) == Listed(blocks)
  {
    if blocks != [] {
      var n := |blocks| - 1;
      DeclaredMore(blocks[..n]);
      CompleteLast(blocks);
      if blocks[n].extra == [] {
        assert blocks[n].own + [] == blocks[n].own;
      }
    }
  }

  /** The block that entry `j` belongs to. */
  ghost function Owner(blocks: seq<Block>, j: nat): nat
    requires j < |Listed(blocks)|
    ensures Owner(blocks, j) < |blocks|
  {
    var n := |blocks| - 1;
    if j < |Listed(blocks[..n])| then Owner(blocks[..n], j) else n
  }

  /** The position of entry `j` among the declared variables. */
  ghost function Position(blocks: seq<Block>, j: nat): nat
    requires j < |Listed(blocks)|
  {
    var n := |blocks| - 1;
    var before := |Listed(blocks[..n])|;
    if j < before then Position(blocks[..n], j) else |Declared(blocks[..n])| + (j - before)
  }

  /** How many entries come before the first unlisted variable. */
  ghost function Undisturbed(blocks: seq<Block>): nat {
    if blocks == [] then 0
    else if Complete(blocks[..|blocks| - 1]) then |Listed(blocks)|
    else Undisturbed(blocks[..|blocks| - 1])
  }

  ghost predicate AgreeUpto(items: seq<Item>, declared: seq<Item>, u: nat) {
    u <= |items| && u <= |declared| && declared[..u] == items[..u]
  }

  lemma FirstExtra(before: seq<Item>, own: seq<Item>, extra: seq<Item>)
    ensures AgreeUpto(before + own, before + (own + extra), |before + own|)
    ensures extra != [] ==> |before + own| < |before + (own + extra)| && (before + (own + extra))[|before + own|] == extra[0]
  {
    assert before + (own + extra) == before + own + extra;
  }

  lemma LongerAgree(items: seq<Item>, declared: seq<Item>, u: nat, own: seq<Item>, more: seq<Item>)
    requires AgreeUpto(items, declared, u)
    ensures AgreeUpto(items + own, declared + more, u)
    ensures u < |declared| ==> (declared + more)[u] == declared[u]
  {
    assert (items + own)[..u] == items[..u] && (declared + more)[..u] == declared[..u];
  }

  /** Up to there both lists agree, and the next declared variable, if any, fills a word. */
  lemma {:induction false} UndisturbedPrefix(blocks: seq<Block>)
    requires WordExtras(blocks)
    ensures AgreeUpto(Listed(blocks), Declared(blocks), Undisturbed(blocks))
    ensures Complete(blocks) ==> Undisturbed(blocks) == |Listed(blocks)| == |Declared(blocks)|
    ensures !Complete(blocks) ==> Undisturbed(blocks) < |Declared(blocks)| && Declared(blocks)[Undisturbed(blocks)].shape == Word
  {
    if blocks != [] {
      var n := |blocks| - 1;
      CompleteLast(blocks);
      if Complete(blocks[..n]) {
        DeclaredMore(blocks[..n]);
        FirstExtra(Listed(blocks[..n]), blocks[n].own, blocks[n].extra);
      } else {
        UndisturbedPrefix(blocks[..n]);
        LongerAgree(Listed(blocks[..n]), Declared(blocks[..n]), Undisturbed(blocks[..n]),
                    blocks[n].own, blocks[n].own + blocks[n].extra);
      }
    }
  }

  /** An entry is undisturbed exactly when no earlier block has an unlisted variable. */
  lemma {:induction false} UndisturbedIff(blocks: seq<Block>, j: nat)
    requires WordExtras(blocks) && j < |Listed(blocks)|
    ensures j < Undisturbed(blocks) <==> Complete(blocks[..Owner(blocks, j)])
  {
    var n := |blocks| - 1;
    if j < |Listed(blocks[..n])| {
      UndisturbedIff(blocks[..n], j);
      var o := Owner(blocks[..n], j);
      assert blocks[..n][..o] == blocks[..o];
      if Complete(blocks[..n]) {
        assert forall i :: 0 <= i < o ==> blocks[..o][i] == blocks[..n][i];
      }
    } else if !Complete(blocks[..n]) {
      UndisturbedPrefix(blocks[..n]);
    }
  }

  lemma SamePlace(short: seq<Item>, long: seq<Item>, j: nat)
    requires j < |short| <= |long| && long[..|short|] == short
    ensures long[j] == short[j] && StartOf(long, j) == StartOf(short, j) && EndOf(long, j) == EndOf(short, j)
  {
    assert long[..j] == short[..j];
    assert long[j] == short[j];
  }

  lemma {:induction false} BlockShift(items: seq<Item>, declared: seq<Item>, own: seq<Item>, extra: seq<Item>)
    requires AllWords(extra)
    requires Cursor(declared) >= Cursor(items) + 32 || (declared == items && extra != [])
    ensures Cursor(declared + (own + extra)) >= Cursor(items + own) + 32
  {
    assert declared + (own + extra) == declared + own + extra;
    WordsAdvance(declared + own, extra);
    if Cursor(declared) >= Cursor(items) + 32 {
      CursorsApart(items, declared, own);
    }
  }

  lemma {:induction false} CursorsShift(blocks: seq<Block>)
    requires WordExtras(blocks) && !Complete(blocks)
    ensures Cursor(Declared(blocks)) >= Cursor(Listed(blocks)) + 32
  {
    var n := |blocks| - 1;
    CompleteLast(blocks);
    if Complete(blocks[..n]) {
      DeclaredMore(blocks[..n]);
    } else {
      CursorsShift(blocks[..n]);
    }
    BlockShift(Listed(blocks[..n]), Declared(blocks[..n]), blocks[n].own, blocks[n].extra);
  }

  /** The declared variable `k` is the item of entry `j` and starts at the same byte. */
  ghost predicate InPlace(items: seq<Item>, declared: seq<Item>, j: nat, k: nat) {
    j < |items| && k < |declared| && declared[k] == items[j] && k == j && StartOf(declared, k) == StartOf(items, j)
  }

  /** It is that item but starts at least a word later. */
  ghost predicate MovedOn(items: seq<Item>, declared: seq<Item>, j: nat, k: nat) {
    j < |items| && k < |declared| && declared[k] == items[j] && StartOf(declared, k) >= StartOf(items, j) + 32
  }

  /** An entry keeps its place if nothing unlisted comes before it, and is moved on otherwise. */
  lemma {:induction false} Placement(blocks: seq<Block>, j: nat)
    requires WordExtras(blocks) && j < |Listed(blocks)|
    ensures if j < Undisturbed(blocks) then InPlace(Listed(blocks), Declared(blocks), j, Position(blocks, j))
            else MovedOn(Listed(blocks), Declared(blocks), j, Position(blocks, j))
  {
    var n := |blocks| - 1;
    var items, declared := Listed(blocks[..n]), Declared(blocks[..n]);
    var own, extra := blocks[n].own, blocks[n].extra;
    UndisturbedPrefix(blocks[..n]);
    if j < |items| {
      Placement(blocks[..n], j);
      PlacedLonger(items, declared, own, own + extra, j, Position(blocks[..n], j));
    } else if Complete(blocks[..n]) {
      DeclaredMore(blocks[..n]);
      PlacedSame(items, own, extra, j - |items|);
    } else {
      CursorsShift(blocks[..n]);
      PlacedLater(items, declared, own, extra, j - |items|);
    }
  }

  lemma PlacedLonger(items: seq<Item>, declared: seq<Item>, own: seq<Item>, more: seq<Item>, j: nat, k: nat)
    ensures InPlace(items, declared, j, k) ==> InPlace(items + own, declared + more, j, k)
    ensures MovedOn(items, declared, j, k) ==> MovedOn(items + own, declared + more, j, k)
  {
    assert (items + own)[..|items|] == items && (declared + more)[..|declared|] == declared;
    if j < |items| && k < |declared| {
      SamePlace(items, items + own, j);
      SamePlace(declared, declared + more, k);
    }
  }

  lemma PlacedSame(items: seq<Item>, own: seq<Item>, extra: seq<Item>, t: nat)
    requires t < |own|
    ensures InPlace(items + own, items + (own + extra), |items| + t, |items| + t)
  {
    var short, long := items + own, items + (own + extra);
    assert long[..|short|] == short;
    SamePlace(short, long, |items| + t);
  }

  lemma {:induction false} PlacedLater(items: seq<Item>, declared: seq<Item>, own: seq<Item>, extra: seq<Item>, t: nat)
    requires t < |own| && Cursor(declared) >= Cursor(items) + 32
    ensures MovedOn(items + own, declared + (own + extra), |items| + t, |declared| + t)
  {
    var short, long := items + own, declared + (own + extra);
    CursorsApart(items, declared, own[..t]);
    assert short[..|items| + t] == items + own[..t] && long[..|declared| + t] == declared + own[..t];
    LaterByAWord(Cursor(items + own[..t]), Cursor(declared + own[..t]), own[t].shape);
  }
}
