/** Lists without repeats, and what rearranging a list keeps. */
module Sequences {

  ghost predicate Distinct<T>(s: seq<T>) {
    forall i, j :: 0 <= i < j < |s| ==> s[i] != s[j]
  }

  ghost function Elems<T>(s: seq<T>): set<T> {
    set x | x in s
  }

  ghost predicate SameElements<T(!new)>(s: seq<T>, t: seq<T>) {
    forall x :: x in s <==> x in t
  }

  lemma PermutationDistinct<T(!new)>(s: seq<T>, t: seq<T>)
    requires multiset(s) == multiset(t) && Distinct(s)
    ensures Distinct(t) && SameElements(s, t) && |s| == |t|
  {
    forall x
      ensures x in s <==> x in t
    {
      assert x in s <==> x in multiset(s);
      assert x in t <==> x in multiset(t);
    }
    assert |s| == |multiset(s)| && |t| == |multiset(t)|;
    forall i, j | 0 <= i < j < |t|
      ensures t[i] != t[j]
    {
      if t[i] == t[j] {
        CountTwice(t, i, j);
        CountOnce(s, t[i]);
      }
    }
  }

  lemma CountTwice<T>(t: seq<T>, i: nat, j: nat)
    requires i < j < |t| && t[i] == t[j]
    ensures multiset(t)[t[i]] >= 2
  {
    assert t == t[..i] + [t[i]] + t[i + 1..j] + [t[j]] + t[j + 1..];
  }

  lemma {:induction false} CountOnce<T>(s: seq<T>, x: T)
    requires Distinct(s)
    ensures multiset(s)[x] <= 1
  {
    if s != [] {
      CountOnce(s[1..], x);
      assert s == [s[0]] + s[1..];
      if s[0] == x {
        assert x !in s[1..];
      }
    }
  }

  lemma Associative<T>(a: seq<T>, b: seq<T>, c: seq<T>)
    ensures a + (b + c) == (a + b) + c
  {
  }

  lemma TailOfSum<T>(a: seq<T>, b: seq<T>)
    requires a != []
    ensures (a + b)[0] == a[0] && (a + b)[1..] == a[1..] + b
  {
  }

  lemma WithoutLast<T(!new)>(s: seq<T>)
    requires Distinct(s) && s != []
    ensures Distinct(s[..|s| - 1])
    ensures forall x :: x in s[..|s| - 1] <==> x in s && x != s[|s| - 1]
  {
    var n := |s| - 1;
    forall x
      ensures x in s[..n] <==> x in s && x != s[n]
    {
      if x in s[..n] {
        var i :| 0 <= i < n && s[..n][i] == x;
        assert s[i] == x;
      }
    }
  }

  /** A list without repeats inside a set is as long as the set exactly when it covers it. */
  lemma {:induction false} DistinctLength<T(!new)>(s: seq<T>, S: set<T>)
    requires Distinct(s) && forall x :: x in s ==> x in S
    ensures |s| <= |S|
    ensures |s| == |S| <==> forall x :: x in S ==> x in s
    decreases |s|
  {
    if s == [] {
      if S != {} {
        var x :| x in S;
      }
    } else {
      var n := |s| - 1;
      assert s == s[..n] + [s[n]];
      DistinctLength(s[..n], S - {s[n]});
    }
  }

  /** The last position of each element, as collected into a hash map. */
  function LastIndex<T(==)>(s: seq<T>): (m: map<T, nat>)
    ensures forall x :: x in m ==> m[x] < |s| && s[m[x]] == x
    ensures forall j :: 0 <= j < |s| ==> s[j] in m && j <= m[s[j]]
  {
    if s == [] then map[]
    else
      var n := |s| - 1;
      LastIndex(s[..n])[s[n] := n]
  }

  /** `order` lists each of `0..n` once. */
  ghost predicate IsPermutation(n: nat, order: seq<nat>) {
    Distinct(order) && forall i: nat :: i in order <==> i < n
  }

  function DeclarationOrder(n: nat): (r: seq<nat>)
    ensures |r| == n && forall i :: 0 <= i < n ==> r[i] == i
  {
    seq(n, i => i)
  }

  /** Every element stands in relation `R` to every later one, and not the other way round. */
  ghost predicate Ranked<T(!new)>(R: (T, T) -> bool, s: seq<T>) {
    forall i, j :: 0 <= i < j < |s| ==> R(s[i], s[j]) && !R(s[j], s[i])
  }

  lemma RankedTail<T(!new)>(R: (T, T) -> bool, s: seq<T>)
    requires Ranked(R, s) && s != []
    ensures Ranked(R, s[1..]) && s[0] !in s[1..]
    ensures forall x :: x in s <==> x == s[0] || x in s[1..]
  {
    assert s == [s[0]] + s[1..];
    assert forall j :: 0 < j < |s| ==> s[j] != s[0];
  }

  lemma NoElements<T(!new)>(s: seq<T>)
    ensures s == [] <==> forall x :: x !in s
  {
    if s != [] {
      assert s[0] in s;
    }
  }

  /** Two lists of the same elements that are ranked alike are equal. */
  lemma {:induction false} RankedUnique<T(!new)>(R: (T, T) -> bool, a: seq<T>, b: seq<T>)
    requires Ranked(R, a) && Ranked(R, b) && SameElements(a, b)
    ensures a == b
    decreases |a|
  {
    NoElements(b);
    if a != [] {
      assert a[0] in b && b != [];
      assert b[0] in a;
      RankedTail(R, a);
      RankedTail(R, b);
      assert a[0] == b[0];
      RankedUnique(R, a[1..], b[1..]);
      assert a == [a[0]] + a[1..] && b == [b[0]] + b[1..];
    }
  }
}
