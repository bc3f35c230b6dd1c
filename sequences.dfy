/** Positional operations on sequences: the abstract effect of the queue's
    array shifts, and the first-occurrence search of its linear scans. */
module Sequences {

  /** `s` with `x` placed at index `p`; what shifting the tail right does. */
  function Insert<T>(s: seq<T>, p: nat, x: T): (r: seq<T>)
    requires p <= |s|
    ensures |r| == |s| + 1
    ensures multiset(r) == multiset(s) + multiset{x}
  {
    assert s == s[..p] + s[p..];
    s[..p] + [x] + s[p..]
  }

  /** Where each element of `s` ends up after `Insert`. */
  lemma InsertIndexing<T>(s: seq<T>, p: nat, x: T)
    requires p <= |s|
    ensures Insert(s, p, x)[p] == x
    ensures forall i :: 0 <= i < p ==> Insert(s, p, x)[i] == s[i]
    ensures forall i :: p < i <= |s| ==> Insert(s, p, x)[i] == s[i - 1]
  {
  }

  /** `s` without the element at index `p`; what shifting the tail left does. */
  function Delete<T>(s: seq<T>, p: nat): (r: seq<T>)
    requires p < |s|
    ensures |r| == |s| - 1
    ensures multiset(r) == multiset(s) - multiset{s[p]}
  {
    assert s == s[..p] + [s[p]] + s[p + 1..];
    s[..p] + s[p + 1..]
  }

  /** Where each remaining element of `s` ends up after `Delete`. */
  lemma DeleteIndexing<T>(s: seq<T>, p: nat)
    requires p < |s|
    ensures forall i :: 0 <= i < p ==> Delete(s, p)[i] == s[i]
    ensures forall i :: p <= i < |s| - 1 ==> Delete(s, p)[i] == s[i + 1]
  {
  }

  /** Index of the first occurrence of `x` in `s`, or `|s|` if there is none. */
  function IndexOf<T(==)>(s: seq<T>, x: T): (r: nat)
    ensures r <= |s|
    ensures r < |s| <==> x in s
    ensures r < |s| ==> s[r] == x
    ensures forall j :: 0 <= j < r ==> s[j] != x
  {
    if s == [] then 0
    else if s[0] == x then 0
    else 1 + IndexOf(s[1..], x)
  }

  /** `s` without the first occurrence of `x`: exactly one copy of `x`
      leaves the multiset of elements, none when `x` is absent. */
  function RemoveFirst<T(==)>(s: seq<T>, x: T): (r: seq<T>)
    ensures multiset(r) == multiset(s) - multiset{x}
  {
    if s == [] then []
    else if s[0] == x then
      assert s == [s[0]] + s[1..];
      s[1..]
    else
      assert s == [s[0]] + s[1..];
      [s[0]] + RemoveFirst(s[1..], x)
  }

  /** Removing the first occurrence is deleting at the index `IndexOf` finds. */
  lemma {:induction false} RemoveFirstDeletesIndexOf<T>(s: seq<T>, x: T)
    requires x in s
    ensures RemoveFirst(s, x) == Delete(s, IndexOf(s, x))
  {
    if s[0] == x {
      assert IndexOf(s, x) == 0 && RemoveFirst(s, x) == s[1..];
      assert s[..0] == [];
      assert Delete(s, 0) == [] + s[1..];
    } else {
      RemoveFirstDeletesIndexOf(s[1..], x);
      assert IndexOf(s, x) == IndexOf(s[1..], x) + 1;
      assert RemoveFirst(s, x) == [s[0]] + RemoveFirst(s[1..], x);
      DeleteBehindHead(s, IndexOf(s[1..], x));
    }
  }

  /** Deleting behind the head of `s` is deleting in its tail. */
  lemma DeleteBehindHead<T>(s: seq<T>, k: nat)
    requires k + 1 < |s|
    ensures Delete(s, k + 1) == [s[0]] + Delete(s[1..], k)
  {
    assert s[..k + 1] == [s[0]] + s[1..][..k];
  }

  /** Without an occurrence there is nothing to remove. */
  lemma {:induction false} RemoveFirstAbsent<T>(s: seq<T>, x: T)
    requires x !in s
    ensures RemoveFirst(s, x) == s
  {
    if s != [] {
      assert x !in s[1..];
      RemoveFirstAbsent(s[1..], x);
    }
  }

  /** The first occurrence of `x` lies just after a prefix that lacks `x`. */
  lemma {:induction false} IndexOfAfterPrefix<T>(a: seq<T>, x: T, b: seq<T>)
    requires x !in a
    ensures IndexOf(a + [x] + b, x) == |a|
  {
    var s := a + [x] + b;
    assert s[|a|] == x;
    assert forall j :: 0 <= j < |a| ==> s[j] == a[j];
  }
}
