/** What the program gets from Go's sort package: a permutation in which nothing precedes a smaller element,
    and from the stable sort that equal elements stay in place. Callers see only these contracts. */
module Sorting {
  /** `less` is a strict weak ordering, stated through its negation. */
  ghost predicate WeakOrder<T(!new)>(less: (T, T) -> bool) {
    && (forall a, b :: less(a, b) ==> !less(b, a))
    && (forall a, b, c :: !less(a, b) && !less(b, c) ==> !less(a, c))
  }

  ghost predicate Sorted<T>(s: seq<T>, less: (T, T) -> bool) {
    forall i, j :: 0 <= i < j < |s| ==> !less(s[j], s[i])
  }

  /** `r` is `s` in order, equal elements as they were: `from` tells where each element of `r` stood. */
  ghost predicate StablySorted<T>(s: seq<T>, less: (T, T) -> bool, r: seq<T>, from: seq<int>) {
    && |from| == |r| == |s|
    && (forall i :: 0 <= i < |r| ==> 0 <= from[i] < |s| && r[i] == s[from[i]])
    && (forall p :: 0 <= p < |s| ==> p in from)
    && Sorted(r, less)
    && (forall i, j :: 0 <= i < j < |r| && !less(r[i], r[j]) ==> from[i] < from[j])
  }

  lemma StableShape<T>(s: seq<T>, less: (T, T) -> bool, r: seq<T>, from: seq<int>)
    requires StablySorted(s, less, r, from)
    ensures |from| == |r| == |s| && forall p :: 0 <= p < |s| ==> p in from
    ensures forall i :: 0 <= i < |from| ==> 0 <= from[i] < |s| && r[i] == s[from[i]]
  {
  }

  lemma StableDistinct<T(!new)>(s: seq<T>, less: (T, T) -> bool, r: seq<T>, from: seq<int>)
    requires WeakOrder(less) && StablySorted(s, less, r, from)
    ensures forall i, j :: 0 <= i < j < |from| ==> from[i] != from[j]
  {
    forall i, j | 0 <= i < j < |from|
      ensures from[i] != from[j]
    {
      assert less(r[i], r[j]) ==> !less(r[j], r[i]);
    }
  }

  /** Where two stable results agree before i, what stands at i in one stands at i or later in the other. */
  lemma StandsLater<T(!new)>(s: seq<T>, less: (T, T) -> bool, r: seq<T>, from: seq<int>, r': seq<T>, from': seq<int>,
                             i: nat)
    returns (j: nat)
    requires WeakOrder(less) && StablySorted(s, less, r, from) && StablySorted(s, less, r', from')
    requires i < |s| && from[..i] == from'[..i]
    ensures i <= j < |s| && from'[j] == from[i]
  {
    StableDistinct(s, less, r, from);
    assert forall p :: 0 <= p < i ==> from[..i][p] == from[p] && from'[..i][p] == from'[p];
    assert from[i] in from';
    j :| 0 <= j < |s| && from'[j] == from[i];
  }

  /** There is only one stable result. */
  lemma {:induction false} StableUnique<T(!new)>(s: seq<T>, less: (T, T) -> bool, r: seq<T>, from: seq<int>,
                                                 r': seq<T>, from': seq<int>, n: nat)
    requires WeakOrder(less) && StablySorted(s, less, r, from) && StablySorted(s, less, r', from')
    requires n <= |s|
    ensures from[..n] == from'[..n] && r[..n] == r'[..n]
  {
    if n > 0 {
      var i := n - 1;
      StableUnique(s, less, r, from, r', from', i);
      var j := StandsLater(s, less, r, from, r', from', i);
      var k := StandsLater(s, less, r', from', r, from, i);
      assert r[k] == r'[i] && r'[j] == r[i];
      assert j == i || k == i;
      assert from[..n] == from[..i] + [from[i]] && from'[..n] == from'[..i] + [from'[i]];
      assert r[..n] == r[..i] + [r[i]] && r'[..n] == r'[..i] + [r'[i]];
    }
  }

  lemma InsertAtKeepsMultiset<T>(s: seq<T>, i: nat, x: T)
    requires i <= |s|
    ensures multiset(s[..i] + [x] + s[i..]) == multiset(s) + multiset{x}
  {
    assert s == s[..i] + s[i..];
  }

  /** One more element put after those it does not precede and before those that it does. */
  ghost predicate FitsAt<T>(r: seq<T>, less: (T, T) -> bool, x: T, i: nat) {
    && i <= |r|
    && (forall j :: 0 <= j < i ==> !less(x, r[j]))
    && (forall j :: i <= j < |r| ==> less(x, r[j]) && !less(r[j], x))
  }

  /** Where x goes: after every element it does not precede. */
  method PlaceFor<T(!new)>(s: seq<T>, x: T, less: (T, T) -> bool) returns (i: nat)
    requires WeakOrder(less) && Sorted(s, less)
    ensures FitsAt(s, less, x, i)
  {
    i := |s|;
    while i > 0 && less(x, s[i - 1])
      invariant 0 <= i <= |s|
      invariant forall j :: i <= j < |s| ==> less(x, s[j])
    {
      i := i - 1;
    }
    if i > 0 {
      forall j | 0 <= j < i
        ensures !less(x, s[j])
      {
        assert !less(x, s[i - 1]) && (j < i - 1 ==> !less(s[i - 1], s[j]));
      }
    }
  }

  lemma StepCovers(from: seq<int>, n: nat, i: nat)
    requires i <= |from| && forall p :: 0 <= p < n ==> p in from
    ensures forall p :: 0 <= p < n + 1 ==> p in from[..i] + [n] + from[i..]
  {
    assert from == from[..i] + from[i..];
    forall p | 0 <= p < n + 1
      ensures p in from[..i] + [n] + from[i..]
    {
      assert p == n || p in from[..i] + from[i..];
    }
  }

  /** Element k of a list with x put in at i. */
  ghost function With<T>(r: seq<T>, x: T, i: nat, k: nat): T
    requires i <= |r| && k <= |r|
  {
    if k < i then r[k] else if k == i then x else r[k - 1]
  }

  lemma WithAt<T>(r: seq<T>, x: T, i: nat)
    requires i <= |r|
    ensures forall k :: 0 <= k <= |r| ==> (r[..i] + [x] + r[i..])[k] == With(r, x, i, k)
  {
  }

  lemma StepSorted<T>(less: (T, T) -> bool, r: seq<T>, x: T, i: nat)
    requires Sorted(r, less) && FitsAt(r, less, x, i)
    ensures Sorted(r[..i] + [x] + r[i..], less)
  {
    WithAt(r, x, i);
  }

  lemma StepStays<T>(less: (T, T) -> bool, r: seq<T>, from: seq<int>, x: T, n: nat, i: nat)
    requires FitsAt(r, less, x, i) && |from| == |r| && forall k :: 0 <= k < |from| ==> from[k] < n
    requires forall k, l :: 0 <= k < l < |r| && !less(r[k], r[l]) ==> from[k] < from[l]
    ensures var r', from' := r[..i] + [x] + r[i..], from[..i] + [n] + from[i..];
            forall k, l :: 0 <= k < l < |r'| && !less(r'[k], r'[l]) ==> from'[k] < from'[l]
  {
    WithAt(r, x, i);
    WithAt(from, n, i);
  }

  lemma StableStep<T(!new)>(s: seq<T>, less: (T, T) -> bool, r: seq<T>, from: seq<int>, x: T, i: nat)
    requires StablySorted(s, less, r, from) && FitsAt(r, less, x, i)
    ensures StablySorted(s + [x], less, r[..i] + [x] + r[i..], from[..i] + [|s|] + from[i..])
  {
    StepCovers(from, |s|, i);
    StepSorted(less, r, x, i);
    StepStays(less, r, from, x, |s|, i);
    WithAt(r, x, i);
    WithAt(from, |s|, i);
    hide Sorted;
    hide FitsAt;
  }

  lemma StableIsSorted<T>(s: seq<T>, less: (T, T) -> bool, r: seq<T>, from: seq<int>)
    requires StablySorted(s, less, r, from)
    ensures Sorted(r, less)
  {
  }

  method SortSliceStable<T(!new)>(s: seq<T>, less: (T, T) -> bool) returns (r: seq<T>, ghost from: seq<int>)
    requires WeakOrder(less)
    ensures StablySorted(s, less, r, from)
    ensures multiset(r) == multiset(s)
  {
    r, from := [], [];
    assert StablySorted(s[..0], less, r, from);
    hide WeakOrder;
    hide StablySorted;
    hide FitsAt;
    for n := 0 to |s|
      invariant StablySorted(s[..n], less, r, from)
      invariant multiset(r) == multiset(s[..n])
    {
      StableIsSorted(s[..n], less, r, from);
      var i := PlaceFor(r, s[n], less);
      StableStep(s[..n], less, r, from, s[n], i);
      InsertAtKeepsMultiset(r, i, s[n]);
      r, from := r[..i] + [s[n]] + r[i..], from[..i] + [n] + from[i..];
      assert s[..n + 1] == s[..n] + [s[n]];
    }
    assert s[..|s|] == s;
  }

  /** The sort that promises nothing about equal elements. */
  method SortSlice<T(!new)>(s: seq<T>, less: (T, T) -> bool) returns (r: seq<T>)
    requires WeakOrder(less)
    ensures Sorted(r, less)
    ensures multiset(r) == multiset(s)
  {
    ghost var from;
    r, from := SortSliceStable(s, less);
  }
}
