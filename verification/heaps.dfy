/** The two candidate heaps of internal/index/hnsw.go, as container/heap drives them. */
module Heaps {
  datatype Candidate = Candidate(id: int, similarity: real)

  function Swap<T>(s: seq<T>, i: nat, j: nat): (r: seq<T>)
    requires i < |s| && j < |s|
    ensures |r| == |s| && r[i] == s[j] && r[j] == s[i]
    ensures forall k :: 0 <= k < |s| && k != i && k != j ==> r[k] == s[k]
    ensures multiset(r) == multiset(s)
  {
    s[i := s[j]][j := s[i]]
  }

  predicate ChildOf(k: int, p: int) {
    k == 2 * p + 1 || k == 2 * p + 2
  }

  /** A binary heap; `largestFirst` tells the program's max-heap from its min-heap. */
  class CandidateHeap {
    const largestFirst: bool
    var items: seq<Candidate>

    predicate Less(a: Candidate, b: Candidate) {
      if largestFirst then a.similarity > b.similarity else a.similarity < b.similarity
    }

    /** No element precedes its parent, the pairs below `skip` excepted. */
    ghost predicate HeapBut(s: seq<Candidate>, skip: int) {
      forall k, p :: 0 <= p < k < |s| && ChildOf(k, p) && p != skip ==> !Less(s[k], s[p])
    }

    /** No element precedes its parent, the element at `skip` excepted. */
    ghost predicate HeapAbove(s: seq<Candidate>, skip: int) {
      forall k, p :: 0 <= p < k < |s| && ChildOf(k, p) && k != skip ==> !Less(s[k], s[p])
    }

    ghost predicate IsHeap(s: seq<Candidate>) {
      forall k, p :: 0 <= p < k < |s| && ChildOf(k, p) ==> !Less(s[k], s[p])
    }

    /** The children of `j` do not precede the parent of `j`. */
    ghost predicate Bridged(s: seq<Candidate>, j: int) {
      forall k, p :: 0 <= p < j < k < |s| && ChildOf(k, j) && ChildOf(j, p) ==> !Less(s[k], s[p])
    }

    ghost predicate Valid()
      reads this
    {
      IsHeap(items)
    }

    ghost function Contents(): multiset<Candidate>
      reads this
    {
      multiset(items)
    }

    constructor (largestFirst: bool, first: Candidate)
      ensures Valid() && this.largestFirst == largestFirst
      ensures items == [first]
    {
      this.largestFirst := largestFirst;
      items := [first];
    }

    /** The root precedes every element. */
    lemma {:induction false} RootIsExtremal(s: seq<Candidate>, i: nat)
      requires IsHeap(s) && i < |s|
      ensures !Less(s[i], s[0])
    {
      if i > 0 {
        assert ChildOf(i, (i - 1) / 2);
        RootIsExtremal(s, (i - 1) / 2);
      }
    }

    /** Moves the last element up to its place. */
    method SiftUp(s: seq<Candidate>) returns (t: seq<Candidate>)
      requires |s| > 0 && IsHeap(s[..|s| - 1])
      ensures IsHeap(t) && multiset(t) == multiset(s)
    {
      t := s;
      var j := |s| - 1;
      assert HeapAbove(t, j) by {
        assert forall i :: 0 <= i < j ==> t[i] == s[..j][i];
      }
      while j > 0 && Less(t[j], t[(j - 1) / 2])
        invariant 0 <= j < |t| == |s|
        invariant multiset(t) == multiset(s)
        invariant HeapAbove(t, j) && Bridged(t, j)
      {
        var parent := (j - 1) / 2;
        assert ChildOf(j, parent);
        t := Swap(t, parent, j);
        j := parent;
      }
    }

    /** One step down: `child` is the child of `i` that precedes the other and `i` itself. */
    lemma DownStep(s: seq<Candidate>, i: nat, child: nat)
      requires i < child < |s| && ChildOf(child, i)
      requires HeapBut(s, i) && Bridged(s, i)
      requires Less(s[child], s[i])
      requires forall k :: i < k < |s| && ChildOf(k, i) ==> !Less(s[k], s[child])
      ensures HeapBut(Swap(s, i, child), child) && Bridged(Swap(s, i, child), child)
    {
      var t := Swap(s, i, child);
      forall k, p | 0 <= p < k < |t| && ChildOf(k, p) && p != child
        ensures !Less(t[k], t[p])
      {
        if p == i {
          assert k == child || t[k] == s[k];
        } else if k == i {
          assert !Less(s[child], s[p]);
        } else {
          assert t[k] == s[k] && t[p] == s[p];
        }
      }
    }

    /** Moves the first element down to its place. */
    method SiftDown(s: seq<Candidate>) returns (t: seq<Candidate>)
      requires HeapBut(s, 0)
      ensures IsHeap(t) && multiset(t) == multiset(s)
    {
      t := s;
      var i := 0;
      while 2 * i + 1 < |t|
        invariant 0 <= i && |t| == |s|
        invariant multiset(t) == multiset(s)
        invariant HeapBut(t, i) && Bridged(t, i)
        decreases |t| - i
      {
        var child := 2 * i + 1;
        if child + 1 < |t| && Less(t[child + 1], t[child]) {
          child := child + 1;
        }
        if !Less(t[child], t[i]) {
          return;
        }
        DownStep(t, i, child);
        t := Swap(t, i, child);
        i := child;
      }
    }

    method Push(c: Candidate)
      requires Valid()
      modifies this
      ensures Valid()
      ensures Contents() == old(Contents()) + multiset{c}
    {
      var s := items + [c];
      assert s[..|s| - 1] == items;
      items := SiftUp(s);
    }

    /** Removes some extremal element; which one, on ties, is left open. */
    method Pop() returns (c: Candidate)
      requires Valid() && |items| > 0
      modifies this
      ensures Valid()
      ensures c in old(Contents()) && Contents() == old(Contents()) - multiset{c}
      ensures |items| == old(|items|) - 1
      ensures forall x :: x in old(Contents()) ==> !Less(x, c)
    {
      var n := |items| - 1;
      forall x | x in items
        ensures !Less(x, items[0])
      {
        var i :| 0 <= i < |items| && items[i] == x;
        RootIsExtremal(items, i);
      }
      var s := Swap(items, 0, n);
      c := s[n];
      assert s == s[..n] + [c];
      items := SiftDown(s[..n]);
      assert |multiset(items)| == n;
    }

    /** The element the program reads as (*h)[0]. */
    method Peek() returns (c: Candidate)
      requires Valid() && |items| > 0
      ensures c == items[0] && c in Contents()
      ensures forall x :: x in Contents() ==> !Less(x, c)
    {
      c := items[0];
      forall x | x in items
        ensures !Less(x, items[0])
      {
        var i :| 0 <= i < |items| && items[i] == x;
        RootIsExtremal(items, i);
      }
    }
  }
}
