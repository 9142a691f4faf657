/** Facts about lists in another order. */
module Permutations {
  function Min(a: int, b: int): int { if a <= b then a else b }

  lemma CountsTwice<T>(s: seq<T>, i: nat, j: nat)
    requires i < j < |s|
    ensures s[i] == s[j] ==> multiset(s)[s[i]] >= 2
  {
    assert s == s[..i] + [s[i]] + s[i + 1..j] + [s[j]] + s[j + 1..];
  }

  lemma PickOut<T>(a: seq<T>, b: seq<T>) returns (j: nat)
    requires a != [] && multiset(a) == multiset(b)
    ensures j < |b| && b[j] == a[0]
    ensures multiset(a[1..]) == multiset(b[..j] + b[j + 1..])
  {
    assert a[0] in multiset(b);
    j :| 0 <= j < |b| && b[j] == a[0];
    assert a == [a[0]] + a[1..];
    assert b == b[..j] + [b[j]] + b[j + 1..];
    assert multiset(a[1..]) == multiset(a) - multiset{a[0]};
    assert multiset(b[..j] + b[j + 1..]) == multiset(b) - multiset{b[j]};
  }

  /** The concatenation of f over a list; f may drop an element by giving []. */
  ghost function FlatMap<T, U>(f: T -> seq<U>, s: seq<T>): seq<U> {
    if s == [] then [] else f(s[0]) + FlatMap(f, s[1..])
  }

  lemma {:induction false} FlatMapConcat<T, U>(f: T -> seq<U>, a: seq<T>, b: seq<T>)
    ensures FlatMap(f, a + b) == FlatMap(f, a) + FlatMap(f, b)
  {
    if a == [] {
      assert a + b == b;
    } else {
      assert (a + b)[1..] == a[1..] + b;
      FlatMapConcat(f, a[1..], b);
    }
  }

  lemma FlatMapOne<T, U>(f: T -> seq<U>, x: T)
    ensures FlatMap(f, [x]) == f(x)
  {
    assert [x][1..] == [];
    assert FlatMap(f, [x][1..]) == [];
  }

  lemma MultisetSwap<U>(a: seq<U>, x: seq<U>, b: seq<U>)
    ensures multiset(a + (x + b)) == multiset(x) + multiset(a + b)
  {
  }

  lemma FlatMapAround<T, U>(f: T -> seq<U>, front: seq<T>, x: T, back: seq<T>)
    ensures multiset(FlatMap(f, front + [x] + back)) == multiset(f(x)) + multiset(FlatMap(f, front + back))
  {
    FlatMapConcat(f, front, back);
    FlatMapConcat(f, front, [x] + back);
    assert front + [x] + back == front + ([x] + back);
    assert FlatMap(f, [x] + back) == f(x) + FlatMap(f, back) by {
      assert ([x] + back)[1..] == back;
    }
    MultisetSwap(FlatMap(f, front), f(x), FlatMap(f, back));
  }

  lemma {:induction false} FlatMapPermutation<T, U>(f: T -> seq<U>, a: seq<T>, b: seq<T>)
    requires multiset(a) == multiset(b)
    ensures multiset(FlatMap(f, a)) == multiset(FlatMap(f, b))
    decreases |a|
  {
    if a == [] {
      assert |multiset(b)| == 0;
    } else {
      var j := PickOut(a, b);
      FlatMapPermutation(f, a[1..], b[..j] + b[j + 1..]);
      FlatMapAround(f, b[..j], b[j], b[j + 1..]);
      assert b == b[..j] + [b[j]] + b[j + 1..];
    }
  }
}
