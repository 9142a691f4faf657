/** Exact top-k answers: the specification that the linear scan, the graph search and the
    coordinator's merge are all held to. */
module TopK {
  import opened Permutations

  /** A scored answer; the payload is the text of an index hit or the article of a shard hit. */
  datatype Hit<P> = Hit(id: string, payload: P, score: real)

  ghost predicate Descending<P>(s: seq<Hit<P>>) {
    forall i, j :: 0 <= i < j < |s| ==> s[i].score >= s[j].score
  }

  /** `out` holds min(k, n) of the n hits of `universe`, best first, and no hit left out beats one
      that is in. */
  ghost predicate IsTopK<P(!new)>(universe: multiset<Hit<P>>, out: seq<Hit<P>>, k: nat) {
    && multiset(out) <= universe
    && |out| == Min(k, |universe|)
    && Descending(out)
    && forall h, o :: h in universe - multiset(out) && o in out ==> h.score <= o.score
  }

  ghost function Scores<P>(s: seq<Hit<P>>): (r: seq<real>)
    ensures |r| == |s| && forall i :: 0 <= i < |s| ==> r[i] == s[i].score
  {
    seq(|s|, i requires 0 <= i < |s| => s[i].score)
  }

  lemma SubMultisetSize<T>(a: multiset<T>, b: multiset<T>)
    requires a <= b
    ensures |a| <= |b|
  {
    assert b == a + (b - a);
  }

  lemma SplitMultiset<T>(s: seq<T>, i: nat)
    requires i <= |s|
    ensures multiset(s) == multiset(s[..i]) + multiset(s[i..])
  {
    assert s == s[..i] + s[i..];
  }

  /** A hit that beats position i of an exact answer has all its copies before position i. */
  lemma BetterHitsComeFirst<P(!new)>(universe: multiset<Hit<P>>, b: seq<Hit<P>>, k: nat, i: nat, h: Hit<P>)
    requires IsTopK(universe, b, k)
    requires i < |b| && h.score > b[i].score
    ensures universe[h] <= multiset(b[..i])[h]
  {
    SplitMultiset(b, i);
    assert h !in b[i..];
    assert b[i] in b;
    assert h !in universe - multiset(b);
  }

  lemma PrefixCount<P(!new)>(universe: multiset<Hit<P>>, a: seq<Hit<P>>, i: nat, h: Hit<P>)
    requires multiset(a) <= universe && i <= |a|
    ensures multiset(a[..i])[h] <= universe[h]
  {
    SplitMultiset(a, i);
  }

  /** No answer can hold a better score at a position than an exact top-k does. */
  lemma NoneBetter<P(!new)>(universe: multiset<Hit<P>>, a: seq<Hit<P>>, b: seq<Hit<P>>, k: nat, i: nat)
    requires IsTopK(universe, b, k)
    requires multiset(a) <= universe && Descending(a)
    requires i < |a| && i < |b|
    ensures a[i].score <= b[i].score
  {
    hide IsTopK;
    if a[i].score > b[i].score {
      var front := a[..i + 1];
      forall h | h in front
        ensures multiset(front)[h] <= multiset(b[..i])[h]
      {
        var j :| 0 <= j < i + 1 && front[j] == h;
        assert a[j] == h && a[j].score >= a[i].score;
        BetterHitsComeFirst(universe, b, k, i, h);
        PrefixCount(universe, a, i + 1, h);
      }
      TooMany(front, b[..i]);
    }
  }

  lemma TooMany<T>(a: seq<T>, b: seq<T>)
    requires forall x :: x in a ==> multiset(a)[x] <= multiset(b)[x]
    ensures |a| <= |b|
  {
    forall x
      ensures multiset(a)[x] <= multiset(b)[x]
    {
      assert x !in a ==> multiset(a)[x] == 0;
    }
    SubMultisetSize(multiset(a), multiset(b));
  }

  /** Exact top-k answers of the same hits have the same scores, position by position. */
  lemma TopKScoresUnique<P(!new)>(universe: multiset<Hit<P>>, a: seq<Hit<P>>, b: seq<Hit<P>>, k: nat)
    requires IsTopK(universe, a, k) && IsTopK(universe, b, k)
    ensures Scores(a) == Scores(b)
  {
    forall i | 0 <= i < |a|
      ensures a[i].score == b[i].score
    {
      NoneBetter(universe, a, b, k, i);
      NoneBetter(universe, b, a, k, i);
    }
  }

  ghost predicate DistinctScores<P(!new)>(universe: multiset<Hit<P>>) {
    forall g, h :: g in universe && h in universe && g.score == h.score ==> g == h
  }

  /** Without ties there is only one exact answer. */
  lemma TopKUnique<P(!new)>(universe: multiset<Hit<P>>, a: seq<Hit<P>>, b: seq<Hit<P>>, k: nat)
    requires IsTopK(universe, a, k) && IsTopK(universe, b, k)
    requires DistinctScores(universe)
    ensures a == b
  {
    TopKScoresUnique(universe, a, b, k);
    forall i | 0 <= i < |a|
      ensures a[i] == b[i]
    {
      assert Scores(a)[i] == Scores(b)[i];
      assert a[i] in multiset(a) && b[i] in multiset(b);
    }
  }

  /** A sorted list of the right length is a top-k once nothing in the rest beats anything in it. */
  lemma SplitIsTopK<P(!new)>(out: seq<Hit<P>>, rest: seq<Hit<P>>, k: nat)
    requires Descending(out) && |out| == Min(k, |out| + |rest|)
    requires forall i, j :: 0 <= i < |rest| && 0 <= j < |out| ==> rest[i].score <= out[j].score
    ensures IsTopK(multiset(out + rest), out, k)
  {
    var universe := multiset(out + rest);
    assert universe == multiset(out) + multiset(rest);
    assert universe - multiset(out) == multiset(rest);
    assert |universe| == |out| + |rest|;
  }

  /** Cutting a sorted list of all hits after k gives an exact top-k. */
  lemma PrefixIsTopK<P(!new)>(full: seq<Hit<P>>, k: nat)
    requires Descending(full)
    ensures IsTopK(multiset(full), full[..Min(k, |full|)], k)
  {
    var n := Min(k, |full|);
    assert full == full[..n] + full[n..];
    SplitIsTopK(full[..n], full[n..], k);
  }

  ghost function SeqOf<T(!new)>(m: multiset<T>): (s: seq<T>)
    ensures multiset(s) == m
  {
    if m == multiset{} then []
    else
      var x :| x in m;
      [x] + SeqOf(m - multiset{x})
  }

  /** f rewrites a hit into one hit of the same score. */
  ghost predicate KeepsScore<P, Q>(f: Hit<P> -> seq<Hit<Q>>, h: Hit<P>) {
    |f(h)| == 1 && f(h)[0].score == h.score
  }

  lemma {:induction false} RewrittenOneByOne<P, Q>(f: Hit<P> -> seq<Hit<Q>>, s: seq<Hit<P>>)
    requires forall h :: h in s ==> KeepsScore(f, h)
    ensures |FlatMap(f, s)| == |s|
    ensures forall i :: 0 <= i < |s| ==> f(s[i]) == [FlatMap(f, s)[i]] && FlatMap(f, s)[i].score == s[i].score
  {
    if s != [] {
      assert s[0] in s;
      RewrittenOneByOne(f, s[1..]);
    }
  }

  /** Two lists stay split as they were when each hit is replaced by one of the same score. */
  lemma SplitStaysTopK<P(!new), Q(!new)>(out: seq<Hit<P>>, rest: seq<Hit<P>>, out': seq<Hit<Q>>, rest': seq<Hit<Q>>,
                                         k: nat)
    requires |out'| == |out| == Min(k, |out| + |rest|) && |rest'| == |rest| && Descending(out)
    requires forall i :: 0 <= i < |out| ==> out'[i].score == out[i].score
    requires forall i :: 0 <= i < |rest| ==> rest'[i].score == rest[i].score
    requires forall i, j :: 0 <= i < |rest| && 0 <= j < |out| ==> rest[i].score <= out[j].score
    ensures IsTopK(multiset(out' + rest'), out', k)
  {
    hide IsTopK;
    SplitIsTopK(out', rest', k);
  }

  /** Rewriting hits without touching their scores turns an exact top-k into an exact top-k. */
  lemma TopKRewritten<P(!new), Q(!new)>(f: Hit<P> -> seq<Hit<Q>>, universe: seq<Hit<P>>, out: seq<Hit<P>>, k: nat)
    requires IsTopK(multiset(universe), out, k)
    requires forall h :: h in universe ==> KeepsScore(f, h)
    ensures IsTopK(multiset(FlatMap(f, universe)), FlatMap(f, out), k)
  {
    hide IsTopK;
    hide FlatMap;
    hide KeepsScore;
    hide Descending;
    var rest := SeqOf(multiset(universe) - multiset(out));
    RestIsNoBetter(universe, out, rest, k);
    FlatMapPermutation(f, universe, out + rest);
    FlatMapConcat(f, out, rest);
    RewrittenParts(f, universe, out, rest);
    SplitStaysTopK(out, rest, FlatMap(f, out), FlatMap(f, rest), k);
  }

  lemma RewrittenParts<P(!new), Q(!new)>(f: Hit<P> -> seq<Hit<Q>>, universe: seq<Hit<P>>, out: seq<Hit<P>>,
                                         rest: seq<Hit<P>>)
    requires multiset(universe) == multiset(out + rest)
    requires forall h :: h in universe ==> KeepsScore(f, h)
    ensures |FlatMap(f, out)| == |out| && |FlatMap(f, rest)| == |rest|
    ensures forall i :: 0 <= i < |out| ==> FlatMap(f, out)[i].score == out[i].score
    ensures forall i :: 0 <= i < |rest| ==> FlatMap(f, rest)[i].score == rest[i].score
  {
    forall h | h in out || h in rest
      ensures h in universe
    {
      assert h in out + rest;
      assert h in multiset(universe);
    }
    RewrittenOneByOne(f, out);
    RewrittenOneByOne(f, rest);
  }

  lemma RestIsNoBetter<P(!new)>(universe: seq<Hit<P>>, out: seq<Hit<P>>, rest: seq<Hit<P>>, k: nat)
    requires IsTopK(multiset(universe), out, k) && multiset(rest) == multiset(universe) - multiset(out)
    ensures forall i, j :: 0 <= i < |rest| && 0 <= j < |out| ==> rest[i].score <= out[j].score
    ensures |out| == Min(k, |out| + |rest|) && Descending(out)
    ensures multiset(out + rest) == multiset(universe)
  {
    forall i, j | 0 <= i < |rest| && 0 <= j < |out|
      ensures rest[i].score <= out[j].score
    {
      assert rest[i] in multiset(rest) && out[j] in out;
    }
    assert |multiset(rest)| == |multiset(universe)| - |multiset(out)|;
  }
}
