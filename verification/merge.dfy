/** The coordinator's merge of per-shard answers (internal/coordinator/coordinator.go). */
module Merge {
  import opened NodeSpec
  import opened Permutations
  import opened Sorting
  import opened TopK

  // ---------- Ids in order ----------

  /** Strings by code point, a proper prefix first. */
  predicate StringLess(a: string, b: string) {
    if b == "" then false
    else if a == "" then true
    else if a[0] != b[0] then a[0] < b[0]
    else StringLess(a[1..], b[1..])
  }

  lemma {:induction false} StringLessAsymmetric(a: string, b: string)
    ensures !(StringLess(a, b) && StringLess(b, a))
    decreases |a|
  {
    if a != "" && b != "" && a[0] == b[0] {
      StringLessAsymmetric(a[1..], b[1..]);
    }
  }

  lemma {:induction false} StringLessTotal(a: string, b: string)
    ensures StringLess(a, b) || StringLess(b, a) || a == b
    decreases |a|
  {
    if a != "" && b != "" && a[0] == b[0] {
      StringLessTotal(a[1..], b[1..]);
      assert a == [a[0]] + a[1..] && b == [b[0]] + b[1..];
    }
  }

  lemma {:induction false} StringLessNegTransitive(a: string, b: string, c: string)
    requires !StringLess(a, b) && !StringLess(b, c)
    ensures !StringLess(a, c)
    decreases |a|
  {
    if a != "" && b != "" && c != "" && a[0] == b[0] == c[0] {
      StringLessNegTransitive(a[1..], b[1..], c[1..]);
    }
  }

  /** a and b agree up to n, where a ends or has the smaller character. */
  ghost predicate PartAt(a: string, b: string, n: nat) {
    n <= |a| && n < |b| && a[..n] == b[..n] && (n == |a| || a[n] < b[n])
  }

  /** a comes before b in a dictionary. */
  ghost predicate AheadOf(a: string, b: string) {
    exists n: nat :: PartAt(a, b, n)
  }

  lemma PartAtTail(a: string, b: string, n: nat)
    requires a != "" && b != "" && a[0] == b[0]
    ensures PartAt(a, b, n + 1) <==> PartAt(a[1..], b[1..], n)
    ensures !PartAt(a, b, 0)
  {
    if n < |a| && n < |b| {
      assert a[1..][..n] == a[..n + 1][1..] && b[1..][..n] == b[..n + 1][1..];
      assert a[..n + 1] == [a[0]] + a[1..][..n] && b[..n + 1] == [b[0]] + b[1..][..n];
    }
  }

  /** The comparison is dictionary order. */
  lemma {:induction false} StringLessExactly(a: string, b: string)
    ensures StringLess(a, b) <==>
            exists n: nat :: n <= |a| && n < |b| && a[..n] == b[..n] && (n == |a| || a[n] < b[n])
    ensures StringLess(a, b) <==> AheadOf(a, b)
    decreases |a|
  {
    if a == "" || b == "" || a[0] != b[0] {
      assert forall n: nat :: 0 < n <= |a| && n < |b| ==> a[0] == a[..n][0] && b[0] == b[..n][0];
      assert StringLess(a, b) ==> PartAt(a, b, 0);
    } else {
      StringLessExactly(a[1..], b[1..]);
      PartAtTail(a, b, 0);
      if n: nat :| PartAt(a, b, n) {
        PartAtTail(a, b, n - 1);
      }
      if n: nat :| PartAt(a[1..], b[1..], n) {
        PartAtTail(a, b, n);
      }
      assert AheadOf(a, b) <==> AheadOf(a[1..], b[1..]);
    }
    assert AheadOf(a, b) <==>
           exists n: nat :: n <= |a| && n < |b| && a[..n] == b[..n] && (n == |a| || a[n] < b[n]) by {
      assert forall n: nat :: PartAt(a, b, n) <==>
                              n <= |a| && n < |b| && a[..n] == b[..n] && (n == |a| || a[n] < b[n]);
    }
  }

  // ---------- The merge ----------

  /** Better score first, then the smaller id. */
  predicate Precedes(a: ArticleHit, b: ArticleHit) {
    if a.score == b.score then StringLess(a.id, b.id) else a.score > b.score
  }

  lemma PrecedesIsWeakOrder()
    ensures WeakOrder<ArticleHit>(Precedes)
  {
    forall a: ArticleHit, b: ArticleHit | Precedes(a, b)
      ensures !Precedes(b, a)
    {
      StringLessAsymmetric(a.id, b.id);
    }
    forall a: ArticleHit, b: ArticleHit, c: ArticleHit | !Precedes(a, b) && !Precedes(b, c)
      ensures !Precedes(a, c)
    {
      if a.score == b.score == c.score {
        StringLessNegTransitive(a.id, b.id, c.id);
      }
    }
  }

  ghost function Flatten(partials: seq<seq<ArticleHit>>): seq<ArticleHit> {
    if partials == [] then [] else Flatten(partials[..|partials| - 1]) + partials[|partials| - 1]
  }

  /** h stands among the hits before any other of its id that scores as well. */
  ghost predicate ComesFirst(hits: seq<ArticleHit>, h: ArticleHit) {
    exists i :: 0 <= i < |hits| && hits[i] == h && BeatsEarlier(hits, i)
  }

  ghost predicate BeatsEarlier(hits: seq<ArticleHit>, i: nat)
    requires i < |hits|
  {
    forall j :: 0 <= j < i && hits[j].id == hits[i].id ==> hits[j].score < hits[i].score
  }

  /** For every id among the hits the best of its hits, and the earliest of several equally good ones. */
  ghost predicate IsBest(hits: seq<ArticleHit>, best: map<string, ArticleHit>) {
    && (forall id :: id in best ==> best[id] in hits && best[id].id == id && ComesFirst(hits, best[id]))
    && (forall h :: h in hits ==> h.id in best && h.score <= best[h.id].score)
  }

  /** The first k of the best hits, ranked by score and then id. */
  ghost predicate IsMerged(best: map<string, ArticleHit>, k: nat, out: seq<ArticleHit>) {
    exists full ::
      && multiset(full) == multiset(best.Values)
      && Sorted(full, Precedes)
      && out == full[..Min(k, |full|)]
  }

  method KeepBest(partials: seq<seq<ArticleHit>>) returns (best: map<string, ArticleHit>)
    ensures IsBest(Flatten(partials), best)
  {
    hide IsBest;
    best := map[];
    NothingKept();
    for i := 0 to |partials|
      invariant IsBest(Flatten(partials[..i]), best)
    {
      ghost var before := Flatten(partials[..i]);
      var batch := partials[i];
      assert before + batch[..0] == before;
      for j := 0 to |batch|
        invariant IsBest(before + batch[..j], best)
      {
        var r := batch[j];
        KeepOne(before + batch[..j], best, r);
        assert before + batch[..j + 1] == before + batch[..j] + [r];
        if r.id !in best || r.score > best[r.id].score {
          best := best[r.id := r];
        }
      }
      assert partials[..i + 1][..i] == partials[..i];
      assert batch[..|batch|] == batch;
    }
    assert partials[..|partials|] == partials;
  }

  lemma NothingKept()
    ensures IsBest(Flatten([]), map[])
  {
  }

  lemma KeepOne(hits: seq<ArticleHit>, best: map<string, ArticleHit>, r: ArticleHit)
    requires IsBest(hits, best)
    ensures IsBest(hits + [r], if r.id !in best || r.score > best[r.id].score then best[r.id := r] else best)
  {
    var more := hits + [r];
    forall id | id in best
      ensures ComesFirst(more, best[id])
    {
      var i :| 0 <= i < |hits| && hits[i] == best[id] && BeatsEarlier(hits, i);
      assert more[i] == best[id] && BeatsEarlier(more, i);
    }
    if r.id !in best || r.score > best[r.id].score {
      assert more[|hits|] == r && BeatsEarlier(more, |hits|) by {
        assert forall j :: 0 <= j < |hits| ==> more[j] == hits[j] && hits[j] in hits;
      }
    }
  }

  /** The values of a map in whatever order the iteration takes. */
  method ValuesOf(best: map<string, ArticleHit>) returns (out: seq<ArticleHit>)
    requires forall id :: id in best ==> best[id].id == id
    ensures multiset(out) == multiset(best.Values)
  {
    out := [];
    ghost var taken: set<ArticleHit> := {};
    var rest := best.Keys;
    while rest != {}
      invariant rest <= best.Keys
      invariant taken == set id | id in best && id !in rest :: best[id]
      invariant multiset(out) == multiset(taken)
      decreases |rest|
    {
      var id :| id in rest;
      rest := rest - {id};
      assert best[id] !in taken;
      assert (set x | x in best && x !in rest :: best[x]) == taken + {best[id]};
      taken := taken + {best[id]};
      out := out + [best[id]];
    }
    assert taken == best.Values;
  }

  /** Keeps each id's best hit, sorts and cuts after k. */
  method MergeSearchResults(partials: seq<seq<ArticleHit>>, k: nat) returns (out: seq<ArticleHit>)
    ensures exists best :: IsBest(Flatten(partials), best) && IsMerged(best, k, out)
    ensures MergesTo(partials, k, out)
  {
    hide IsBest;
    hide MergesTo;
    var best := KeepBest(partials);
    BestIsKeyed(Flatten(partials), best);
    out := ValuesOf(best);
    PrecedesIsWeakOrder();
    out := SortSlice(out, Precedes);
    ghost var full := out;
    if |out| > k {
      out := out[..k];
    }
    assert out == full[..Min(k, |full|)];
    assert IsMerged(best, k, out);
    MergePositions(partials, best, k, out);
  }

  lemma BestIsKeyed(hits: seq<ArticleHit>, best: map<string, ArticleHit>)
    requires IsBest(hits, best)
    ensures forall id :: id in best ==> best[id].id == id
  {
  }

  // ---------- The merge, position by position ----------

  /** Falling scores, and ids in dictionary order where scores are equal. */
  ghost predicate InRank(hits: seq<ArticleHit>) {
    forall i, j :: 0 <= i < j < |hits| ==>
      hits[i].score > hits[j].score || (hits[i].score == hits[j].score && AheadOf(hits[i].id, hits[j].id))
  }

  /** Hit j of shard s has the best score among the hits of its id, and stands before the others that have it:
      on an earlier shard, or earlier on the same one. */
  ghost predicate IsEarliestBest(partials: seq<seq<ArticleHit>>, s: int, j: int) {
    && 0 <= s < |partials| && 0 <= j < |partials[s]|
    && forall t, l :: 0 <= t < |partials| && 0 <= l < |partials[t]| && partials[t][l].id == partials[s][j].id ==>
         || partials[t][l].score < partials[s][j].score
         || (partials[t][l].score == partials[s][j].score && (s < t || (s == t && j <= l)))
  }

  /** h is the earliest best of its id. */
  ghost predicate WasSent(partials: seq<seq<ArticleHit>>, h: ArticleHit) {
    exists s, j :: IsEarliestBest(partials, s, j) && h == partials[s][j]
  }

  /** At most k hits with different ids, in rank order, each the earliest best of its id; and a hit that was sent
      is represented by one of its id at least as good, or k others rank ahead of it. */
  ghost predicate MergesTo(partials: seq<seq<ArticleHit>>, k: nat, out: seq<ArticleHit>) {
    && |out| <= k && InRank(out)
    && (forall i, j :: 0 <= i < j < |out| ==> out[i].id != out[j].id)
    && (forall i :: 0 <= i < |out| ==> WasSent(partials, out[i]))
    && (forall s, j :: 0 <= s < |partials| && 0 <= j < |partials[s]| ==> IsCovered(partials[s][j], k, out))
  }

  ghost predicate IsCovered(h: ArticleHit, k: nat, out: seq<ArticleHit>) {
    || (exists i :: 0 <= i < |out| && out[i].id == h.id && out[i].score >= h.score)
    || (|out| == k && forall i :: 0 <= i < k ==>
                        out[i].score > h.score || (out[i].score == h.score && AheadOf(out[i].id, h.id)))
  }

  lemma RankExactly(a: ArticleHit, b: ArticleHit)
    ensures Precedes(a, b) <==> a.score > b.score || (a.score == b.score && AheadOf(a.id, b.id))
    ensures !Precedes(b, a) && a.id != b.id ==> Precedes(a, b)
  {
    StringLessExactly(a.id, b.id);
    StringLessTotal(a.id, b.id);
  }

  /** Where hit j of shard s stands when all hits are put in a row. */
  lemma {:induction false} FlattenAt(partials: seq<seq<ArticleHit>>, s: nat, j: nat)
    requires s < |partials| && j < |partials[s]|
    ensures |Flatten(partials[..s])| + j < |Flatten(partials)|
    ensures Flatten(partials)[|Flatten(partials[..s])| + j] == partials[s][j]
    decreases |partials|
  {
    var n := |partials| - 1;
    if s < n {
      FlattenAt(partials[..n], s, j);
      assert partials[..n][..s] == partials[..s];
    }
  }

  lemma {:induction false} FlattenPosition(partials: seq<seq<ArticleHit>>, i: nat) returns (s: nat, j: nat)
    requires i < |Flatten(partials)|
    ensures s < |partials| && j < |partials[s]| && i == |Flatten(partials[..s])| + j
    ensures Flatten(partials)[i] == partials[s][j]
    decreases |partials|
  {
    var n := |partials| - 1;
    if i < |Flatten(partials[..n])| {
      s, j := FlattenPosition(partials[..n], i);
      assert partials[..n][..s] == partials[..s];
    } else {
      s, j := n, i - |Flatten(partials[..n])|;
    }
  }

  lemma {:induction false} FlattenGrows(partials: seq<seq<ArticleHit>>, s: nat, t: nat)
    requires s < t <= |partials|
    ensures |Flatten(partials[..s])| + |partials[s]| <= |Flatten(partials[..t])|
    decreases t
  {
    assert partials[..t][..t - 1] == partials[..t - 1];
    if s < t - 1 {
      FlattenGrows(partials, s, t - 1);
    }
  }

  /** The first of the best in a row is the earliest best on the shards. */
  lemma EarliestBest(partials: seq<seq<ArticleHit>>, best: map<string, ArticleHit>, id: string)
    requires IsBest(Flatten(partials), best) && id in best
    ensures WasSent(partials, best[id])
  {
    var hits := Flatten(partials);
    var i :| 0 <= i < |hits| && hits[i] == best[id] && BeatsEarlier(hits, i);
    var s, j := FlattenPosition(partials, i);
    forall t, l | 0 <= t < |partials| && 0 <= l < |partials[t]| && partials[t][l].id == id
      ensures || partials[t][l].score < best[id].score
              || (partials[t][l].score == best[id].score && (s < t || (s == t && j <= l)))
    {
      FlattenAt(partials, t, l);
      var p := |Flatten(partials[..t])| + l;
      assert hits[p] in hits;
      if t < s {
        FlattenGrows(partials, t, s);
      }
    }
    assert IsEarliestBest(partials, s, j);
  }

  lemma BestCovers(best: map<string, ArticleHit>, full: seq<ArticleHit>, k: nat, h: ArticleHit)
    requires forall id :: id in best ==> best[id].id == id
    requires multiset(full) == multiset(best.Values) && Sorted(full, Precedes)
    requires h.id in best && h.score <= best[h.id].score
    ensures IsCovered(h, k, full[..Min(k, |full|)])
  {
    var b := best[h.id];
    assert b in multiset(best.Values);
    var p :| 0 <= p < |full| && full[p] == b;
    var out := full[..Min(k, |full|)];
    if p < k {
      assert out[p].id == h.id;
    } else {
      forall i | 0 <= i < k
        ensures out[i].score > h.score || (out[i].score == h.score && AheadOf(out[i].id, h.id))
      {
        FullIsDistinct(best, full, i, p);
        RankExactly(full[i], b);
      }
    }
  }

  lemma FullIsDistinct(best: map<string, ArticleHit>, full: seq<ArticleHit>, i: nat, j: nat)
    requires forall id :: id in best ==> best[id].id == id
    requires multiset(full) == multiset(best.Values) && i < j < |full|
    ensures full[i].id != full[j].id
  {
    assert full[i] in multiset(full) && full[j] in multiset(full);
    if full[i] == full[j] {
      TwiceInBag(full, i, j);
    }
  }

  lemma TwiceInBag<T>(s: seq<T>, i: nat, j: nat)
    requires i < j < |s| && s[i] == s[j]
    ensures multiset(s)[s[i]] >= 2
  {
    assert s == s[..j] + s[j..];
    assert s[..j][i] == s[i] && s[j..][0] == s[j];
    assert s[i] in multiset(s[..j]) && s[i] in multiset(s[j..]);
  }

  lemma SentIsCovered(partials: seq<seq<ArticleHit>>, best: map<string, ArticleHit>, full: seq<ArticleHit>, k: nat,
                      s: nat, j: nat)
    requires IsBest(Flatten(partials), best) && s < |partials| && j < |partials[s]|
    requires multiset(full) == multiset(best.Values) && Sorted(full, Precedes)
    ensures IsCovered(partials[s][j], k, full[..Min(k, |full|)])
  {
    BestIsKeyed(Flatten(partials), best);
    FlattenAt(partials, s, j);
    assert partials[s][j] in Flatten(partials);
    BestCovers(best, full, k, partials[s][j]);
  }

  lemma FullInRank(best: map<string, ArticleHit>, full: seq<ArticleHit>, n: nat)
    requires forall id :: id in best ==> best[id].id == id
    requires multiset(full) == multiset(best.Values) && Sorted(full, Precedes) && n <= |full|
    ensures InRank(full[..n]) && forall i, j :: 0 <= i < j < n ==> full[i].id != full[j].id
  {
    forall i, j | 0 <= i < j < n
      ensures full[i].id != full[j].id
      ensures full[i].score > full[j].score || (full[i].score == full[j].score && AheadOf(full[i].id, full[j].id))
    {
      FullIsDistinct(best, full, i, j);
      RankExactly(full[i], full[j]);
    }
  }

  /** A merge is in rank order and names no id twice. */
  lemma MergedInRank(best: map<string, ArticleHit>, k: nat, out: seq<ArticleHit>)
    requires (forall id :: id in best ==> best[id].id == id) && IsMerged(best, k, out)
    ensures |out| <= k && InRank(out) && forall i, j :: 0 <= i < j < |out| ==> out[i].id != out[j].id
    ensures forall h :: h in out ==> h in best.Values
  {
    var full :| multiset(full) == multiset(best.Values) && Sorted(full, Precedes) && out == full[..Min(k, |full|)];
    FullInRank(best, full, Min(k, |full|));
    forall h | h in out
      ensures h in best.Values
    {
      assert h in multiset(full);
    }
  }

  /** What the merge returns in terms of the shards' lists. */
  lemma MergePositions(partials: seq<seq<ArticleHit>>, best: map<string, ArticleHit>, k: nat, out: seq<ArticleHit>)
    requires IsBest(Flatten(partials), best) && IsMerged(best, k, out)
    ensures MergesTo(partials, k, out)
  {
    hide InRank;
    hide IsBest;
    hide WasSent;
    hide IsCovered;
    BestIsKeyed(Flatten(partials), best);
    MergedInRank(best, k, out);
    forall i | 0 <= i < |out|
      ensures WasSent(partials, out[i])
    {
      assert out[i] in best.Values;
      EarliestBest(partials, best, out[i].id);
    }
    var full :| multiset(full) == multiset(best.Values) && Sorted(full, Precedes) && out == full[..Min(k, |full|)];
    forall s, j | 0 <= s < |partials| && 0 <= j < |partials[s]|
      ensures IsCovered(partials[s][j], k, out)
    {
      SentIsCovered(partials, best, full, k, s, j);
    }
  }

  // ---------- One result, whatever the iteration order ----------

  ghost predicate OnePerId(hits: seq<ArticleHit>) {
    forall g, h :: g in hits && h in hits && g.id == h.id ==> g == h
  }

  lemma SameFirst(a: seq<ArticleHit>, b: seq<ArticleHit>)
    requires a != [] && b != [] && multiset(a) == multiset(b)
    requires Sorted(a, Precedes) && Sorted(b, Precedes) && OnePerId(a)
    ensures a[0] == b[0]
  {
    assert b[0] in multiset(a) && a[0] in multiset(b);
    var i :| 0 <= i < |a| && a[i] == b[0];
    var j :| 0 <= j < |b| && b[j] == a[0];
    assert !Precedes(b[0], a[0]) || i == 0;
    assert !Precedes(a[0], b[0]) || j == 0;
    StringLessTotal(a[0].id, b[0].id);
  }

  lemma TailBag<T>(a: seq<T>)
    requires a != []
    ensures multiset(a[1..]) == multiset(a) - multiset{a[0]}
  {
    assert a == [a[0]] + a[1..];
  }

  lemma TailRanked(a: seq<ArticleHit>)
    requires a != [] && Sorted(a, Precedes)
    ensures Sorted(a[1..], Precedes)
  {
  }

  /** There is only one way to rank hits with distinct ids. */
  lemma {:induction false} RankingUnique(a: seq<ArticleHit>, b: seq<ArticleHit>)
    requires multiset(a) == multiset(b)
    requires Sorted(a, Precedes) && Sorted(b, Precedes) && OnePerId(a)
    ensures a == b
    decreases |a|
  {
    assert |a| == |multiset(a)| == |b|;
    if a != [] {
      SameFirst(a, b);
      TailBag(a);
      TailBag(b);
      TailRanked(a);
      TailRanked(b);
      assert OnePerId(a[1..]);
      hide OnePerId;
      hide Sorted;
      RankingUnique(a[1..], b[1..]);
      assert a == [a[0]] + a[1..] && b == [b[0]] + b[1..];
    }
  }

  /** There is only one choice of best hits. */
  lemma BestUnique(hits: seq<ArticleHit>, best: map<string, ArticleHit>, best': map<string, ArticleHit>)
    requires IsBest(hits, best) && IsBest(hits, best')
    ensures best == best'
  {
    forall id | id in best
      ensures id in best' && best[id] == best'[id]
    {
      assert best[id] in hits && best'[id] in hits;
      var i :| 0 <= i < |hits| && hits[i] == best[id] && BeatsEarlier(hits, i);
      var j :| 0 <= j < |hits| && hits[j] == best'[id] && BeatsEarlier(hits, j);
      assert i == j;
    }
    assert forall id :: id in best' ==> best'[id] in hits;
  }

  lemma RankingOfBestUnique(best: map<string, ArticleHit>, full: seq<ArticleHit>, full': seq<ArticleHit>)
    requires forall id :: id in best ==> best[id].id == id
    requires multiset(full) == multiset(best.Values) == multiset(full')
    requires Sorted(full, Precedes) && Sorted(full', Precedes)
    ensures full == full'
  {
    forall h: ArticleHit | h in full
      ensures h.id in best && best[h.id] == h
    {
      assert h in multiset(full);
      assert h in best.Values;
    }
    RankingUnique(full, full');
  }

  /** The merged list is a function of the shards' answers, not of the order in which the map is walked. */
  lemma MergeIsDeterministic(partials: seq<seq<ArticleHit>>, k: nat, best: map<string, ArticleHit>,
                             out: seq<ArticleHit>, best': map<string, ArticleHit>, out': seq<ArticleHit>)
    requires IsBest(Flatten(partials), best) && IsMerged(best, k, out)
    requires IsBest(Flatten(partials), best') && IsMerged(best', k, out')
    ensures out == out'
  {
    BestUnique(Flatten(partials), best, best');
    BestIsKeyed(Flatten(partials), best);
    hide IsBest;
    var full :| multiset(full) == multiset(best.Values) && Sorted(full, Precedes) && out == full[..Min(k, |full|)];
    var full' :| multiset(full') == multiset(best.Values) && Sorted(full', Precedes)
        && out' == full'[..Min(k, |full'|)];
    RankingOfBestUnique(best, full, full');
  }

  // ---------- Scatter and gather ----------

  /** `part` holds enough of `universe` for a top-k: whatever it lacks is matched by k hits it has. */
  ghost predicate Suffices(universe: multiset<ArticleHit>, part: multiset<ArticleHit>, k: nat) {
    && part <= universe
    && forall h :: h in universe - part ==> exists strong :: Backs(part, strong, k, h.score)
  }

  ghost predicate Backs(part: multiset<ArticleHit>, strong: multiset<ArticleHit>, k: nat, score: real) {
    strong <= part && |strong| == k && forall x :: x in strong ==> x.score >= score
  }

  lemma TopKSuffices(universe: multiset<ArticleHit>, out: seq<ArticleHit>, k: nat)
    requires IsTopK(universe, out, k)
    ensures Suffices(universe, multiset(out), k)
  {
    forall h | h in universe - multiset(out)
      ensures exists strong :: Backs(multiset(out), strong, k, h.score)
    {
      assert universe == multiset(out) + (universe - multiset(out));
      assert |universe - multiset(out)| >= 1 by {
        assert multiset{h} <= universe - multiset(out);
        SubMultisetSize(multiset{h}, universe - multiset(out));
      }
      assert |multiset(out)| == k;
      assert Backs(multiset(out), multiset(out), k, h.score);
    }
  }

  lemma SufficesSum(u: multiset<ArticleHit>, p: multiset<ArticleHit>, v: multiset<ArticleHit>, q: multiset<ArticleHit>,
                    k: nat)
    requires Suffices(u, p, k) && Suffices(v, q, k)
    ensures Suffices(u + v, p + q, k)
  {
    forall h | h in (u + v) - (p + q)
      ensures exists strong :: Backs(p + q, strong, k, h.score)
    {
      if h in u - p {
        var strong :| Backs(p, strong, k, h.score);
        assert Backs(p + q, strong, k, h.score);
      } else {
        assert h in v - q;
        var strong :| Backs(q, strong, k, h.score);
        assert Backs(p + q, strong, k, h.score);
      }
    }
  }

  lemma MissingIsMatched(universe: multiset<ArticleHit>, part: multiset<ArticleHit>, out: seq<ArticleHit>, k: nat,
                         h: ArticleHit, i: nat)
    requires Suffices(universe, part, k) && IsTopK(part, out, k)
    requires h in universe - part && i < |out|
    ensures h.score <= out[i].score
  {
    var strong :| Backs(part, strong, k, h.score);
    if h.score > out[i].score {
      forall x | x in strong
        ensures strong[x] <= multiset(out[..i])[x]
      {
        BetterHitsComeFirst(part, out, k, i, x);
      }
      SubMultisetSize(strong, multiset(out[..i]));
      assert false;
    }
  }

  lemma MissingMeansPlenty(universe: multiset<ArticleHit>, part: multiset<ArticleHit>, k: nat, h: ArticleHit)
    requires Suffices(universe, part, k) && h in universe - part
    ensures |part| >= k
  {
    var strong :| Backs(part, strong, k, h.score);
    SubMultisetSize(strong, part);
  }

  lemma PartIsLargeEnough(universe: multiset<ArticleHit>, part: multiset<ArticleHit>, k: nat)
    requires Suffices(universe, part, k)
    ensures Min(k, |part|) == Min(k, |universe|)
  {
    SufficientPart(universe, part, k);
    var rest := universe - part;
    assert universe == part + rest;
    assert |universe| == |part| + |rest|;
    if |rest| > 0 {
      var h :| h in rest;
      MissingMeansPlenty(universe, part, k, h);
    }
  }

  /** A top-k of a sufficient part is a top-k of the whole. */
  lemma TopKOfPart(universe: multiset<ArticleHit>, part: multiset<ArticleHit>, out: seq<ArticleHit>, k: nat)
    requires Suffices(universe, part, k) && IsTopK(part, out, k)
    ensures IsTopK(universe, out, k)
  {
    PartIsLargeEnough(universe, part, k);
    SufficientPart(universe, part, k);
    hide Suffices;
    forall h, o | h in universe - multiset(out) && o in out
      ensures h.score <= o.score
    {
      var i :| 0 <= i < |out| && out[i] == o;
      if h in universe - part {
        MissingIsMatched(universe, part, out, k, h, i);
      } else {
        assert h in part - multiset(out);
      }
    }
  }

  ghost function Total(universes: seq<multiset<ArticleHit>>): multiset<ArticleHit> {
    if universes == [] then multiset{} else Total(universes[..|universes| - 1]) + universes[|universes| - 1]
  }

  lemma {:induction false} PartialsSuffice(universes: seq<multiset<ArticleHit>>, partials: seq<seq<ArticleHit>>, k: nat)
    requires |universes| == |partials|
    requires forall i :: 0 <= i < |partials| ==> IsTopK(universes[i], partials[i], k)
    ensures Suffices(Total(universes), multiset(Flatten(partials)), k)
    decreases |partials|
  {
    if partials == [] {
      assert universes == [];
    } else {
      var n := |partials| - 1;
      PartialsSuffice(universes[..n], partials[..n], k);
      TopKSuffices(universes[n], partials[n], k);
      SufficesSum(Total(universes[..n]), multiset(Flatten(partials[..n])), universes[n], multiset(partials[n]), k);
    }
  }

  /** Every id occurs once in the whole. */
  ghost predicate DistinctHits(universe: multiset<ArticleHit>) {
    && (forall h :: h in universe ==> universe[h] == 1)
    && (forall g, h :: g in universe && h in universe && g.id == h.id ==> g == h)
  }

  lemma BestKeepsAll(universe: multiset<ArticleHit>, hits: seq<ArticleHit>, best: map<string, ArticleHit>)
    requires multiset(hits) <= universe && DistinctHits(universe) && IsBest(hits, best)
    ensures multiset(best.Values) == multiset(hits)
  {
    forall h
      ensures multiset(best.Values)[h] == multiset(hits)[h]
    {
      if h in hits {
        assert h in multiset(hits) && h in universe;
        assert best[h.id] in multiset(hits);
        assert best[h.id] == h;
        assert h in best.Values;
        assert 1 <= multiset(hits)[h] <= universe[h];
      } else {
        assert h !in best.Values;
      }
    }
  }

  /** The merge is an exact top-k of the hits that were sent, whatever the shards left out. */
  lemma MergeOfSent(universe: multiset<ArticleHit>, hits: seq<ArticleHit>, best: map<string, ArticleHit>, k: nat,
                    out: seq<ArticleHit>)
    requires multiset(hits) <= universe && DistinctHits(universe)
    requires IsBest(hits, best) && IsMerged(best, k, out)
    ensures IsTopK(multiset(hits), out, k) && Sorted(out, Precedes)
  {
    BestKeepsAll(universe, hits, best);
    hide IsTopK;
    hide IsBest;
    hide DistinctHits;
    hide Sorted;
    hide Descending;
    var full :| multiset(full) == multiset(best.Values) && Sorted(full, Precedes) && out == full[..Min(k, |full|)];
    RankingDescends(full);
    PrefixRanked(full, Min(k, |full|));
    PrefixIsTopK(full, k);
  }

  lemma PrefixRanked(full: seq<ArticleHit>, n: nat)
    requires Sorted(full, Precedes) && n <= |full|
    ensures Sorted(full[..n], Precedes)
  {
  }

  /** Scatter and gather is exact: if each shard answers with an exact top-k of its own hits and no id is
      on two shards, the merge is an exact top-k of all hits together. */
  lemma MergeIsExact(universes: seq<multiset<ArticleHit>>, partials: seq<seq<ArticleHit>>,
                     best: map<string, ArticleHit>, k: nat, out: seq<ArticleHit>)
    requires |universes| == |partials|
    requires forall i :: 0 <= i < |partials| ==> IsTopK(universes[i], partials[i], k)
    requires DistinctHits(Total(universes))
    requires IsBest(Flatten(partials), best) && IsMerged(best, k, out)
    ensures IsTopK(Total(universes), out, k)
  {
    hide Suffices;
    hide IsTopK;
    var hits := Flatten(partials);
    PartialsSuffice(universes, partials, k);
    SufficientPart(Total(universes), multiset(hits), k);
    MergeOfSent(Total(universes), hits, best, k, out);
    TopKOfPart(Total(universes), multiset(hits), out, k);
  }

  /** What is sent from the parts is part of the whole. */
  lemma {:induction false} FlattenIsPart(universes: seq<multiset<ArticleHit>>, partials: seq<seq<ArticleHit>>)
    requires |universes| == |partials|
    requires forall i :: 0 <= i < |partials| ==> multiset(partials[i]) <= universes[i]
    ensures multiset(Flatten(partials)) <= Total(universes)
    decreases |partials|
  {
    if partials != [] {
      var n := |partials| - 1;
      FlattenIsPart(universes[..n], partials[..n]);
      PartsAdd(multiset(Flatten(partials[..n])), Total(universes[..n]), multiset(partials[n]), universes[n]);
    }
  }

  lemma PartsAdd(p: multiset<ArticleHit>, u: multiset<ArticleHit>, q: multiset<ArticleHit>, v: multiset<ArticleHit>)
    requires p <= u && q <= v
    ensures p + q <= u + v
  {
  }

  lemma SufficientPart(universe: multiset<ArticleHit>, part: multiset<ArticleHit>, k: nat)
    requires Suffices(universe, part, k)
    ensures part <= universe
  {
  }

  lemma RankingDescends(full: seq<ArticleHit>)
    requires Sorted(full, Precedes)
    ensures Descending(full)
  {
    forall i, j | 0 <= i < j < |full|
      ensures full[i].score >= full[j].score
    {
      assert !Precedes(full[j], full[i]);
    }
  }
}
