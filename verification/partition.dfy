/** Articles split over shards by the hash of their ids, seen as one map. */
module Partition {
  import opened Merge
  import opened NodeSpec
  import opened Permutations
  import opened Sharding
  import opened Sorting
  import opened Storage
  import opened TopK
  import opened Vectors

  /** All rows together. */
  ghost function Union(shards: seq<Rows>): Rows {
    if shards == [] then map[] else Union(shards[..|shards| - 1]) + shards[|shards| - 1]
  }

  /** Every article sits on the shard its id hashes to, and says so. */
  ghost predicate WellPlaced(shards: seq<Rows>) {
    forall i, id {:trigger id in shards[i]} :: 0 <= i < |shards| && id in shards[i] ==>
      ShardOf(id, |shards|) == i && shards[i][id].id == id && shards[i][id].shardID == i
  }

  ghost predicate DisjointRows(shards: seq<Rows>) {
    forall i, j :: 0 <= i < j < |shards| ==> shards[i].Keys !! shards[j].Keys
  }

  lemma WellPlacedDisjoint(shards: seq<Rows>)
    requires WellPlaced(shards)
    ensures DisjointRows(shards)
  {
    forall i, j | 0 <= i < j < |shards|
      ensures shards[i].Keys !! shards[j].Keys
    {
      forall id | id in shards[i] && id in shards[j]
        ensures false
      {
      }
    }
  }

  lemma WellPlacedKeyed(shards: seq<Rows>)
    requires WellPlaced(shards)
    ensures forall i :: 0 <= i < |shards| ==> Keyed(shards[i])
  {
  }

  /** The union has exactly the shards' rows. */
  lemma {:induction false} UnionRows(shards: seq<Rows>)
    requires DisjointRows(shards)
    ensures forall id :: id in Union(shards) <==> exists i :: 0 <= i < |shards| && id in shards[i]
    ensures forall i, id :: 0 <= i < |shards| && id in shards[i] ==> Union(shards)[id] == shards[i][id]
  {
    if shards != [] {
      var n := |shards| - 1;
      var front := shards[..n];
      assert forall i :: 0 <= i < n ==> front[i] == shards[i];
      UnionRows(front);
      forall id | id in Union(shards)
        ensures exists i :: 0 <= i < |shards| && id in shards[i]
      {
        if id in Union(front) {
          var i :| 0 <= i < |front| && id in front[i];
          assert id in shards[i];
        } else {
          assert id in shards[n];
        }
      }
      forall i, id | 0 <= i < |shards| && id in shards[i]
        ensures id in Union(shards) && Union(shards)[id] == shards[i][id]
      {
        if i < n {
          assert id in front[i];
          assert shards[i].Keys !! shards[n].Keys;
        }
      }
    }
  }

  /** An id is in the union exactly if it is on its own shard. */
  lemma FindInUnion(shards: seq<Rows>, id: string)
    requires WellPlaced(shards) && |shards| > 0
    ensures var s := ShardOf(id, |shards|);
            && 0 <= s < |shards|
            && (id in Union(shards) <==> id in shards[s])
            && (id in shards[s] ==> Union(shards)[id] == shards[s][id])
  {
    ShardInRange(id, |shards|);
    WellPlacedDisjoint(shards);
    UnionRows(shards);
  }

  /** Writing an id on its own shard writes it in the union and changes nothing else. */
  lemma PutInUnion(shards: seq<Rows>, a: Article)
    requires WellPlaced(shards) && |shards| > 0
    requires a.shardID == ShardOf(a.id, |shards|)
    ensures 0 <= a.shardID < |shards|
    ensures var after := shards[a.shardID := shards[a.shardID][a.id := a]];
            WellPlaced(after) && Union(after) == Union(shards)[a.id := a]
  {
    ShardInRange(a.id, |shards|);
    var after := shards[a.shardID := shards[a.shardID][a.id := a]];
    assert WellPlaced(after);
    forall id
      ensures id in Union(after) <==> id in Union(shards)[a.id := a]
      ensures id in Union(after) ==> Union(after)[id] == Union(shards)[a.id := a][id]
    {
      FindInUnion(shards, id);
      FindInUnion(after, id);
    }
  }

  lemma RemoveFromUnion(shards: seq<Rows>, id: string)
    requires WellPlaced(shards) && |shards| > 0
    ensures var s := ShardOf(id, |shards|);
            && 0 <= s < |shards|
            && var after := shards[s := shards[s] - {id}];
               WellPlaced(after) && Union(after) == Union(shards) - {id}
  {
    ShardInRange(id, |shards|);
    var s := ShardOf(id, |shards|);
    var after := shards[s := shards[s] - {id}];
    assert WellPlaced(after);
    forall other
      ensures other in Union(after) <==> other in Union(shards) - {id}
      ensures other in Union(after) ==> Union(after)[other] == (Union(shards) - {id})[other]
    {
      FindInUnion(shards, other);
      FindInUnion(after, other);
    }
  }

  // ---------- Hits ----------

  ghost function ShardHits(shards: seq<Rows>, query: Vector, queryNorm: real,
                           sqrt: real -> real): (r: seq<multiset<ArticleHit>>)
    ensures |r| == |shards| && forall i :: 0 <= i < |r| ==> r[i] == AllHits(shards[i], query, queryNorm, sqrt)
  {
    seq(|shards|, i requires 0 <= i < |shards| => AllHits(shards[i], query, queryNorm, sqrt))
  }

  lemma DisjointSum(x: set<ArticleHit>, y: set<ArticleHit>)
    requires x !! y
    ensures multiset(x + y) == multiset(x) + multiset(y)
  {
  }

  lemma HitSetsOfTwo(a: Rows, b: Rows, query: Vector, queryNorm: real, sqrt: real -> real)
    requires a.Keys !! b.Keys && Keyed(a) && Keyed(b)
    ensures HitSet(a, query, queryNorm, sqrt) !! HitSet(b, query, queryNorm, sqrt)
    ensures HitSet(a + b, query, queryNorm, sqrt)
            == HitSet(a, query, queryNorm, sqrt) + HitSet(b, query, queryNorm, sqrt)
  {
    HitSetMembers(a, query, queryNorm, sqrt);
    HitSetMembers(b, query, queryNorm, sqrt);
    HitSetMembers(a + b, query, queryNorm, sqrt);
    hide HitSet;
    hide HitOfArticle;
  }

  lemma NoHits(query: Vector, queryNorm: real, sqrt: real -> real)
    ensures AllHits(map[], query, queryNorm, sqrt) == multiset{}
  {
    assert HitSet(map[], query, queryNorm, sqrt) == {};
  }

  lemma HitsOfTwo(a: Rows, b: Rows, query: Vector, queryNorm: real, sqrt: real -> real)
    requires a.Keys !! b.Keys && Keyed(a) && Keyed(b)
    ensures AllHits(a + b, query, queryNorm, sqrt)
            == AllHits(a, query, queryNorm, sqrt) + AllHits(b, query, queryNorm, sqrt)
  {
    hide HitSet;
    HitSetsOfTwo(a, b, query, queryNorm, sqrt);
    DisjointSum(HitSet(a, query, queryNorm, sqrt), HitSet(b, query, queryNorm, sqrt));
  }

  lemma LastApart(shards: seq<Rows>)
    requires shards != [] && DisjointRows(shards)
    ensures DisjointRows(shards[..|shards| - 1]) && Union(shards[..|shards| - 1]).Keys !! shards[|shards| - 1].Keys
  {
    var n := |shards| - 1;
    var front := shards[..n];
    assert forall i :: 0 <= i < n ==> front[i] == shards[i];
    UnionRows(front);
  }

  lemma TotalStep(shards: seq<Rows>, query: Vector, queryNorm: real, sqrt: real -> real)
    requires shards != []
    ensures Total(ShardHits(shards, query, queryNorm, sqrt))
         == Total(ShardHits(shards[..|shards| - 1], query, queryNorm, sqrt))
           + AllHits(shards[|shards| - 1], query, queryNorm, sqrt)
  {
    hide AllHits;
    var n := |shards| - 1;
    assert ShardHits(shards, query, queryNorm, sqrt)[..n] == ShardHits(shards[..n], query, queryNorm, sqrt);
  }

  /** The shards' hits add up to the hits of the one map. */
  lemma {:induction false} HitsOfUnion(shards: seq<Rows>, query: Vector, queryNorm: real, sqrt: real -> real)
    requires DisjointRows(shards) && forall i :: 0 <= i < |shards| ==> Keyed(shards[i])
    ensures Total(ShardHits(shards, query, queryNorm, sqrt)) == AllHits(Union(shards), query, queryNorm, sqrt)
    ensures Keyed(Union(shards))
  {
    hide AllHits;
    hide ShardHits;
    if shards == [] {
      NoHits(query, queryNorm, sqrt);
      assert |ShardHits(shards, query, queryNorm, sqrt)| == 0;
    } else {
      var n := |shards| - 1;
      LastApart(shards);
      HitsOfUnion(shards[..n], query, queryNorm, sqrt);
      TotalStep(shards, query, queryNorm, sqrt);
      HitsOfTwo(Union(shards[..n]), shards[n], query, queryNorm, sqrt);
    }
  }

  lemma AllHitsDistinct(rows: Rows, query: Vector, queryNorm: real, sqrt: real -> real)
    requires Keyed(rows)
    ensures DistinctHits(AllHits(rows, query, queryNorm, sqrt))
  {
    HitSetMembers(rows, query, queryNorm, sqrt);
  }

  /** Merging exact shard answers gives an exact answer over the one map. */
  lemma GatherIsExact(shards: seq<Rows>, query: Vector, queryNorm: real, sqrt: real -> real,
                      partials: seq<seq<ArticleHit>>, best: map<string, ArticleHit>, k: nat, out: seq<ArticleHit>)
    requires WellPlaced(shards) && |partials| == |shards|
    requires forall i :: 0 <= i < |shards| ==> IsTopK(AllHits(shards[i], query, queryNorm, sqrt), partials[i], k)
    requires IsBest(Flatten(partials), best) && IsMerged(best, k, out)
    ensures IsTopK(AllHits(Union(shards), query, queryNorm, sqrt), out, k)
  {
    hide IsTopK;
    hide IsBest;
    hide IsMerged;
    hide AllHits;
    hide Union;
    hide DistinctHits;
    WellPlacedDisjoint(shards);
    WellPlacedKeyed(shards);
    HitsOfUnion(shards, query, queryNorm, sqrt);
    AllHitsDistinct(Union(shards), query, queryNorm, sqrt);
    MergeIsExact(ShardHits(shards, query, queryNorm, sqrt), partials, best, k, out);
  }

  /** Whatever the shards send, as long as it is hits of their own articles: the merge is made of hits of
      articles in the one map, and is an exact top-k of what was sent. */
  lemma GatherIsPart(shards: seq<Rows>, query: Vector, queryNorm: real, sqrt: real -> real,
                     partials: seq<seq<ArticleHit>>, best: map<string, ArticleHit>, k: nat, out: seq<ArticleHit>)
    requires WellPlaced(shards) && |partials| == |shards|
    requires forall i :: 0 <= i < |shards| ==> multiset(partials[i]) <= AllHits(shards[i], query, queryNorm, sqrt)
    requires IsBest(Flatten(partials), best) && IsMerged(best, k, out)
    ensures multiset(out) <= AllHits(Union(shards), query, queryNorm, sqrt)
    ensures IsTopK(multiset(Flatten(partials)), out, k) && Sorted(out, Precedes)
  {
    hide IsBest;
    hide IsMerged;
    hide AllHits;
    hide Union;
    hide DistinctHits;
    WellPlacedDisjoint(shards);
    WellPlacedKeyed(shards);
    HitsOfUnion(shards, query, queryNorm, sqrt);
    AllHitsDistinct(Union(shards), query, queryNorm, sqrt);
    FlattenIsPart(ShardHits(shards, query, queryNorm, sqrt), partials);
    MergeOfSent(AllHits(Union(shards), query, queryNorm, sqrt), Flatten(partials), best, k, out);
  }

  lemma PartIsStored(rows: Rows, query: Vector, queryNorm: real, sqrt: real -> real, out: seq<ArticleHit>)
    requires Keyed(rows) && multiset(out) <= AllHits(rows, query, queryNorm, sqrt)
    ensures forall h :: h in out ==> h.id in rows && h == HitOfArticle(rows[h.id], query, queryNorm, sqrt)
  {
    HitSetMembers(rows, query, queryNorm, sqrt);
    hide HitSet;
    hide HitOfArticle;
    forall h | h in out
      ensures h in HitSet(rows, query, queryNorm, sqrt)
    {
      assert h in multiset(out);
    }
  }

  // ---------- Another number of shards ----------

  /** The tables a coordinator opens when it is given another number of shards: it knows only so many, and
      those it does not find are empty. */
  ghost function Reopened(shards: seq<Rows>, numShards: nat): (r: seq<Rows>)
    ensures |r| == numShards
    ensures forall i :: 0 <= i < numShards ==> r[i] == if i < |shards| then shards[i] else map[]
  {
    seq(numShards, i requires 0 <= i < numShards => if i < |shards| then shards[i] else map[])
  }

  /** A stored article is then found under its id if and only if the id hashes to the shard it is on under
      either number; for a single shard reopened as two, this loses every id of odd hash. */
  lemma FoundAfterReopening(shards: seq<Rows>, numShards: nat, id: string)
    requires WellPlaced(shards) && |shards| > 0 && numShards > 0
    requires id in Union(shards)
    ensures 0 <= ShardOf(id, numShards) < numShards
    ensures id in Reopened(shards, numShards)[ShardOf(id, numShards)]
            <==> ShardOf(id, numShards) == ShardOf(id, |shards|)
    ensures |shards| == 1 && numShards == 2 ==>
              (id in Reopened(shards, 2)[ShardOf(id, 2)] <==> Magnitude(Wrap(Poly(id))) % 2 == 0)
  {
    hide Union;
    ShardInRange(id, numShards);
    FindInUnion(shards, id);
    var s := ShardOf(id, numShards);
    if id in Reopened(shards, numShards)[s] {
      assert id in shards[s];
    }
  }

  // ---------- Listings ----------

  lemma AppendListing(a: Rows, b: Rows, first: seq<Article>, second: seq<Article>)
    requires a.Keys !! b.Keys && IsListing(a, first) && IsListing(b, second)
    ensures IsListing(a + b, first + second)
  {
    var both := first + second;
    forall id | id in a + b
      ensures exists i :: 0 <= i < |both| && both[i].id == id
    {
      if id in b {
        var i :| 0 <= i < |second| && second[i].id == id;
        assert both[|first| + i].id == id;
      } else {
        var i :| 0 <= i < |first| && first[i].id == id;
        assert both[i].id == id;
      }
    }
  }

  lemma ListedOnce(rows: Rows, list: seq<Article>, a: Article)
    requires forall i, j :: 0 <= i < j < |list| ==> list[i].id != list[j].id
    ensures multiset(list)[a] <= 1
    decreases |list|
  {
    if list != [] {
      var n := |list| - 1;
      assert list == list[..n] + [list[n]];
      ListedOnce(rows, list[..n], a);
      if list[n] == a {
        assert a !in list[..n];
        assert multiset(list[..n])[a] == 0;
      }
    }
  }

  /** A listing stays one when it is put in another order. */
  lemma ListingPermuted(rows: Rows, list: seq<Article>, list': seq<Article>)
    requires IsListing(rows, list) && multiset(list) == multiset(list')
    ensures IsListing(rows, list')
  {
    forall i | 0 <= i < |list'|
      ensures list'[i].id in rows && rows[list'[i].id] == list'[i]
    {
      assert list'[i] in multiset(list);
    }
    forall i, j | 0 <= i < j < |list'|
      ensures list'[i].id != list'[j].id
    {
      CountsTwice(list', i, j);
      ListedOnce(rows, list, list'[i]);
    }
    forall id | id in rows
      ensures exists i :: 0 <= i < |list'| && list'[i].id == id
    {
      var i :| 0 <= i < |list| && list[i].id == id;
      assert list[i] in multiset(list');
      var j :| 0 <= j < |list'| && list'[j] == list[i];
    }
  }
}
