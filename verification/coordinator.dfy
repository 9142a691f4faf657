/** The coordinator of internal/coordinator/coordinator.go over in-process shards. */
module Coordination {
  import opened Dimensions
  import opened DocIds
  import opened Hnsw
  import opened IndexSpec
  import opened Merge
  import opened NodeSpec
  import opened Partition
  import opened Results
  import opened ShardNode
  import opened Sharding
  import opened Sorting
  import opened Storage
  import opened TopK
  import opened Vectors

  datatype CoordinatorError =
    | NilArticle
    | EmptyDocId
    | BadK
    | EmptyQuery
    | ArticleNotFound
    | ShardRefused(fault: NodeError)
    | QueryFailed(cause: IndexError)

  /** (shard, id) order, in which articles are listed. */
  predicate ListedBefore(a: Article, b: Article) {
    if a.shardID == b.shardID then StringLess(a.id, b.id) else a.shardID < b.shardID
  }

  // ---------- The shards together ----------

  ghost function FootprintOf(routes: seq<Node>): set<object> {
    (set i | 0 <= i < |routes| :: routes[i].store as object) + (set i | 0 <= i < |routes| :: routes[i].index as object)
  }

  /** The shards' states. */
  ghost function StatesOf(routes: seq<Node>): (r: seq<NodeState>)
    reads FootprintOf(routes)
    ensures |r| == |routes| && forall i :: 0 <= i < |r| ==> r[i] == routes[i].State()
  {
    if routes == [] then [] else
      var n := |routes| - 1;
      assert FootprintOf(routes[..n]) <= FootprintOf(routes);
      StatesOf(routes[..n]) + [routes[n].State()]
  }

  /** The shards' tables. */
  ghost function TablesOf(routes: seq<Node>): (r: seq<Rows>)
    reads FootprintOf(routes)
    ensures |r| == |routes| && forall i :: 0 <= i < |r| ==> r[i] == routes[i].State().articles
  {
    var states := StatesOf(routes);
    seq(|states|, i requires 0 <= i < |states| => states[i].articles)
  }

  /** No two shards share a store or an index. */
  ghost predicate Apart(routes: seq<Node>) {
    forall i, j :: 0 <= i < j < |routes| ==> routes[i].store != routes[j].store && routes[i].index != routes[j].index
  }

  /** All shards score with the same square root. */
  ghost predicate SameMetric(routes: seq<Node>, sqrt: real -> real) {
    forall i :: 0 <= i < |routes| ==> routes[i].index.sqrt == sqrt
  }

  ghost predicate AllValid(routes: seq<Node>)
    reads FootprintOf(routes)
  {
    forall i :: 0 <= i < |routes| ==> routes[i].Valid()
  }

  /** An insertion on one shard, seen from all of them. */
  method InsertOn(routes: seq<Node>, s: nat, a: Article) returns (err: Option<NodeError>)
    requires s < |routes| && Apart(routes) && AllValid(routes)
    modifies routes[s].store, routes[s].index
    ensures AllValid(routes)
    ensures err == InsertRefusal(old(routes[s].State()), a)
    ensures StatesOf(routes) == AfterPut(old(StatesOf(routes)), s, a)
    ensures TablesOf(routes) ==
              if err.None? then old(TablesOf(routes))[s := old(TablesOf(routes))[s][a.id := a]]
              else old(TablesOf(routes))
  {
    hide Node.Valid;
    ghost var before := StatesOf(routes);
    err := routes[s].InsertArticle(a);
    forall i | 0 <= i < |routes|
      ensures routes[i].Valid()
      ensures i != s ==> routes[i].State() == before[i]
    {
      assert i != s ==> routes[i].store != routes[s].store && routes[i].index != routes[s].index;
    }
  }

  /** A deletion on one shard, seen from all of them. */
  method DeleteOn(routes: seq<Node>, s: nat, id: string) returns (err: Option<NodeError>)
    requires s < |routes| && Apart(routes) && AllValid(routes)
    modifies routes[s].store, routes[s].index
    ensures AllValid(routes)
    ensures err == DeleteRefusal(old(routes[s].State()), id)
    ensures TablesOf(routes) ==
              if err.None? then old(TablesOf(routes))[s := old(TablesOf(routes))[s] - {id}] else old(TablesOf(routes))
  {
    hide Node.Valid;
    ghost var before := TablesOf(routes);
    err := routes[s].DeleteArticle(id);
    forall i | 0 <= i < |routes|
      ensures routes[i].Valid()
      ensures i != s ==> routes[i].State().articles == before[i]
    {
      assert i != s ==> routes[i].store != routes[s].store && routes[i].index != routes[s].index;
    }
  }

  class Coordinator {
    const shardMap: ShardMap
    const routes: seq<Node>
    ghost const sqrt: real -> real
    var nextDocID: nat

    ghost predicate Valid()
      reads this, FootprintOf(routes)
    {
      && |routes| == shardMap.numShards && |routes| > 0
      && Apart(routes) && AllValid(routes)
      && SameMetric(routes, sqrt)
      && WellPlaced(TablesOf(routes))
      && nextDocID <= MAX_UINT64
    }

    /** The one map that the shards together stand for. */
    ghost function All(): Rows
      reads FootprintOf(routes)
    {
      Union(TablesOf(routes))
    }

    /** No id that the counter will still generate is stored. */
    ghost predicate CounterOk()
      reads this, FootprintOf(routes)
    {
      Clear(nextDocID, All().Keys)
    }

    constructor (shardMap: ShardMap, routes: seq<Node>, ghost sqrt: real -> real)
      requires |routes| == shardMap.numShards && |routes| > 0
      requires Apart(routes) && AllValid(routes) && WellPlaced(TablesOf(routes))
      requires SameMetric(routes, sqrt)
      ensures Valid() && this.routes == routes && this.shardMap == shardMap && this.sqrt == sqrt
    {
      hide Node.Valid;
      hide WellPlaced;
      ghost var tables := TablesOf(routes);
      this.shardMap := shardMap;
      this.routes := routes;
      this.sqrt := sqrt;
      nextDocID := 0;
      new;
      assert TablesOf(routes) == tables && AllValid(routes);
    }

    /** Sets the counter to the largest number at the end of a stored generated-looking id. */
    method InitDocIDCounter()
      requires Valid()
      modifies this`nextDocID
      ensures Valid() && CounterOk() && Bounds(nextDocID, All().Keys)
      ensures TablesOf(routes) == old(TablesOf(routes))
      ensures nextDocID == 0 || exists id :: id in All() && Suffix(id) == Some(nextDocID)
    {
      hide Node.Valid;
      hide Apart;
      hide SameMetric;
      hide WellPlaced;
      hide IsListing;
      hide Union;
      hide Covers;
      hide Attains;
      var maxN := 0;
      ghost var tables := TablesOf(routes);
      CoversNothing(tables);
      for i := 0 to |routes|
        invariant 0 <= maxN <= MAX_UINT64
        invariant Covers(tables, i, maxN) && (maxN == 0 || Attains(tables, maxN))
      {
        assert TablesOf(routes) == tables && tables[i] == routes[i].State().articles;
        var articles := routes[i].ListArticles();
        var largest := LargestSuffix(tables[i], articles);
        CoversOneMore(tables, i, maxN, largest);
        if largest > maxN {
          maxN := largest;
        }
      }
      CoversUnion(tables, maxN);
      BoundIsClear(maxN, Union(tables).Keys);
      hide Bounds;
      hide Clear;
      hide Suffix;
      nextDocID := maxN;
      assert TablesOf(routes) == tables;
      assert AllValid(routes);
    }

    /** An article without an id gets the next generated one; the article goes to the shard of its id. The
        effect is that of an insertion into one map. While the shards agree on a dimension d, a well-formed
        article of that dimension is accepted exactly if its id is not taken, and they go on agreeing exactly if
        what they accept has that dimension. Ids still to be generated stay free exactly if a supplied id does
        not run ahead of the counter. */
    method Insert(article: Option<Article>, now: int) returns (r: Result<string, CoordinatorError>)
      requires Valid()
      modifies this`nextDocID, FootprintOf(routes)
      ensures Valid()
      ensures article.None? ==>
                r == Err(NilArticle) && StatesOf(routes) == old(StatesOf(routes)) && nextDocID == old(nextDocID)
      ensures article.Some? ==>
                var a := Completed(article.value, old(nextDocID), |routes|, now);
                && 0 <= a.shardID < |routes|
                && nextDocID == (if article.value.id == "" then Bump(old(nextDocID)) else old(nextDocID))
                && r == (match InsertRefusal(old(StatesOf(routes))[a.shardID], a)
                         case None => Ok(a.id)
                         case Some(fault) => Err(ShardRefused(fault)))
                && StatesOf(routes) == AfterPut(old(StatesOf(routes)), a.shardID, a)
                && All() == (if r.Ok? then old(All())[a.id := a] else old(All()))
                && (r.Ok? ==> a.id !in old(All()))
                && (a.id in old(All()) ==> r == Err(ShardRefused(DuplicateId(a.id))))
      ensures article.Some? ==>
                forall d: nat :: d > 0 && OneDimension(old(StatesOf(routes)), d) ==>
                  var a := Completed(article.value, old(nextDocID), |routes|, now);
                  && (VectorFault(a.vector).None? && |a.vector| == d ==> (r.Ok? <==> a.id !in old(All())))
                  && (OneDimension(StatesOf(routes), d) <==> r.Err? || |a.vector| == d)
      ensures article.Some? && old(CounterOk()) && (article.value.id == "" ==> old(nextDocID) < MAX_UINT64) ==>
                && (article.value.id == "" ==> DocId(nextDocID) !in old(All()))
                && (CounterOk() <==> r.Err? || !RunsAhead(old(nextDocID), article.value.id))
    {
      hide Node.Valid;
      hide WellPlaced;
      hide Union;
      hide AllValid;
      hide InsertRefusal;
      hide OneDimension;
      hide AfterPut;
      hide Clear;
      hide Apart;
      hide SameMetric;
      if article.None? {
        return Err(NilArticle);
      }
      ghost var states, keys := StatesOf(routes), All().Keys;
      var a := Complete(article.value, now);
      assert StatesOf(routes) == states && All().Keys == keys;
      var err := SendInsert(a);
      assert err.None? ==> All().Keys == keys + {a.id};
      CounterAfterInsert(old(nextDocID), keys, article.value.id, a.id, err.None?);
      OneIndexInsert(states, a.shardID, a);
      if err.Some? {
        return Err(ShardRefused(err.value));
      }
      return Ok(a.id);
    }

    /** Fills in what the caller left out: the id, the shard and the creation time. */
    method Complete(article: Article, now: int) returns (a: Article)
      requires Valid()
      modifies this`nextDocID
      ensures Valid() && StatesOf(routes) == old(StatesOf(routes)) && All() == old(All())
      ensures a == Completed(article, old(nextDocID), |routes|, now)
      ensures a.id == (if |article.id| > 0 then article.id else "doc-" + Decimal(nextDocID))
      ensures article.createdAt != 0 ==> a.createdAt == article.createdAt
      ensures article.createdAt == 0 ==> a.createdAt == now
      ensures a == article.(id := a.id, shardID := a.shardID, createdAt := a.createdAt)
      ensures nextDocID == if article.id == "" then Bump(old(nextDocID)) else old(nextDocID)
    {
      hide Node.Valid;
      hide WellPlaced;
      hide Union;
      hide Apart;
      ghost var tables, states := TablesOf(routes), StatesOf(routes);
      a := article;
      if a.id == "" {
        nextDocID := Bump(nextDocID);
        a := a.(id := DocId(nextDocID));
      }
      assert TablesOf(routes) == tables && StatesOf(routes) == states && AllValid(routes);
      var shardID := shardMap.GetShardForID(a.id);
      assert TablesOf(routes) == tables && StatesOf(routes) == states && AllValid(routes);
      a := a.(shardID := shardID);
      if a.createdAt == 0 {
        a := a.(createdAt := now);
      }
    }

    /** The insertion on the article's shard, seen in the one map. */
    method SendInsert(a: Article) returns (err: Option<NodeError>)
      requires Valid() && a.shardID == ShardOf(a.id, |routes|)
      modifies FootprintOf(routes)
      ensures Valid() && 0 <= a.shardID < |routes|
      ensures err == InsertRefusal(old(StatesOf(routes))[a.shardID], a)
      ensures StatesOf(routes) == AfterPut(old(StatesOf(routes)), a.shardID, a)
      ensures a.id in old(All()) <==> a.id in old(StatesOf(routes))[a.shardID].articles
      ensures All() == if err.None? then old(All())[a.id := a] else old(All())
      ensures err.None? ==> a.id !in old(All())
      ensures a.id in old(All()) ==> err == Some(DuplicateId(a.id))
    {
      hide Node.Valid;
      hide WellPlaced;
      hide Union;
      hide InsertRefusal;
      ghost var tables := TablesOf(routes);
      PutInUnion(tables, a);
      FindInUnion(tables, a.id);
      assert tables[a.shardID] == routes[a.shardID].State().articles;
      RefusesTakenId(routes[a.shardID].State(), a);
      err := InsertOn(routes, a.shardID, a);
    }

    /** A get is a lookup in the one map. */
    method Get(id: string) returns (r: Result<Article, CoordinatorError>)
      requires Valid()
      ensures r == if id == "" then Err(EmptyDocId) else if id in All() then Ok(All()[id]) else Err(ArticleNotFound)
    {
      hide Node.Valid;
      hide WellPlaced;
      hide Union;
      if id == "" {
        return Err(EmptyDocId);
      }
      ghost var tables := TablesOf(routes);
      FindInUnion(tables, id);
      var s := shardMap.GetShardForID(id);
      assert TablesOf(routes) == tables;
      var a := routes[s].GetArticle(id);
      assert TablesOf(routes) == tables;
      assert tables[s] == routes[s].State().articles;
      if a.None? {
        return Err(ArticleNotFound);
      }
      return Ok(a.value);
    }

    /** A delete removes the id from the one map. */
    method Delete(id: string) returns (r: Option<CoordinatorError>)
      requires Valid()
      modifies FootprintOf(routes)
      ensures Valid()
      ensures r == if id == "" then Some(EmptyDocId) else if id in old(All()) then None
                else Some(ShardRefused(Missing(id)))
      ensures All() == if r.None? then old(All()) - {id} else old(All())
      ensures old(CounterOk()) ==> CounterOk()
    {
      hide Node.Valid;
      hide WellPlaced;
      hide Union;
      if id == "" {
        return Some(EmptyDocId);
      }
      FindInUnion(TablesOf(routes), id);
      RemoveFromUnion(TablesOf(routes), id);
      var s := shardMap.GetShardForID(id);
      var err := DeleteOn(routes, s, id);
      if err.Some? {
        return Some(ShardRefused(err.value));
      }
      return None;
    }

    /** Every shard's index answers exactly: its layer 0 has never been pruned and the beam is as wide as
        its graph. */
    ghost predicate AllExact(k: int)
      reads FootprintOf(routes)
    {
      forall i :: 0 <= i < |routes| ==>
          && 0 !in routes[i].index.overflowed
          && (routes[i].index.efSearch >= |routes[i].index.nodes| || k >= |routes[i].index.nodes|)
    }

    /** One answer of every shard's index. */
    ghost predicate ShardsAnswer(query: Vector, k: nat, partials: seq<seq<ArticleHit>>)
      reads FootprintOf(routes)
    {
      |partials| == |routes| && forall i :: 0 <= i < |routes| ==> routes[i].Answers(query, k, partials[i])
    }

    /** The merge of one answer per shard: of everything the shards sent, the best k. */
    ghost predicate IsMergeOfAnswers(query: Vector, k: nat, partials: seq<seq<ArticleHit>>, out: seq<ArticleHit>)
      reads FootprintOf(routes)
    {
      && ShardsAnswer(query, k, partials)
      && (exists best :: IsBest(Flatten(partials), best) && IsMerged(best, k, out))
      && MergesTo(partials, k, out)
      && IsTopK(multiset(Flatten(partials)), out, k)
    }

    /** Asks every shard for its k best and merges. It fails exactly if some shard does, with such a shard's
        error; the hits are of different stored articles with their true scores, ranked by score and id, and
        are the best k of all that the shards' indexes answered; they are an exact top-k of the one map if every
        shard is exact. */
    method Query(query: Vector, k: int) returns (r: Result<seq<ArticleHit>, CoordinatorError>)
      requires Valid()
      ensures k <= 0 ==> r == Err(BadK)
      ensures k > 0 && query == [] ==> r == Err(EmptyQuery)
      ensures k > 0 && query != [] ==> (r.Ok? <==> AllAnswer(StatesOf(routes), query))
      ensures k > 0 && query != [] && r.Err? ==>
                exists i :: 0 <= i < |routes| && QueryRefusal(StatesOf(routes)[i], query).Some?
                            && r == Err(QueryFailed(QueryRefusal(StatesOf(routes)[i], query).value))
      ensures r.Ok? ==> exists partials :: IsMergeOfAnswers(query, k, partials, r.value)
      ensures r.Ok? ==> multiset(r.value) <= AllHits(All(), query, sqrt(Dot(query, query)), sqrt)
      ensures r.Ok? ==>
                forall h :: h in r.value ==>
                    && h.id in All() && h.payload == All()[h.id]
                    && h.score == Cosine(query, sqrt(Dot(query, query)), h.payload.vector,
                                         sqrt(Dot(h.payload.vector, h.payload.vector)))
      ensures r.Ok? ==>
                forall i, j :: 0 <= i < j < |r.value| ==>
                    && r.value[i].id != r.value[j].id
                    && (|| r.value[i].score > r.value[j].score
                        || (r.value[i].score == r.value[j].score && AheadOf(r.value[i].id, r.value[j].id)))
      ensures r.Ok? && AllExact(k) ==> IsTopK(AllHits(All(), query, sqrt(Dot(query, query)), sqrt), r.value, k)
    {
      hide IsTopK;
      hide Node.Valid;
      hide WellPlaced;
      hide Union;
      hide AllHits;
      hide HitOfArticle;
      hide IsMergeOfAnswers;
      hide QueryRefusal;
      hide SentSoFar;
      hide AllExact;
      hide Apart;
      hide AheadOf;
      if k <= 0 {
        return Err(BadK);
      }
      if |query| == 0 {
        return Err(EmptyQuery);
      }
      ghost var states, tables := StatesOf(routes), TablesOf(routes);
      var gathered := Gather(query, k);
      assert StatesOf(routes) == states && TablesOf(routes) == tables && AllValid(routes);
      if gathered.Err? {
        return Err(QueryFailed(gathered.error));
      }
      var out := MergeSent(query, k, gathered.value);
      assert StatesOf(routes) == states && TablesOf(routes) == tables;
      HitIsScored(query, sqrt(Dot(query, query)), sqrt);
      return Ok(out);
    }

    /** Merges what the shards sent. */
    method MergeSent(query: Vector, k: int, partials: seq<seq<ArticleHit>>) returns (out: seq<ArticleHit>)
      requires Valid() && k > 0
      requires |partials| == |routes| && SentSoFar(query, k, partials)
      ensures IsMergeOfAnswers(query, k, partials, out)
      ensures InRank(out) && (forall i, j :: 0 <= i < j < |out| ==> out[i].id != out[j].id)
      ensures multiset(out) <= AllHits(All(), query, sqrt(Dot(query, query)), sqrt)
      ensures forall h :: h in out ==>
                h.id in All() && h == HitOfArticle(All()[h.id], query, sqrt(Dot(query, query)), sqrt)
      ensures AllExact(k) ==> IsTopK(AllHits(All(), query, sqrt(Dot(query, query)), sqrt), out, k)
    {
      hide IsTopK;
      hide Node.Valid;
      hide WellPlaced;
      hide Union;
      hide AllHits;
      hide HitOfArticle;
      hide IsMergeOfAnswers;
      hide IsMerged;
      hide IsBest;
      hide Node.Answers;
      hide Apart;
      hide InRank;
      hide WasSent;
      hide IsCovered;
      ghost var tables := TablesOf(routes);
      out := MergeSearchResults(partials, k);
      assert TablesOf(routes) == tables && AllValid(routes);
      assert SentSoFar(query, k, partials);
      ghost var best :| IsBest(Flatten(partials), best) && IsMerged(best, k, out);
      MergeOutcome(query, k, partials, best, out);
    }

    lemma MergeOutcome(query: Vector, k: nat, partials: seq<seq<ArticleHit>>, best: map<string, ArticleHit>,
                       out: seq<ArticleHit>)
      requires Valid()
      requires |partials| == |routes| && SentSoFar(query, k, partials)
      requires IsBest(Flatten(partials), best) && IsMerged(best, k, out)
      ensures IsMergeOfAnswers(query, k, partials, out)
      ensures var norm := sqrt(Dot(query, query));
              && multiset(out) <= AllHits(All(), query, norm, sqrt)
              && (forall h :: h in out ==> h.id in All() && h == HitOfArticle(All()[h.id], query, norm, sqrt))
              && (AllExact(k) ==> IsTopK(AllHits(All(), query, norm, sqrt), out, k))
    {
      hide IsTopK;
      hide Node.Valid;
      hide WellPlaced;
      hide Union;
      hide AllHits;
      hide HitOfArticle;
      hide IsMerged;
      hide IsBest;
      hide ShardsAnswer;
      hide AllExact;
      hide MergesTo;
      hide SentSoFar;
      MergePositions(partials, best, k, out);
      var tables, norm := TablesOf(routes), sqrt(Dot(query, query));
      AllSent(query, k, partials);
      GatherIsPart(tables, query, norm, sqrt, partials, best, k, out);
      UnionKeyed(tables);
      PartIsStored(Union(tables), query, norm, sqrt, out);
      if AllExact(k) {
        GatherIsExact(tables, query, norm, sqrt, partials, best, k, out);
      }
    }

    /** What a shard sends: an answer of its index, which is hits of its articles, and an exact top-k of them if
        the index is exact. */
    ghost predicate Sent(i: nat, query: Vector, k: nat, hits: seq<ArticleHit>)
      requires i < |routes|
      reads FootprintOf(routes)
    {
      var all := AllHits(TablesOf(routes)[i], query, sqrt(Dot(query, query)), sqrt);
      && routes[i].Answers(query, k, hits)
      && multiset(hits) <= all
      && (AllExact(k) ==> IsTopK(all, hits, k))
    }

    ghost predicate SentSoFar(query: Vector, k: nat, partials: seq<seq<ArticleHit>>)
      reads FootprintOf(routes)
    {
      |partials| <= |routes| && forall i :: 0 <= i < |partials| ==> Sent(i, query, k, partials[i])
    }

    /** The call to one shard. */
    method Ask(i: nat, query: Vector, k: int, ghost partials: seq<seq<ArticleHit>>)
      returns (local: Result<seq<ArticleHit>, IndexError>)
      requires Valid() && k > 0 && i < |routes|
      ensures match QueryRefusal(StatesOf(routes)[i], query)
              case Some(fault) => local == Err(fault)
              case None => local.Ok? && Sent(i, query, k, local.value)
      ensures Valid() && StatesOf(routes) == old(StatesOf(routes))
      ensures old(SentSoFar(query, k, partials)) ==> SentSoFar(query, k, partials)
    {
      hide IsTopK;
      hide Node.Valid;
      hide Node.Answers;
      hide WellPlaced;
      hide AllHits;
      hide Apart;
      hide QueryRefusal;
      hide Descending;
      ghost var states, tables := StatesOf(routes), TablesOf(routes);
      local := routes[i].SearchSimilar(query, k);
      assert StatesOf(routes) == states && TablesOf(routes) == tables && AllValid(routes);
    }

    lemma AllSent(query: Vector, k: nat, partials: seq<seq<ArticleHit>>)
      requires |partials| == |routes| && SentSoFar(query, k, partials)
      ensures var norm := sqrt(Dot(query, query));
              && ShardsAnswer(query, k, partials)
              && (forall i :: 0 <= i < |routes| ==>
                  multiset(partials[i]) <= AllHits(TablesOf(routes)[i], query, norm, sqrt))
              && (AllExact(k) ==> forall i :: 0 <= i < |routes| ==>
                  IsTopK(AllHits(TablesOf(routes)[i], query, norm, sqrt), partials[i], k))
    {
      hide IsTopK;
      hide Node.Answers;
      hide AllHits;
      hide AllExact;
    }

    /** The fan-out: one answer per shard, or the first error. */
    method Gather(query: Vector, k: int) returns (r: Result<seq<seq<ArticleHit>>, IndexError>)
      requires Valid() && k > 0
      ensures r.Ok? <==> AllAnswer(StatesOf(routes), query)
      ensures r.Err? ==> exists i :: 0 <= i < |routes| && QueryRefusal(StatesOf(routes)[i], query) == Some(r.error)
      ensures r.Ok? ==> |r.value| == |routes| && SentSoFar(query, k, r.value)
    {
      hide Sent;
      hide Node.Valid;
      hide WellPlaced;
      hide Apart;
      hide SameMetric;
      hide QueryRefusal;
      ghost var states := StatesOf(routes);
      var partials: seq<seq<ArticleHit>> := [];
      var firstErr: Option<IndexError> := None;
      for i := 0 to |routes|
        invariant |partials| == i
        invariant Valid() && StatesOf(routes) == states
        invariant firstErr.None? <==> forall j :: 0 <= j < i ==> QueryRefusal(states[j], query).None?
        invariant firstErr.Some? ==> exists j :: 0 <= j < i && QueryRefusal(states[j], query) == firstErr
        invariant firstErr.None? ==> SentSoFar(query, k, partials)
      {
        var local := Ask(i, query, k, partials);
        if local.Ok? {
          partials := partials + [local.value];
        } else {
          partials := partials + [[]];
          if firstErr.None? {
            firstErr := Some(local.error);
          }
        }
      }
      if firstErr.Some? {
        return Err(firstErr.value);
      }
      return Ok(partials);
    }

    /** Every article once, by shard number and on a shard by id in dictionary order. */
    method ListArticles() returns (list: seq<Article>)
      requires Valid()
      ensures IsListing(All(), list)
      ensures forall i, j :: 0 <= i < j < |list| ==>
                list[i].shardID < list[j].shardID
                || (list[i].shardID == list[j].shardID && AheadOf(list[i].id, list[j].id))
    {
      hide Node.Valid;
      hide WellPlaced;
      hide IsListing;
      ghost var tables := TablesOf(routes);
      WellPlacedDisjoint(tables);
      var all: seq<Article> := [];
      NothingListed();
      for i := 0 to |routes|
        invariant IsListing(Union(tables[..i]), all)
      {
        var part := routes[i].ListArticles();
        assert tables[i] == routes[i].State().articles;
        ListOneMore(tables, i, all, part);
        all := all + part;
      }
      assert tables[..|routes|] == tables;
      ListedBeforeIsWeakOrder();
      list := SortSlice(all, ListedBefore);
      assert TablesOf(routes) == tables;
      ListingPermuted(Union(tables), all, list);
      ListedInOrder(Union(tables), list);
    }
  }

  /** The tables of the shards' stores. */
  ghost function StoredTables(stores: seq<Store>): (r: seq<Rows>)
    reads stores
    ensures |r| == |stores| && forall i :: 0 <= i < |r| ==> r[i] == stores[i].rows
  {
    if stores == [] then [] else StoredTables(stores[..|stores| - 1]) + [stores[|stores| - 1].rows]
  }

  /** The nodes serve what the stores hold. */
  ghost predicate Opened(routes: seq<Node>, stores: seq<Store>, sqrt: real -> real)
    reads FootprintOf(routes), stores
  {
    && |routes| <= |stores|
    && (forall i :: 0 <= i < |routes| ==> routes[i].store == stores[i])
    && AllValid(routes) && SameMetric(routes, sqrt) && Apart(routes)
  }

  /** One node opened on each store. */
  method OpenShards(stores: seq<Store>, cfg: Config, sqrt: real -> real, levels: nat -> nat, text: Article -> string)
    returns (r: Result<seq<Node>, NodeError>)
    requires IsSqrt(sqrt)
    requires forall i, j :: 0 <= i < j < |stores| ==> stores[i] != stores[j]
    requires forall i :: 0 <= i < |stores| ==> Keyed(stores[i].rows)
    ensures r.Ok? <==> forall i :: 0 <= i < |stores| ==> Rebuildable(stores[i].rows)
    ensures r.Ok? ==> |r.value| == |stores| && Opened(r.value, stores, sqrt)
  {
    hide Node.Valid;
    hide Rebuildable;
    hide IsSqrt;
    hide Keyed;
    hide Restarted;
    hide NodeOk;
    var routes: seq<Node> := [];
    for i := 0 to |stores|
      invariant |routes| == i && Opened(routes, stores, sqrt)
      invariant forall j :: 0 <= j < i ==> Rebuildable(stores[j].rows)
    {
      var node := OpenNode(true, stores[i], cfg, sqrt, levels, text);
      if node.Err? {
        return Err(node.error);
      }
      assert AllValid(routes);
      routes := routes + [node.value];
    }
    return Ok(routes);
  }

  /** The coordinator over opened nodes, its counter set. */
  method StartCoordinator(routes: seq<Node>, ghost sqrt: real -> real) returns (c: Coordinator)
    requires |routes| > 0 && Apart(routes) && AllValid(routes) && WellPlaced(TablesOf(routes))
             && SameMetric(routes, sqrt)
    ensures fresh(c) && c.Valid() && c.routes == routes && c.CounterOk()
    ensures TablesOf(routes) == old(TablesOf(routes)) && c.All() == Union(TablesOf(routes))
  {
    hide Node.Valid;
    hide WellPlaced;
    hide Union;
    hide Clear;
    hide Bounds;
    hide Suffix;
    ghost var tables := TablesOf(routes);
    var shardMap := new ShardMap(|routes|);
    assert TablesOf(routes) == tables && AllValid(routes);
    c := new Coordinator(shardMap, routes, sqrt);
    assert TablesOf(routes) == tables;
    c.InitDocIDCounter();
    assert TablesOf(routes) == tables;
  }

  /** Starting a coordinator over the shards' stores: one node opened on each, then the counter. It succeeds
      exactly if every store can be rebuilt into an index, and then serves what the stores hold. */
  method OpenCoordinator(stores: seq<Store>, cfg: Config, sqrt: real -> real, levels: nat -> nat,
                         text: Article -> string)
    returns (r: Result<Coordinator, NodeError>)
    requires |stores| > 0 && IsSqrt(sqrt)
    requires forall i, j :: 0 <= i < j < |stores| ==> stores[i] != stores[j]
    requires WellPlaced(StoredTables(stores))
    ensures r.Ok? <==> forall i :: 0 <= i < |stores| ==> Rebuildable(stores[i].rows)
    ensures r.Ok? ==> fresh(r.value) && r.value.Valid() && |r.value.routes| == |stores|
    ensures r.Ok? ==> r.value.All() == Union(StoredTables(stores)) && r.value.CounterOk()
  {
    hide Node.Valid;
    hide Union;
    hide Rebuildable;
    hide Clear;
    hide Bounds;
    hide Suffix;
    hide IsSqrt;
    ghost var tables := StoredTables(stores);
    WellPlacedKeyed(tables);
    hide WellPlaced;
    var nodes := OpenShards(stores, cfg, sqrt, levels, text);
    if nodes.Err? {
      return Err(nodes.error);
    }
    assert TablesOf(nodes.value) == tables;
    var c := StartCoordinator(nodes.value, sqrt);
    assert TablesOf(nodes.value) == tables && StoredTables(stores) == tables;
    return Ok(c);
  }

  lemma NothingListed()
    ensures IsListing(Union([]), [])
  {
  }

  lemma ListOneMore(tables: seq<Rows>, i: nat, all: seq<Article>, part: seq<Article>)
    requires i < |tables| && DisjointRows(tables)
    requires IsListing(Union(tables[..i]), all) && IsListing(tables[i], part)
    ensures IsListing(Union(tables[..i + 1]), all + part)
  {
    LastApart(tables[..i + 1]);
    assert tables[..i + 1][..i] == tables[..i];
    AppendListing(Union(tables[..i]), tables[i], all, part);
  }

  lemma ListedInOrder(rows: Rows, list: seq<Article>)
    requires IsListing(rows, list) && Sorted(list, ListedBefore)
    ensures forall i, j :: 0 <= i < j < |list| ==>
              list[i].shardID < list[j].shardID
              || (list[i].shardID == list[j].shardID && AheadOf(list[i].id, list[j].id))
  {
    forall i, j | 0 <= i < j < |list|
      ensures list[i].shardID < list[j].shardID
              || (list[i].shardID == list[j].shardID && AheadOf(list[i].id, list[j].id))
    {
      StringLessExactly(list[i].id, list[j].id);
      StringLessTotal(list[i].id, list[j].id);
    }
  }

  lemma ListedBeforeIsWeakOrder()
    ensures WeakOrder(ListedBefore)
  {
    forall a, b | ListedBefore(a, b)
      ensures !ListedBefore(b, a)
    {
      StringLessAsymmetric(a.id, b.id);
    }
    forall a, b, c | !ListedBefore(a, b) && !ListedBefore(b, c)
      ensures !ListedBefore(a, c)
    {
      if a.shardID == b.shardID == c.shardID {
        StringLessNegTransitive(a.id, b.id, c.id);
      }
    }
  }

  lemma HitIsScored(query: Vector, queryNorm: real, sqrt: real -> real)
    ensures forall a, h :: h == HitOfArticle(a, query, queryNorm, sqrt) ==>
              h.payload == a && h.score == Cosine(query, queryNorm, a.vector, sqrt(Dot(a.vector, a.vector)))
  {
  }

  lemma UnionKeyed(tables: seq<Rows>)
    requires WellPlaced(tables)
    ensures Keyed(Union(tables))
  {
    WellPlacedDisjoint(tables);
    UnionRows(tables);
  }

  /** The article as it is sent to its shard. */
  ghost function Completed(a: Article, counter: nat, numShards: int, now: int): Article {
    var id := if a.id == "" then DocId(Bump(counter)) else a.id;
    a.(id := id, shardID := ShardOf(id, numShards), createdAt := if a.createdAt == 0 then now else a.createdAt)
  }

  /** What the caller supplied stays: a creation time that is not 0, an id that is not empty and every other field. */
  lemma CompletedKeeps(a: Article, counter: nat, numShards: int, now: int)
    ensures var c := Completed(a, counter, numShards, now);
            && (|a.id| > 0 ==> c.id == a.id)
            && (|a.id| == 0 && counter < MAX_UINT64 ==> c.id == "doc-" + Decimal(counter + 1))
            && (|a.id| == 0 && counter == MAX_UINT64 ==> c.id == "doc-" + Decimal(0))
            && (a.createdAt != 0 ==> c.createdAt == a.createdAt) && (a.createdAt == 0 ==> c.createdAt == now)
            && c.url == a.url && c.headline == a.headline && c.summary == a.summary && c.content == a.content
            && c.vector == a.vector && c.shardID == ShardOf(c.id, numShards)
  {
    assert PREFIX == "doc-";
  }

  lemma RefusesTakenId(s: NodeState, a: Article)
    ensures a.id in s.articles ==> InsertRefusal(s, a) == Some(DuplicateId(a.id))
  {
  }

  /** The counter after an insertion, given the id the caller supplied and the id used. */
  lemma CounterAfterInsert(counter: nat, keys: set<string>, supplied: string, id: string, stored: bool)
    requires id == if supplied == "" then DocId(Bump(counter)) else supplied
    ensures Clear(counter, keys) && (supplied == "" ==> counter < MAX_UINT64) ==>
              var counter' := if supplied == "" then Bump(counter) else counter;
              && (supplied == "" ==> id !in keys)
              && Clear(counter', keys)
              && (Clear(counter', keys + {id}) <==> !RunsAhead(counter, supplied))
  {
    if Clear(counter, keys) {
      if supplied == "" {
        if counter < MAX_UINT64 {
          GeneratedIsFresh(counter, keys);
        }
      } else {
        SuppliedKeepsClear(counter, keys, id);
      }
    }
  }

  lemma OneIndexInsert(states: seq<NodeState>, s: nat, a: Article)
    requires s < |states| && a.id != ""
    ensures forall d: nat :: d > 0 && OneDimension(states, d) ==>
              && (VectorFault(a.vector).None? && |a.vector| == d ==>
                  (InsertRefusal(states[s], a).None? <==> a.id !in states[s].articles))
              && (OneDimension(AfterPut(states, s, a), d) <==> InsertRefusal(states[s], a).Some? || |a.vector| == d)
  {
    hide InsertRefusal;
    hide AfterPut;
    hide OneDimension;
    forall d: nat | d > 0 && OneDimension(states, d)
      ensures VectorFault(a.vector).None? && |a.vector| == d ==>
                (InsertRefusal(states[s], a).None? <==> a.id !in states[s].articles)
      ensures OneDimension(AfterPut(states, s, a), d) <==> InsertRefusal(states[s], a).Some? || |a.vector| == d
    {
      AgreementAfterPut(states, d, s, a);
      if VectorFault(a.vector).None? && |a.vector| == d {
        AcceptsLikeOneMap(states, d, s, a);
      }
    }
  }

  /** The bound holds for the ids of the first n shards. */
  ghost predicate Covers(tables: seq<Rows>, n: nat, bound: nat) {
    forall i, id {:trigger id in tables[i]} :: 0 <= i < n && i < |tables| && id in tables[i] && Suffix(id).Some? ==>
        Suffix(id).value <= bound
  }

  /** Some stored id ends in the number. */
  ghost predicate Attains(tables: seq<Rows>, n: nat) {
    exists i, id {:trigger id in tables[i]} :: 0 <= i < |tables| && id in tables[i] && Suffix(id) == Some(n)
  }

  lemma CoversNothing(tables: seq<Rows>)
    ensures Covers(tables, 0, 0)
  {
  }

  lemma CoversOneMore(tables: seq<Rows>, n: nat, bound: nat, largest: nat)
    requires n < |tables| && Covers(tables, n, bound) && (bound == 0 || Attains(tables, bound))
    requires forall id :: id in tables[n] && Suffix(id).Some? ==> Suffix(id).value <= largest
    requires largest == 0 || exists id :: id in tables[n] && Suffix(id) == Some(largest)
    ensures var more := if largest > bound then largest else bound;
            Covers(tables, n + 1, more) && (more == 0 || Attains(tables, more))
  {
    if largest > bound {
      var id :| id in tables[n] && Suffix(id) == Some(largest);
      assert Attains(tables, largest);
    }
  }

  lemma CoversUnion(tables: seq<Rows>, bound: nat)
    requires WellPlaced(tables) && Covers(tables, |tables|, bound)
    requires bound == 0 || Attains(tables, bound)
    ensures Bounds(bound, Union(tables).Keys)
    ensures bound == 0 || exists id :: id in Union(tables) && Suffix(id) == Some(bound)
  {
    WellPlacedDisjoint(tables);
    UnionRows(tables);
    hide WellPlaced;
    hide Union;
    if bound > 0 {
      var i, id :| 0 <= i < |tables| && id in tables[i] && Suffix(id) == Some(bound);
      assert id in Union(tables);
    }
  }

  /** The inner loop of the counter's initialisation. */
  method LargestSuffix(ghost rows: Rows, articles: seq<Article>) returns (largest: nat)
    requires IsListing(rows, articles)
    ensures largest <= MAX_UINT64
    ensures forall id :: id in rows && Suffix(id).Some? ==> Suffix(id).value <= largest
    ensures largest == 0 || exists id :: id in rows && Suffix(id) == Some(largest)
  {
    largest := 0;
    for i := 0 to |articles|
      invariant largest <= MAX_UINT64
      invariant forall j :: 0 <= j < i && Suffix(articles[j].id).Some? ==> Suffix(articles[j].id).value <= largest
      invariant largest == 0 || exists id :: id in rows && Suffix(id) == Some(largest)
    {
      var n := Suffix(articles[i].id);
      if n.Some? && n.value > largest {
        largest := n.value;
      }
    }
  }
}
