/** The shard node of internal/shard/node.go: a store and an index kept in step. */
module ShardNode {
  import opened Answers
  import opened Graph
  import opened Hnsw
  import opened IndexSpec
  import opened NodeSpec
  import opened Results
  import opened Storage
  import opened TopK
  import opened Vectors

  /** The stored articles are ones an index can be rebuilt from. */
  ghost predicate Rebuildable(rows: Rows) {
    && (forall id :: id in rows ==> id != "" && VectorFault(rows[id].vector).None?)
    && (forall id, id' :: id in rows && id' in rows ==> |rows[id].vector| == |rows[id'].vector|)
  }

  ghost function RecordsOfList(list: seq<Article>, text: Article -> string): (r: seq<Record>)
    ensures |r| == |list| && forall i :: 0 <= i < |r| ==> r[i] == RecordOf(list[i], text)
  {
    seq(|list|, i requires 0 <= i < |list| => RecordOf(list[i], text))
  }

  class Node {
    const isPrimary: bool
    const store: Store
    const index: HnswIndex
    const text: Article -> string  // the text an article is indexed under

    ghost predicate Valid()
      reads store, index
    {
      && index.Valid() && index.IdsOk()
      && InStep(store.rows, index.State().records, text)
      && NodeOk(State())
    }

    ghost function State(): NodeState
      reads store, index
    {
      NodeState(index.dimension, store.rows)
    }

    /** A node over an existing store, with an empty index. */
    constructor (isPrimary: bool, store: Store, cfg: Config, sqrt: real -> real, levels: nat -> nat,
                 text: Article -> string)
      requires IsSqrt(sqrt)
      ensures this.isPrimary == isPrimary && this.store == store && this.text == text
      ensures fresh(index) && index.Valid() && index.IdsOk() && index.State() == IndexState(0, []) && index.sqrt == sqrt
    {
      this.isPrimary := isPrimary;
      this.store := store;
      this.index := new HnswIndex(cfg, sqrt, levels);
      this.text := text;
    }

    /** Fills the empty index from the store. It fails exactly if the store holds something the index
        would have refused; otherwise the node ends up in step. */
    method HydrateIndex() returns (err: Option<NodeError>)
      requires Keyed(store.rows)
      requires index.Valid() && index.IdsOk() && index.State() == IndexState(0, [])
      modifies index
      ensures err.None? <==> Rebuildable(store.rows)
      ensures err.None? ==> Valid() && (store.rows == map[] ==> State().dimension == 0)
    {
      hide HnswIndex.Valid;
      hide HnswIndex.IdsOk;
      hide HnswIndex.State;
      hide InStep;
      hide Rebuildable;
      hide Taken;
      var list := store.GetAll();
      NothingTaken(list, text);
      for i := 0 to |list|
        invariant index.Valid() && index.IdsOk()
        invariant Taken(list, i, text, index.State())
      {
        var a := list[i];
        ghost var s := index.State();
        NotYetIndexed(list, i, text, a.id);
        TakeOneMore(store.rows, list, i, text, s);
        assert !HasId(s.records, a.id);
        NotLiveNotMapped(index, a.id);
        var fault := index.Insert(a.id, text(a), a.vector);
        if fault.Some? {
          return Some(IndexInsert(fault.value));
        }
      }
      AllTaken(list, text, index.State());
      AllAccepted(store.rows, list, index.State().dimension);
      ListingInStep(store.rows, list, text);
      DimensionOf(index);
      assert |list| > 0 ==> list[0].id in store.rows;
      return None;
    }

    /** Store first, then index; if the index refuses, the row is taken out again. */
    method InsertArticle(a: Article) returns (err: Option<NodeError>)
      requires Valid()
      modifies store, index
      ensures Valid()
      ensures err == InsertRefusal(old(State()), a)
      ensures State() == Inserted(old(State()), a)
      ensures index.efSearch == old(index.efSearch)
    {
      hide InStep;
      hide NodeOk;
      hide HnswIndex.Valid;
      hide HnswIndex.IdsOk;
      hide LiveRecords;
      DimensionOf(index);
      ghost var before := State();
      var ok := store.Insert(a);
      if !ok {
        return Some(DuplicateId(a.id));
      }
      InStepIds(before.articles, index.State().records, text, a.id);
      NotLiveNotMapped(index, a.id);
      InStepAfterInsert(before.articles, index.State().records, a, text);
      InsertedOk(before, a);
      var fault := index.Insert(a.id, text(a), a.vector);
      DimensionOf(index);
      if fault.Some? {
        store.Delete(a.id);
        assert before.articles[a.id := a] - {a.id} == before.articles;
        return Some(IndexInsert(fault.value));
      }
      return None;
    }

    method GetArticle(id: string) returns (a: Option<Article>)
      ensures a == if id in State().articles then Some(State().articles[id]) else None
    {
      a := store.Get(id);
    }

    method DeleteArticle(id: string) returns (err: Option<NodeError>)
      requires Valid()
      modifies store, index
      ensures Valid()
      ensures err == DeleteRefusal(old(State()), id)
      ensures State() == if err.None? then Deleted(old(State()), id) else old(State())
      ensures index.efSearch == old(index.efSearch)
    {
      hide InStep;
      hide NodeOk;
      hide HnswIndex.Valid;
      hide HnswIndex.IdsOk;
      hide LiveRecords;
      DimensionOf(index);
      ghost var before := State();
      var article := store.Get(id);
      if article.None? {
        return Some(Missing(id));
      }
      InStepIds(before.articles, index.State().records, text, id);
      InStepAfterDelete(before.articles, index.State().records, id, text);
      DeletedOk(before, id);
      store.Delete(id);
      var fault := index.Delete(id);
      DimensionOf(index);
      assert fault.None?;
      return None;
    }

    method ListArticles() returns (list: seq<Article>)
      requires Valid()
      ensures IsListing(State().articles, list)
    {
      assert Keyed(store.rows);
      list := store.GetAll();
    }

    /** The hits are an answer of the index with its articles loaded. */
    ghost predicate Answers(query: Vector, k: nat, hits: seq<ArticleHit>)
      reads store, index
    {
      if index.nodes == [] then hits == []
      else exists found: seq<TextHit> ::
          && IsAnswer(index.nodes, query, index.NormOf(query), index.entryPoint, index.maxLevel, index.BeamWidth(k), k,
                      found)
          && |hits| == |found|
          && forall i :: 0 <= i < |hits| ==>
               found[i].id in store.rows && hits[i] == Hit(found[i].id, store.rows[found[i].id], found[i].score)
    }

    /** Index hits with their articles. No hit is lost for want of a row; the hits are hits of different
        stored articles with their true scores, and an exact index answer stays exact. */
    method SearchSimilar(query: Vector, k: int) returns (r: Result<seq<ArticleHit>, IndexError>)
      requires Valid()
      ensures k <= 0 ==> r == Ok([])
      ensures k > 0 ==> match QueryRefusal(State(), query)
                        case Some(fault) => r == Err(fault)
                        case None => r.Ok? && Answers(query, k, r.value) && Descending(r.value) && |r.value| <= k
      ensures r.Ok? ==> multiset(r.value) <= AllHits(State().articles, query, index.NormOf(query), index.sqrt)
      ensures r.Ok? && k > 0 && 0 !in index.overflowed && (index.efSearch >= |index.nodes| || k >= |index.nodes|) ==>
                IsTopK(AllHits(State().articles, query, index.NormOf(query), index.sqrt), r.value, k)
    {
      hide IsAnswer;
      hide IsTopK;
      hide HnswIndex.Valid;
      hide InStep;
      hide RecordHits;
      hide AllHits;
      hide Loaded;
      hide HnswIndex.IdsOk;
      hide NodeOk;
      hide LiveRecords;
      hide Tombstones;
      DimensionMeansNodes(index);
      var found := index.Search(query, k);
      if found.Err? {
        return Err(found.error);
      }
      var hits := found.value;
      ghost var norm := index.NormOf(query);
      HitsHaveRows(store.rows, index.State().records, text, query, norm, index.sqrt, hits);
      LoadedPart(store.rows, index.State().records, text, query, norm, index.sqrt, hits);
      var out := LoadArticles(hits);
      NoHitDropped(store.rows, hits);
      if k > 0 && 0 !in index.overflowed && (index.efSearch >= |index.nodes| || k >= |index.nodes|) {
        LoadedTopK(store.rows, index.State().records, text, query, norm, index.sqrt, hits, k);
      }
      return Ok(out);
    }

    method LoadArticles(hits: seq<TextHit>) returns (out: seq<ArticleHit>)
      ensures out == Loaded(store.rows, hits)
    {
      out := [];
      for i := 0 to |hits|
        invariant out == Loaded(store.rows, hits[..i])
      {
        assert hits[..i + 1] == hits[..i] + [hits[i]];
        LoadedStep(store.rows, hits[..i], hits[i]);
        var a := store.Get(hits[i].id);
        if a.Some? {
          out := out + [Hit(a.value.id, a.value, hits[i].score)];
        }
      }
      assert hits[..|hits|] == hits;
    }
  }

  /** Opening a node over a store, as NewNode does: it succeeds exactly on stores an index can be rebuilt
      from, and the node then serves what the store holds. */
  method OpenNode(isPrimary: bool, store: Store, cfg: Config, sqrt: real -> real, levels: nat -> nat,
                  text: Article -> string)
    returns (r: Result<Node, NodeError>)
    requires IsSqrt(sqrt) && Keyed(store.rows)
    ensures r.Ok? <==> Rebuildable(store.rows)
    ensures r.Ok? ==> fresh(r.value) && fresh(r.value.index) && r.value.store == store && r.value.index.sqrt == sqrt
    ensures r.Ok? ==> r.value.Valid() && r.value.State().articles == store.rows
    ensures r.Ok? ==> forall s: NodeState :: NodeOk(s) && s.articles == store.rows ==> r.value.State() == Restarted(s)
    ensures r.Ok? && store.rows == map[] ==> r.value.State().dimension == 0
  {
    var node := new Node(isPrimary, store, cfg, sqrt, levels, text);
    var err := node.HydrateIndex();
    if err.Some? {
      return Err(err.value);
    }
    ValidNodeOk(node);
    forall s: NodeState | NodeOk(s) && s.articles == store.rows
      ensures node.State() == Restarted(s)
    {
      SameDimension(s, node.State());
    }
    return Ok(node);
  }

  lemma SameDimension(s: NodeState, t: NodeState)
    requires NodeOk(s) && NodeOk(t) && s.articles == t.articles
    ensures s.articles != map[] ==> s == t
  {
    if id :| id in s.articles {
    } else {
      assert s.articles == map[];
    }
  }

  lemma ValidNodeOk(node: Node)
    requires node.Valid()
    ensures NodeOk(node.State())
  {
  }

  /** Whatever a valid node has stored can be rebuilt, so a restart never fails. */
  lemma RestartSucceeds(s: NodeState)
    requires NodeOk(s)
    ensures Rebuildable(s.articles)
  {
  }

  // ---------- Rebuilding the index ----------

  ghost predicate Acceptable(a: Article, dimension: nat) {
    a.id != "" && VectorFault(a.vector).None? && |a.vector| == dimension
  }

  /** The index holds the first n articles of the list, all of its dimension. */
  ghost predicate Taken(list: seq<Article>, n: nat, text: Article -> string, s: IndexState) {
    && n <= |list|
    && s.records == RecordsOfList(list[..n], text)
    && (forall j :: 0 <= j < n ==> Acceptable(list[j], s.dimension))
    && (s.dimension == 0 <==> n == 0)
  }

  lemma NothingTaken(list: seq<Article>, text: Article -> string)
    ensures Taken(list, 0, text, IndexState(0, []))
  {
  }

  /** The next article is taken, or it stands against rebuilding. */
  lemma TakeOneMore(rows: Rows, list: seq<Article>, n: nat, text: Article -> string, s: IndexState)
    requires IsListing(rows, list) && n < |list| && Taken(list, n, text, s)
    ensures InsertFault(s, list[n].id, list[n].vector).None? ==>
              Taken(list, n + 1, text, AfterInsert(s, RecordOf(list[n], text)))
    ensures InsertFault(s, list[n].id, list[n].vector).Some? ==> !Rebuildable(rows)
    ensures s.records == RecordsOfList(list[..n], text)
  {
    hide Rebuildable;
    assert list[..n + 1] == list[..n] + [list[n]];
    if InsertFault(s, list[n].id, list[n].vector).Some? {
      RefusedArticle(rows, list, n, s.dimension);
    }
  }

  lemma AllTaken(list: seq<Article>, text: Article -> string, s: IndexState)
    requires Taken(list, |list|, text, s)
    ensures s.records == RecordsOfList(list, text) && forall j :: 0 <= j < |list| ==> Acceptable(list[j], s.dimension)
    ensures list == [] ==> s.dimension == 0
  {
    assert list[..|list|] == list;
  }

  lemma NotYetIndexed(list: seq<Article>, i: nat, text: Article -> string, id: string)
    requires i < |list| && list[i].id == id
    requires forall i, j :: 0 <= i < j < |list| ==> list[i].id != list[j].id
    ensures !HasId(RecordsOfList(list[..i], text), id)
  {
  }

  /** An article the index refuses after it has taken the ones before it stands against rebuilding. */
  lemma RefusedArticle(rows: Rows, list: seq<Article>, i: nat, dimension: nat)
    requires IsListing(rows, list) && i < |list|
    requires forall j :: 0 <= j < i ==> Acceptable(list[j], dimension)
    requires dimension == 0 <==> i == 0
    requires InsertFault(IndexState(dimension, []), list[i].id, list[i].vector).Some?
    ensures !Rebuildable(rows)
  {
    assert rows[list[i].id] == list[i];
    if i > 0 {
      assert rows[list[0].id] == list[0] && Acceptable(list[0], dimension);
    }
  }

  lemma AllAccepted(rows: Rows, list: seq<Article>, dimension: nat)
    requires Keyed(rows) && IsListing(rows, list)
    requires forall j :: 0 <= j < |list| ==> Acceptable(list[j], dimension)
    ensures Rebuildable(rows) && NodeOk(NodeState(dimension, rows))
  {
    forall id | id in rows
      ensures Acceptable(rows[id], dimension)
    {
      var i :| 0 <= i < |list| && list[i].id == id;
    }
  }

  lemma ListingInStep(rows: Rows, list: seq<Article>, text: Article -> string)
    requires Keyed(rows) && IsListing(rows, list)
    ensures InStep(rows, RecordsOfList(list, text), text)
  {
    var records := RecordsOfList(list, text);
    forall id | id in rows
      ensures RecordOf(rows[id], text) in records
    {
      var i :| 0 <= i < |list| && list[i].id == id;
      assert records[i] == RecordOf(rows[id], text);
    }
  }

  lemma DimensionMeansNodes(index: HnswIndex)
    requires index.Valid()
    ensures index.dimension != 0 <==> index.nodes != []
  {
  }

  lemma DimensionOf(index: HnswIndex)
    ensures index.State().dimension == index.dimension
  {
  }
}
