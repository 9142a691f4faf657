/** A shard node as a value: the dimension its index has settled on and its articles. */
module NodeSpec {
  import opened Answers
  import opened IndexSpec
  import opened Permutations
  import opened Results
  import opened Storage
  import opened TopK
  import opened Vectors

  datatype NodeError = DuplicateId(id: string) | IndexInsert(fault: IndexError) | Missing(id: string)

  datatype NodeState = NodeState(dimension: nat, articles: Rows)

  type ArticleHit = Hit<Article>

  /** Stored articles are ones that the index accepted. */
  ghost predicate NodeOk(s: NodeState) {
    && Keyed(s.articles)
    && forall id :: id in s.articles ==>
         id != "" && VectorFault(s.articles[id].vector).None? && |s.articles[id].vector| == s.dimension
  }

  ghost function InsertRefusal(s: NodeState, a: Article): Option<NodeError> {
    if a.id in s.articles then Some(DuplicateId(a.id))
    else match InsertFault(IndexState(s.dimension, []), a.id, a.vector)
      case Some(fault) => Some(IndexInsert(fault))
      case None => None
  }

  ghost function Inserted(s: NodeState, a: Article): NodeState {
    if InsertRefusal(s, a).Some? then s else NodeState(|a.vector|, s.articles[a.id := a])
  }

  ghost function DeleteRefusal(s: NodeState, id: string): Option<NodeError> {
    if id in s.articles then None else Some(Missing(id))
  }

  ghost function Deleted(s: NodeState, id: string): NodeState {
    s.(articles := s.articles - {id})
  }

  /** Why a query for at least one hit is refused. */
  ghost function QueryRefusal(s: NodeState, query: Vector): Option<IndexError> {
    if VectorFault(query).Some? then Some(BadVector(VectorFault(query).value))
    else if s.dimension != 0 && |query| != s.dimension then Some(DimensionMismatch(|query|, s.dimension))
    else None
  }

  /** Which queries for at least one hit are refused, and with which error. */
  lemma QueryRefusalExactly(s: NodeState, query: Vector)
    ensures var fault, allZero := QueryRefusal(s, query), forall i :: 0 <= i < |query| ==> query[i] == 0.0;
            && (fault == Some(BadVector(EmptyVector)) <==> |query| == 0)
            && (fault == Some(BadVector(ZeroNorm)) <==> |query| > 0 && allZero)
            && (fault == Some(DimensionMismatch(|query|, s.dimension)) <==>
                  !allZero && s.dimension > 0 && |query| != s.dimension)
            && (fault == None <==> !allZero && (s.dimension == 0 || |query| == s.dimension))
  {
  }

  /** Which articles are refused, and with which error. */
  lemma InsertRefusalExactly(s: NodeState, a: Article)
    ensures var fault, allZero := InsertRefusal(s, a), forall i :: 0 <= i < |a.vector| ==> a.vector[i] == 0.0;
            && (fault == Some(DuplicateId(a.id)) <==> a.id in s.articles)
            && (fault == Some(IndexInsert(EmptyId)) <==> a.id !in s.articles && |a.id| == 0)
            && (fault == Some(IndexInsert(BadVector(EmptyVector))) <==>
                  a.id !in s.articles && |a.id| > 0 && |a.vector| == 0)
            && (fault == Some(IndexInsert(BadVector(ZeroNorm))) <==>
                  a.id !in s.articles && |a.id| > 0 && |a.vector| > 0 && allZero)
            && (fault == Some(IndexInsert(DimensionMismatch(|a.vector|, s.dimension))) <==>
                  a.id !in s.articles && |a.id| > 0 && !allZero && s.dimension > 0 && |a.vector| != s.dimension)
            && (fault == None <==>
                  a.id !in s.articles && |a.id| > 0 && !allZero && (s.dimension == 0 || |a.vector| == s.dimension))
  {
    InsertFaultExactly(IndexState(s.dimension, []), a.id, a.vector);
  }

  lemma InsertedOk(s: NodeState, a: Article)
    requires NodeOk(s)
    ensures NodeOk(Inserted(s, a))
  {
  }

  lemma DeletedOk(s: NodeState, id: string)
    requires NodeOk(s)
    ensures NodeOk(Deleted(s, id))
  {
  }

  /** An accepted insertion can be taken back; only the dimension it may have fixed remains. */
  lemma DeleteUndoesInsert(s: NodeState, a: Article)
    requires NodeOk(s) && InsertRefusal(s, a).None?
    ensures DeleteRefusal(Inserted(s, a), a.id).None?
    ensures Deleted(Inserted(s, a), a.id) == NodeState(|a.vector|, s.articles)
    ensures s.dimension != 0 ==> Deleted(Inserted(s, a), a.id) == s
  {
    assert s.articles[a.id := a] - {a.id} == s.articles;
  }

  /** A deletion can always be taken back: the article that was there is one the node accepts. */
  lemma InsertUndoesDelete(s: NodeState, id: string)
    requires NodeOk(s) && id in s.articles
    ensures InsertRefusal(Deleted(s, id), s.articles[id]).None?
    ensures Inserted(Deleted(s, id), s.articles[id]) == s
  {
    assert (s.articles - {id})[id := s.articles[id]] == s.articles;
  }

  // ---------- Restarts and runs ----------

  /** What a restart leaves: the same articles; the index settles on a dimension again, if it has one. */
  ghost function Restarted(s: NodeState): NodeState {
    if s.articles == map[] then s.(dimension := 0) else s
  }

  /** A restart goes unnoticed exactly if some article is stored or no dimension was ever settled. */
  lemma RestartUnnoticed(s: NodeState)
    requires NodeOk(s)
    ensures NodeOk(Restarted(s))
    ensures (forall a :: InsertRefusal(Restarted(s), a) == InsertRefusal(s, a))
            <==> s.articles != map[] || s.dimension == 0
  {
    if s.articles == map[] && s.dimension != 0 {
      var a := Article("a", "", "", "", "", seq(s.dimension + 1, _ => 1.0), 0, 0);
      assert a.vector[0] == 1.0;
      assert VectorFault(a.vector).None?;
      assert InsertRefusal(s, a).Some? && InsertRefusal(Restarted(s), a).None?;
    }
  }

  datatype NodeOp = PutOp(a: Article) | DropOp(id: string) | RestartOp

  ghost function NodeNext(s: NodeState, op: NodeOp): NodeState {
    match op
    case PutOp(a) => Inserted(s, a)
    case DropOp(id) => if DeleteRefusal(s, id).None? then Deleted(s, id) else s
    case RestartOp => Restarted(s)
  }

  ghost function NodeRun(s: NodeState, ops: seq<NodeOp>): NodeState {
    if ops == [] then s else NodeNext(NodeRun(s, ops[..|ops| - 1]), ops[|ops| - 1])
  }

  /** Over every run, restarts included: the stored vectors share one dimension and none is zero. */
  lemma {:induction false} RunStaysOk(s: NodeState, ops: seq<NodeOp>)
    requires NodeOk(s)
    ensures NodeOk(NodeRun(s, ops))
    decreases |ops|
  {
    if ops != [] {
      RunStaysOk(s, ops[..|ops| - 1]);
      var before := NodeRun(s, ops[..|ops| - 1]);
      match ops[|ops| - 1] {
        case PutOp(a) => InsertedOk(before, a);
        case DropOp(id) => DeletedOk(before, id);
        case RestartOp =>
      }
    }
  }

  // ---------- Store and index in step ----------

  ghost function RecordOf(a: Article, text: Article -> string): Record {
    Record(a.id, text(a), a.vector)
  }

  /** The index's live records are exactly the stored articles. */
  ghost predicate InStep(rows: Rows, records: seq<Record>, text: Article -> string) {
    && DistinctIds(records)
    && (forall r :: r in records ==> r.id in rows && r == RecordOf(rows[r.id], text))
    && (forall id :: id in rows ==> rows[id].id == id && RecordOf(rows[id], text) in records)
  }

  lemma InStepIds(rows: Rows, records: seq<Record>, text: Article -> string, id: string)
    requires InStep(rows, records, text)
    ensures HasId(records, id) <==> id in rows
  {
    if id in rows {
      var i :| 0 <= i < |records| && records[i] == RecordOf(rows[id], text);
    }
    if HasId(records, id) {
      var i :| 0 <= i < |records| && records[i].id == id;
      assert records[i] in records;
    }
  }

  lemma InStepAfterInsert(rows: Rows, records: seq<Record>, a: Article, text: Article -> string)
    requires InStep(rows, records, text) && a.id !in rows
    ensures InStep(rows[a.id := a], records + [RecordOf(a, text)], text)
  {
    var more := records + [RecordOf(a, text)];
    InStepIds(rows, records, text, a.id);
    assert forall i :: 0 <= i < |records| ==> more[i] in records;
  }

  lemma InStepAfterDelete(rows: Rows, records: seq<Record>, id: string, text: Article -> string)
    requires InStep(rows, records, text)
    ensures InStep(rows - {id}, RemoveFirst(records, id), text)
  {
    RemoveFirstMembers(records, id);
  }

  // ---------- Hits on articles ----------

  /** The hit an exact scan of the store would make of an article. */
  ghost function HitOfArticle(a: Article, query: Vector, queryNorm: real, sqrt: real -> real): ArticleHit {
    Hit(a.id, a, Cosine(query, queryNorm, a.vector, sqrt(Dot(a.vector, a.vector))))
  }

  ghost function HitSet(rows: Rows, query: Vector, queryNorm: real, sqrt: real -> real): set<ArticleHit> {
    set id | id in rows :: HitOfArticle(rows[id], query, queryNorm, sqrt)
  }

  lemma HitSetMembers(rows: Rows, query: Vector, queryNorm: real, sqrt: real -> real)
    requires Keyed(rows)
    ensures forall h :: h in HitSet(rows, query, queryNorm, sqrt) <==>
                          h.id in rows && h == HitOfArticle(rows[h.id], query, queryNorm, sqrt)
  {
  }

  /** All stored articles as hits for a query. */
  ghost function AllHits(rows: Rows, query: Vector, queryNorm: real, sqrt: real -> real): multiset<ArticleHit> {
    multiset(HitSet(rows, query, queryNorm, sqrt))
  }

  /** Index hits with their articles loaded; a hit without a row is dropped. */
  ghost function Loaded(rows: Rows, hits: seq<TextHit>): seq<ArticleHit> {
    FlatMap((h: TextHit) => if h.id in rows then [Hit(rows[h.id].id, rows[h.id], h.score)] else [], hits)
  }

  lemma LoadedStep(rows: Rows, hits: seq<TextHit>, h: TextHit)
    ensures Loaded(rows, hits + [h])
            == Loaded(rows, hits) + if h.id in rows then [Hit(rows[h.id].id, rows[h.id], h.score)] else []
  {
    var f := (h: TextHit) => if h.id in rows then [Hit(rows[h.id].id, rows[h.id], h.score)] else [];
    FlatMapConcat(f, hits, [h]);
    FlatMapOne(f, h);
  }

  lemma {:induction false} NoHitDropped(rows: Rows, hits: seq<TextHit>)
    requires Keyed(rows) && forall i :: 0 <= i < |hits| ==> hits[i].id in rows
    ensures |Loaded(rows, hits)| == |hits|
    ensures forall i :: 0 <= i < |hits| ==> Loaded(rows, hits)[i] == Hit(hits[i].id, rows[hits[i].id], hits[i].score)
    decreases |hits|
  {
    if hits != [] {
      NoHitDropped(rows, hits[1..]);
    }
  }

  lemma DistinctMultiset<T>(s: seq<T>, elements: set<T>)
    requires forall i, j :: 0 <= i < j < |s| ==> s[i] != s[j]
    requires forall x :: x in elements <==> x in s
    ensures multiset(s) == multiset(elements)
    decreases |s|
  {
    if s == [] {
      assert elements == {};
    } else {
      var n := |s| - 1;
      assert s == s[..n] + [s[n]];
      DistinctMultiset(s[..n], elements - {s[n]});
      assert elements == (elements - {s[n]}) + {s[n]};
    }
  }

  lemma LoadedAt(rows: Rows, records: seq<Record>, text: Article -> string, query: Vector, queryNorm: real,
                 sqrt: real -> real)
    requires InStep(rows, records, text)
    ensures var loaded := Loaded(rows, RecordHits(records, query, queryNorm, sqrt));
            && |loaded| == |records|
            && forall i :: 0 <= i < |records| ==>
                 records[i].id in rows && loaded[i] == HitOfArticle(rows[records[i].id], query, queryNorm, sqrt)
  {
    assert forall i :: 0 <= i < |records| ==> records[i] in records;
    NoHitDropped(rows, RecordHits(records, query, queryNorm, sqrt));
  }

  /** The hits of the live records, loaded, are the hits of the stored articles. */
  lemma LoadedRecords(rows: Rows, records: seq<Record>, text: Article -> string, query: Vector, queryNorm: real,
                      sqrt: real -> real)
    requires InStep(rows, records, text)
    ensures multiset(Loaded(rows, RecordHits(records, query, queryNorm, sqrt))) == AllHits(rows, query, queryNorm, sqrt)
  {
    hide Loaded;
    hide RecordHits;
    var loaded := Loaded(rows, RecordHits(records, query, queryNorm, sqrt));
    LoadedAt(rows, records, text, query, queryNorm, sqrt);
    var all := HitSet(rows, query, queryNorm, sqrt);
    HitSetMembers(rows, query, queryNorm, sqrt);
    hide HitSet;
    forall h | h in all
      ensures h in loaded
    {
      var i :| 0 <= i < |records| && records[i] == RecordOf(rows[h.id], text);
      assert loaded[i] == h;
    }
    DistinctMultiset(loaded, all);
  }

  /** Loading articles turns hits of different records into hits of different articles, in the same order with
      the same scores. */
  lemma LoadedPart(rows: Rows, records: seq<Record>, text: Article -> string, query: Vector, queryNorm: real,
                   sqrt: real -> real, hits: seq<TextHit>)
    requires InStep(rows, records, text)
    requires multiset(hits) <= multiset(RecordHits(records, query, queryNorm, sqrt))
    ensures multiset(Loaded(rows, hits)) <= AllHits(rows, query, queryNorm, sqrt)
  {
    hide InStep;
    hide RecordHits;
    var all := RecordHits(records, query, queryNorm, sqrt);
    var f := (h: TextHit) => if h.id in rows then [Hit(rows[h.id].id, rows[h.id], h.score)] else [];
    var rest := SeqOf(multiset(all) - multiset(hits));
    FlatMapPermutation(f, hits + rest, all);
    FlatMapConcat(f, hits, rest);
    LoadedRecords(rows, records, text, query, queryNorm, sqrt);
  }

  lemma HitsHaveRows(rows: Rows, records: seq<Record>, text: Article -> string, query: Vector, queryNorm: real,
                     sqrt: real -> real, hits: seq<TextHit>)
    requires InStep(rows, records, text)
    requires multiset(hits) <= multiset(RecordHits(records, query, queryNorm, sqrt))
    ensures forall i :: 0 <= i < |hits| ==> hits[i].id in rows
    ensures Keyed(rows)
  {
    var all := RecordHits(records, query, queryNorm, sqrt);
    forall i | 0 <= i < |hits|
      ensures hits[i].id in rows
    {
      assert hits[i] in multiset(hits);
      assert hits[i] in multiset(all);
      var j :| 0 <= j < |all| && all[j] == hits[i];
      assert records[j] in records;
    }
  }

  /** Loading articles turns an exact top-k of the records into an exact top-k of the articles. */
  lemma LoadedTopK(rows: Rows, records: seq<Record>, text: Article -> string, query: Vector, queryNorm: real,
                   sqrt: real -> real, hits: seq<TextHit>, k: nat)
    requires InStep(rows, records, text)
    requires IsTopK(multiset(RecordHits(records, query, queryNorm, sqrt)), hits, k)
    ensures IsTopK(AllHits(rows, query, queryNorm, sqrt), Loaded(rows, hits), k)
  {
    var all := RecordHits(records, query, queryNorm, sqrt);
    var f := (h: TextHit) => if h.id in rows then [Hit(rows[h.id].id, rows[h.id], h.score)] else [];
    forall h | h in all
      ensures KeepsScore(f, h)
    {
      var i :| 0 <= i < |all| && all[i] == h;
      assert records[i] in records;
    }
    TopKRewritten(f, all, hits, k);
    LoadedRecords(rows, records, text, query, queryNorm, sqrt);
  }
}
