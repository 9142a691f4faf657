/** The graph index against the linear scan, over whole runs of insertions and deletions. */
module Refinement {
  import opened Answers
  import opened BruteForce
  import opened Graph
  import opened Hnsw
  import opened IndexSpec
  import opened Layers
  import opened Results
  import opened TopK
  import opened Vectors

  datatype Op = InsertOp(record: Record) | DeleteOp(id: string)

  ghost function Outcome(s: IndexState, op: Op): Option<IndexError> {
    match op
    case InsertOp(r) => InsertFault(s, r.id, r.vector)
    case DeleteOp(id) => DeleteFault(s, id)
  }

  ghost function Next(s: IndexState, op: Op): IndexState {
    match op
    case InsertOp(r) => AfterInsert(s, r)
    case DeleteOp(id) => AfterDelete(s, id)
  }

  ghost function Run(s: IndexState, ops: seq<Op>): IndexState {
    if ops == [] then s else Next(Run(s, ops[..|ops| - 1]), ops[|ops| - 1])
  }

  ghost function Outcomes(s: IndexState, ops: seq<Op>): seq<Option<IndexError>> {
    if ops == [] then []
    else Outcomes(s, ops[..|ops| - 1]) + [Outcome(Run(s, ops[..|ops| - 1]), ops[|ops| - 1])]
  }

  /** How many insertions of a run are accepted: each makes one node, which deletion does not take away. */
  ghost function Accepted(s: IndexState, ops: seq<Op>): nat {
    if ops == [] then 0
    else
      var front, op := ops[..|ops| - 1], ops[|ops| - 1];
      Accepted(s, front) + if op.InsertOp? && Outcome(Run(s, front), op).None? then 1 else 0
  }

  /** No operation inserts an id that is live at that moment. */
  ghost predicate FreshIds(s: IndexState, ops: seq<Op>) {
    forall i :: 0 <= i < |ops| && ops[i].InsertOp? ==> !HasId(Run(s, ops[..i]).records, ops[i].record.id)
  }

  lemma RunStep(s: IndexState, ops: seq<Op>, i: nat)
    requires i < |ops|
    ensures Run(s, ops[..i + 1]) == Next(Run(s, ops[..i]), ops[i])
    ensures Outcomes(s, ops[..i + 1]) == Outcomes(s, ops[..i]) + [Outcome(Run(s, ops[..i]), ops[i])]
    ensures Accepted(s, ops[..i + 1]) ==
            Accepted(s, ops[..i]) + if ops[i].InsertOp? && Outcome(Run(s, ops[..i]), ops[i]).None? then 1 else 0
  {
    assert ops[..i + 1][..i] == ops[..i];
  }

  /** Runs that never insert a live id keep the records' ids distinct. */
  lemma {:induction false} RunKeepsIdsDistinct(s: IndexState, ops: seq<Op>)
    requires DistinctIds(s.records) && FreshIds(s, ops)
    ensures DistinctIds(Run(s, ops).records)
    decreases |ops|
  {
    if ops != [] {
      var n := |ops| - 1;
      var front := ops[..n];
      assert forall i :: 0 <= i < n ==> front[..i] == ops[..i];
      RunKeepsIdsDistinct(s, front);
      var before := Run(s, front);
      if ops[n].DeleteOp? {
        RemoveKeepsIdsDistinct(before.records, ops[n].id);
      }
    }
  }

  lemma RemoveKeepsIdsDistinct(records: seq<Record>, id: string)
    requires DistinctIds(records)
    ensures DistinctIds(RemoveFirst(records, id)) && !HasId(RemoveFirst(records, id), id)
  {
    RemoveFirstMembers(records, id);
    assert forall i :: 0 <= i < |RemoveFirst(records, id)| ==> RemoveFirst(records, id)[i] in RemoveFirst(records, id);
  }

  method RunGraph(index: HnswIndex, ops: seq<Op>) returns (outs: seq<Option<IndexError>>)
    requires index.Valid() && index.IdsOk() && FreshIds(index.State(), ops)
    modifies index
    ensures index.Valid() && index.IdsOk()
    ensures index.State() == Run(old(index.State()), ops) && outs == Outcomes(old(index.State()), ops)
    ensures |index.nodes| == |old(index.nodes)| + Accepted(old(index.State()), ops)
    ensures index.efSearch == old(index.efSearch)
  {
    hide HnswIndex.Valid;
    hide MapOnto;
    hide LiveRecords;
    hide RemoveFirst;
    ghost var s := index.State();
    outs := [];
    for i := 0 to |ops|
      invariant index.Valid() && index.IdsOk()
      invariant index.State() == Run(s, ops[..i]) && outs == Outcomes(s, ops[..i])
      invariant |index.nodes| == |old(index.nodes)| + Accepted(s, ops[..i])
      invariant index.efSearch == old(index.efSearch)
    {
      RunStep(s, ops, i);
      var err;
      match ops[i] {
        case InsertOp(r) =>
          NotLiveNotMapped(index, r.id);
          err := index.Insert(r.id, r.text, r.vector);
        case DeleteOp(id) =>
          err := index.Delete(id);
      }
      outs := outs + [err];
    }
    assert ops[..|ops|] == ops;
  }

  method RunScan(index: BruteForceIndex, ops: seq<Op>) returns (outs: seq<Option<IndexError>>)
    requires index.Valid()
    modifies index
    ensures index.Valid()
    ensures index.State() == Run(old(index.State()), ops) && outs == Outcomes(old(index.State()), ops)
  {
    hide EntriesOk;
    hide RemoveFirst;
    ghost var s := index.State();
    outs := [];
    for i := 0 to |ops|
      invariant index.Valid()
      invariant index.State() == Run(s, ops[..i]) && outs == Outcomes(s, ops[..i])
    {
      RunStep(s, ops, i);
      var err;
      match ops[i] {
        case InsertOp(r) =>
          err := index.Insert(r.id, r.text, r.vector);
        case DeleteOp(id) =>
          err := index.Delete(id);
      }
      outs := outs + [err];
    }
    assert ops[..|ops|] == ops;
  }

  /** A graph of at most 2m + 1 nodes, tombstones included, has not pruned any list of layer 0. */
  lemma SmallGraphNeverPruned(index: HnswIndex)
    requires index.Valid() && |index.nodes| <= 2 * index.m + 1
    ensures 0 !in index.overflowed
  {
    var nodes := index.nodes;
    assert LayerInv(LayerAdj(nodes, 0), Members(nodes, 0), Cap(index.m, 0), 0 in index.overflowed);
    Beams.UptoFacts(|nodes|);
    assert Members(nodes, 0) == Beams.Upto(|nodes|);
  }

  /** After the same run from empty the two indexes have accepted and refused the same calls and list
      the same records. A query fails alike in both, except that only the graph refuses a wrong
      dimension once every record is deleted. On runs that accept at most 2m + 1 insertions, with a beam
      no narrower than that, the answers have the same scores, and without ties they are the same. */
  method SameAnswers(graph: HnswIndex, scan: BruteForceIndex, ops: seq<Op>, query: Vector, k: int)
    returns (graphOuts: seq<Option<IndexError>>, scanOuts: seq<Option<IndexError>>,
             graphList: seq<Record>, scanList: seq<Record>,
             graphHits: Result<seq<TextHit>, IndexError>, scanHits: Result<seq<TextHit>, IndexError>)
    requires graph.Valid() && graph.IdsOk() && scan.Valid() && graph.sqrt == scan.sqrt
    requires graph.State() == scan.State() == IndexState(0, []) && graph.nodes == []
    requires FreshIds(IndexState(0, []), ops)
    modifies graph, scan
    ensures graphOuts == scanOuts && graphList == scanList
    ensures graphHits.Err? <==>
              scanHits.Err? || (k > 0 && VectorFault(query).None? && graph.nodes != [] && graphList == []
                                && |query| != graph.dimension)
    ensures graphHits.Err? && scanHits.Err? ==> graphHits == scanHits
    ensures graphHits.Ok? && scanHits.Ok? && k > 0 &&
            Accepted(IndexState(0, []), ops) <= 2 * graph.m + 1
              && (graph.efSearch >= Accepted(IndexState(0, []), ops) || k >= Accepted(IndexState(0, []), ops)) ==>
              var all := multiset(RecordHits(graphList, query, graph.NormOf(query), graph.sqrt));
              && IsTopK(all, graphHits.value, k)
              && Scores(graphHits.value) == Scores(scanHits.value)
              && (DistinctScores(all) ==> graphHits == scanHits)
  {
    hide IsTopK;
    hide GraphInv;
    hide IsAnswer;
    hide IsScan;
    hide RemoveFirst;
    graphOuts := RunGraph(graph, ops);
    scanOuts := RunScan(scan, ops);
    graphList := graph.List();
    scanList := scan.List();
    graphHits := graph.Search(query, k);
    scanHits := scan.Search(query, k);
    assert scan.records == [] <==> scanList == [];
    if graphHits.Ok? && scanHits.Ok? && k > 0 && |graph.nodes| <= 2 * graph.m + 1
      && (graph.efSearch >= |graph.nodes| || k >= |graph.nodes|) {
      SmallGraphNeverPruned(graph);
      ghost var all := multiset(RecordHits(graphList, query, graph.NormOf(query), graph.sqrt));
      TopKScoresUnique(all, graphHits.value, scanHits.value, k);
      if DistinctScores(all) {
        TopKUnique(all, graphHits.value, scanHits.value, k);
      }
    }
  }

  lemma NothingLeft(r: Record)
    ensures RemoveFirst([r], r.id) == [] && HasId([r], r.id)
  {
    assert [r][0].id == r.id;
  }

  lemma NothingFound(query: Vector, queryNorm: real, sqrt: real -> real, k: nat, out: seq<TextHit>)
    requires IsTopK(multiset(RecordHits([], query, queryNorm, sqrt)), out, k)
    ensures out == []
  {
    assert RecordHits([], query, queryNorm, sqrt) == [];
  }

  /** The run on which the errors differ: one record inserted and deleted, then a query of another length. */
  method ErrorsDiffer(graph: HnswIndex, scan: BruteForceIndex)
    returns (graphHits: Result<seq<TextHit>, IndexError>, scanHits: Result<seq<TextHit>, IndexError>)
    requires graph.Valid() && graph.IdsOk() && scan.Valid()
    requires graph.State() == scan.State() == IndexState(0, []) && graph.nodes == []
    modifies graph, scan
    ensures graphHits == Err(DimensionMismatch(2, 1)) && scanHits == Ok([])
  {
    hide HnswIndex.Valid;
    hide HnswIndex.IdsOk;
    hide LiveRecords;
    hide IsTopK;
    hide IsScan;
    hide IsAnswer;
    hide RecordHits;
    hide EntriesOk;
    hide Skeleton;
    hide Placed;
    hide OverflowsNoted;
    hide Tombstones;
    var one: Vector := [1.0];
    assert one[0] == 1.0;
    NotLiveNotMapped(graph, "a");
    NothingLeft(Record("a", "", one));
    hide RemoveFirst;
    var err := graph.Insert("a", "", one);
    assert err.None? && graph.State().records == [Record("a", "", one)];
    err := graph.Delete("a");
    err := scan.Insert("a", "", one);
    err := scan.Delete("a");
    var two: Vector := [1.0, 1.0];
    assert two[0] == 1.0;
    graphHits := graph.Search(two, 1);
    scanHits := scan.Search(two, 1);
    NothingFound(two, scan.sqrt(Dot(two, two)), scan.sqrt, 1, scanHits.value);
  }
}
