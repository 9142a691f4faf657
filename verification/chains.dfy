/** A graph that the program really builds: points of which each new one is most similar to the last, so that the
    links form a chain. */
module Chains {
  import opened Beams
  import opened Graph
  import opened Heaps
  import opened Hnsw
  import opened IndexSpec
  import opened Layers
  import opened Permutations
  import opened Selection
  import opened Vectors

  // ---------- Chains ----------

  ghost function ChainLinks(i: nat, n: nat): seq<int> {
    (if i > 0 then [i - 1] else []) + (if i + 1 < n then [i + 1] else [])
  }

  /** The first n nodes of a layer link one step forward and back, and to nothing else. */
  ghost predicate IsChainUpto(adj: Adj, n: nat) {
    n <= |adj| && forall i :: 0 <= i < n ==> adj[i] == ChainLinks(i, n)
  }

  ghost predicate IsChain(adj: Adj) {
    IsChainUpto(adj, |adj|)
  }

  ghost function NormOf(r: Record, sqrt: real -> real): real {
    sqrt(Dot(r.vector, r.vector))
  }

  ghost function PointOf(r: Record, sqrt: real -> real): Point {
    Point(r.vector, NormOf(r, sqrt))
  }

  /** The graph of the records linked in a chain, the first `dead` of them deleted. */
  ghost function ChainOf(records: seq<Record>, sqrt: real -> real, dead: nat): (r: seq<Node>)
    ensures |r| == |records|
    ensures forall i :: 0 <= i < |r| ==>
              r[i] == Node(records[i], NormOf(records[i], sqrt), [ChainLinks(i, |records|)], 0, i < dead)
  {
    seq(|records|, i requires 0 <= i < |records| =>
      Node(records[i], NormOf(records[i], sqrt), [ChainLinks(i, |records|)], 0, i < dead))
  }

  /** Each point is more similar to a later one than to an earlier one, seen from further on; and two points are
      more similar to each other than the first is to any point beyond. */
  ghost predicate FallsAway(records: seq<Record>, sqrt: real -> real) {
    forall i, j, k :: 0 <= i < j < k < |records| ==> Recedes(records[i], records[j], records[k], sqrt)
  }

  ghost predicate Recedes(a: Record, b: Record, c: Record, sqrt: real -> real) {
    && Similarity(PointOf(c, sqrt), PointOf(a, sqrt)) < Similarity(PointOf(c, sqrt), PointOf(b, sqrt))
    && Similarity(PointOf(c, sqrt), PointOf(a, sqrt)) < Similarity(PointOf(a, sqrt), PointOf(b, sqrt))
  }

  // ---------- A chain is a graph like any other ----------

  lemma {:induction false} ChainJoins(adj: Adj, i: nat)
    requires IsChain(adj) && i < |adj|
    ensures Reachable(adj, 0, i) && Reachable(adj, i, 0)
  {
    if i == 0 {
      ReachSelf(adj, 0);
    } else {
      ChainJoins(adj, i - 1);
      assert Edge(adj, i - 1, i) by {
        assert i in ChainLinks(i - 1, |adj|);
      }
      assert Edge(adj, i, i - 1);
      ReachStep(adj, 0, i - 1, i);
      ReachSelf(adj, i);
      ReachStep(adj, i, i, i - 1);
      ReachTrans(adj, i, i - 1, 0);
    }
  }

  lemma ChainIsSymmetric(adj: Adj)
    requires IsChain(adj)
    ensures Symmetric(adj)
  {
    forall a, b | Edge(adj, a, b)
      ensures Edge(adj, b, a)
    {
      assert b in ChainLinks(a, |adj|);
      assert a in ChainLinks(b, |adj|);
    }
  }

  lemma ChainIsConnected(adj: Adj, members: set<int>)
    requires IsChain(adj) && forall i :: i in members ==> 0 <= i < |adj|
    ensures Connected(adj, members)
  {
    forall a, b | a in members && b in members
      ensures Reachable(adj, a, b)
    {
      ChainJoins(adj, a);
      ChainJoins(adj, b);
      ReachTrans(adj, a, 0, b);
    }
  }

  lemma ChainLayer(adj: Adj, members: set<int>, cap: int)
    requires IsChain(adj) && cap >= 2 && members == Upto(|adj|)
    ensures LayerInv(adj, members, cap, false)
  {
    UptoFacts(|adj|);
    ChainIsSymmetric(adj);
    ChainIsConnected(adj, members);
    hide Symmetric;
    hide Connected;
    hide Upto;
    forall i | 0 <= i < |adj|
      ensures ListOk(adj[i], i, members, cap)
    {
      ChainList(i, |adj|, members, cap);
    }
  }

  lemma ChainList(i: nat, n: nat, members: set<int>, cap: int)
    requires i < n && cap >= 2 && forall x :: x in members <==> 0 <= x < n
    ensures ListOk(ChainLinks(i, n), i, members, cap)
  {
  }

  lemma ChainInv(records: seq<Record>, sqrt: real -> real, dead: nat, m: int)
    requires m >= 1 && records != []
    ensures GraphInv(ChainOf(records, sqrt, dead), m, {})
    ensures IsChain(LayerAdj(ChainOf(records, sqrt, dead), 0))
  {
    hide LayerInv;
    var nodes := ChainOf(records, sqrt, dead);
    assert IsChain(LayerAdj(nodes, 0));
    UptoFacts(|nodes|);
    forall layer: nat
      ensures LayerInv(LayerAdj(nodes, layer), Members(nodes, layer), Cap(m, layer), layer in {})
    {
      if layer == 0 {
        assert Members(nodes, 0) == Upto(|nodes|);
        ChainLayer(LayerAdj(nodes, 0), Members(nodes, 0), Cap(m, 0));
      } else {
        LoneLayer(LayerAdj(nodes, layer), Members(nodes, layer), Cap(m, layer), 0);
      }
    }
  }

  // ---------- One insertion at the end of a chain ----------

  ghost predicate RisingUpto(score: seq<real>, n: nat) {
    n <= |score| && forall i, j :: 0 <= i < j < n ==> score[i] < score[j]
  }

  lemma ChainKeepsInside(adj: Adj, n: nat, x: int)
    requires IsChainUpto(adj, n) && n > 0 && Reachable(adj, 0, x)
    ensures 0 <= x < n
  {
    UptoFacts(n);
    forall a, b | a in Upto(n) && Edge(adj, a, b)
      ensures b in Upto(n)
    {
      assert b in ChainLinks(a, n);
    }
    ReachClosed(adj, Upto(n), 0, x);
  }

  /** With scores rising along the chain the best answer is its last node. */
  lemma BestIsLast(adj: Adj, score: seq<real>, n: nat, ef: int, cands: seq<Candidate>, visited: set<int>)
    requires IsChainUpto(adj, n) && n > 0 && RisingUpto(score, n) && ef >= 1
    requires IsBeam(adj, score, 0, ef, cands, visited)
    ensures cands != [] && cands[0].id == n - 1 && forall c :: c in cands ==> 0 <= c.id < n
  {
    BeamLeadsAhead(adj, score, 0, ef, cands, visited);
    forall c | c in cands
      ensures 0 <= c.id < n
    {
      ChainKeepsInside(adj, n, c.id);
    }
    assert cands[0] in cands;
    if cands[0].id < n - 1 {
      NotBest(adj, score, 0, ef, cands, visited, cands[0].id + 1) by {
        assert cands[0].id + 1 in ChainLinks(cands[0].id, n);
      }
      assert false;
    }
  }

  /** A link from the best answer leads to nothing better. */
  lemma NotBest(adj: Adj, score: seq<real>, ep: int, ef: int, cands: seq<Candidate>, visited: set<int>, t: int)
    requires IsBeam(adj, score, ep, ef, cands, visited) && cands != [] && Edge(adj, cands[0].id, t)
    ensures 0 <= t < |score| && score[t] <= score[cands[0].id]
  {
    assert cands[0] in cands && t in visited;
    if t in Ids(cands) {
      var j :| 0 <= j < |cands| && Ids(cands)[j] == t;
      assert cands[j] in cands;
    }
  }

  /** If the best candidate crowds all others, it alone is kept. */
  lemma {:induction false} OnlyBestKept(points: seq<Point>, cands: seq<Candidate>, m: int, n: nat)
    requires InRange(points, cands) && m >= 1 && 1 <= n <= |cands|
    requires forall i :: 0 < i < |cands| ==> Crowds(points, cands, 0, i)
    ensures Kept(points, cands, m, n) == [0]
  {
    if n == 1 {
      assert Kept(points, cands, m, 0) == [];
    } else {
      OnlyBestKept(points, cands, m, n - 1);
      assert 0 in Kept(points, cands, m, n - 1) && Crowds(points, cands, 0, n - 1);
    }
  }

  lemma OnlyBestSelected(points: seq<Point>, cands: seq<Candidate>, m: int)
    requires InRange(points, cands) && m >= 1 && cands != []
    requires forall i :: 0 < i < |cands| ==> Crowds(points, cands, 0, i)
    ensures Ids(Selected(points, cands, m)) == [cands[0].id]
  {
    OnlyBestKept(points, cands, m, |cands|);
  }

  /** Linking a new node to the last one, and back, makes the chain longer by one. */
  lemma ChainExtends(points: seq<Point>, before: Adj, after: Adj, n: nat, cap: int)
    requires n > 0 && |before| == n + 1 && IsChainUpto(before, n) && cap >= 2
    requires LinkedExactly(points, before, after, n, [n - 1], 1, cap)
    ensures IsChain(after)
  {
    assert [n - 1][..1] == [n - 1];
    forall i | 0 <= i <= n
      ensures after[i] == ChainLinks(i, n + 1)
    {
      if i == n - 1 {
        assert n - 1 in [n - 1];
        assert before[n - 1] + [n] == ChainLinks(n - 1, n + 1);
      }
    }
  }

  /** The graph just before node n, the last, is linked. */
  ghost function Start(records: seq<Record>, n: nat, sqrt: real -> real): seq<Node>
    requires n < |records|
  {
    ChainOf(records[..n], sqrt, 0) + [Node(records[n], NormOf(records[n], sqrt), [[]], 0, false)]
  }

  lemma StartViews(records: seq<Record>, n: nat, sqrt: real -> real)
    requires n < |records|
    ensures var nodes := Start(records, n, sqrt);
            && |nodes| == n + 1 && IsChainUpto(LayerAdj(nodes, 0), n)
            && forall i :: 0 <= i <= n ==> Points(nodes)[i] == PointOf(records[i], sqrt)
  {
  }

  lemma ScoresRise(records: seq<Record>, n: nat, sqrt: real -> real)
    requires n < |records| && FallsAway(records, sqrt)
    ensures RisingUpto(QueryScores(Start(records, n, sqrt), records[n].vector, NormOf(records[n], sqrt)), n)
  {
    var nodes := Start(records, n, sqrt);
    var score := QueryScores(nodes, records[n].vector, NormOf(records[n], sqrt));
    forall i, j | 0 <= i < j < n
      ensures score[i] < score[j]
    {
      assert Recedes(records[i], records[j], records[n], sqrt);
    }
  }

  /** The last node crowds every other candidate. */
  lemma LastCrowds(records: seq<Record>, n: nat, sqrt: real -> real, points: seq<Point>, score: seq<real>,
                   cands: seq<Candidate>, i: nat)
    requires n < |records| && FallsAway(records, sqrt) && |points| == |score| == n + 1
    requires forall x :: 0 <= x <= n ==> points[x] == PointOf(records[x], sqrt)
    requires forall x :: 0 <= x < n ==> score[x] == Similarity(PointOf(records[n], sqrt), PointOf(records[x], sqrt))
    requires Scored(cands, score) && NoDup(Ids(cands)) && forall c :: c in cands ==> 0 <= c.id < n
    requires 0 < i < |cands| && cands[0].id == n - 1
    ensures Crowds(points, cands, 0, i)
  {
    assert cands[i] in cands && cands[0] in cands;
    assert Ids(cands)[i] != Ids(cands)[0];
    assert Recedes(records[cands[i].id], records[n - 1], records[n], sqrt);
  }

  /** What an insertion does to the layer: the chain grows. */
  lemma LayerGrows(records: seq<Record>, n: nat, sqrt: real -> real, after: Adj, last: int, efConst: int, m: int)
    requires 0 < n < |records| && FallsAway(records, sqrt) && efConst >= 1 && m >= 1
    requires var nodes := Start(records, n, sqrt);
             LayerLinked(Points(nodes), QueryScores(nodes, records[n].vector, NormOf(records[n], sqrt)),
                         LayerAdj(nodes, 0), after, n, 0, last, efConst, m, Cap(m, 0))
    ensures |after| == n + 1 && IsChain(after)
  {
    var nodes := Start(records, n, sqrt);
    var points, adj := Points(nodes), LayerAdj(nodes, 0);
    var score := QueryScores(nodes, records[n].vector, NormOf(records[n], sqrt));
    StartViews(records, n, sqrt);
    ScoresRise(records, n, sqrt);
    var cands: seq<Candidate>, visited :|
      && IsBeam(adj, score, 0, efConst, cands, visited)
      && InRange(points, cands)
      && LinkedExactly(points, adj, after, n, Ids(Selected(points, cands, m)), |Ids(Selected(points, cands, m))|,
                       Cap(m, 0));
    BestIsLast(adj, score, n, efConst, cands, visited);
    assert Scored(cands, score) && NoDup(Ids(cands));
    hide IsBeam;
    OnlyLastSelected(records, n, sqrt, points, score, cands, m);
    hide Selected;
    ChainExtends(points, adj, after, n, Cap(m, 0));
  }

  lemma OnlyLastSelected(records: seq<Record>, n: nat, sqrt: real -> real, points: seq<Point>, score: seq<real>,
                         cands: seq<Candidate>, m: int)
    requires 0 < n < |records| && FallsAway(records, sqrt) && |points| == |score| == n + 1 && m >= 1
    requires forall x :: 0 <= x <= n ==> points[x] == PointOf(records[x], sqrt)
    requires forall x :: 0 <= x < n ==> score[x] == Similarity(PointOf(records[n], sqrt), PointOf(records[x], sqrt))
    requires Scored(cands, score) && NoDup(Ids(cands)) && forall c :: c in cands ==> 0 <= c.id < n
    requires InRange(points, cands) && cands != [] && cands[0].id == n - 1
    ensures Ids(Selected(points, cands, m)) == [n - 1]
  {
    forall i | 0 < i < |cands|
      ensures Crowds(points, cands, 0, i)
    {
      LastCrowds(records, n, sqrt, points, score, cands, i);
    }
    OnlyBestSelected(points, cands, m);
  }

  lemma NothingToDescend(nodes: seq<Node>, score: seq<real>, top: int, low: nat, a: int, b: int)
    requires top < low && Descends(nodes, score, top, low, a, b)
    ensures a == b
  {
  }

  lemma NothingLinked(score: seq<real>, before: seq<Node>, after: seq<Node>, n: int, top: int, bottom: nat,
                      ep: int, last: int, efConst: int, m: int)
    requires top < bottom && LinkedDown(score, before, after, n, top, bottom, ep, last, efConst, m)
    ensures ep == last
  {
  }

  lemma LinkedOnGround(score: seq<real>, before: seq<Node>, after: seq<Node>, n: int, top: int, bottom: nat,
                       ep: int, last: int, efConst: int, m: int)
    requires top == bottom && LinkedDown(score, before, after, n, top, bottom, ep, last, efConst, m)
    ensures LayerLinked(Points(before), score, LayerAdj(before, bottom), LayerAdj(after, bottom), n, ep, last, efConst,
                        m, Cap(m, bottom))
  {
    hide LayerLinked;
    var prev :|
      && LinkedDown(score, before, after, n, top, bottom + 1, ep, prev, efConst, m)
      && LayerLinked(Points(before), score, LayerAdj(before, bottom), LayerAdj(after, bottom), n, prev, last, efConst,
                     m, Cap(m, bottom));
    NothingLinked(score, before, after, n, top, bottom + 1, ep, prev, efConst, m);
  }

  lemma PlacedOnGround(before: seq<Node>, after: seq<Node>, efConst: int, m: int) returns (last: int)
    requires |after| == |before| + 1 && after[|before|].level == 0
    requires Placed(before, after, 0, 0, efConst, m)
    ensures var start := before + [Fresh(after[|before|])];
            var score := QueryScores(start, after[|before|].record.vector, after[|before|].norm);
            LayerLinked(Points(start), score, LayerAdj(start, 0), LayerAdj(after, 0), |before|, 0, last, efConst, m,
                        Cap(m, 0))
  {
    hide LayerLinked;
    hide Descends;
    hide LinkedDown;
    var n := |before|;
    var start := before + [Fresh(after[n])];
    var score := QueryScores(start, after[n].record.vector, after[n].norm);
    var ep, l :| Descends(start, score, 0, 1, 0, ep) && LinkedDown(score, start, after, n, 0, 0, ep, l, efConst, m);
    NothingToDescend(start, score, 0, 1, 0, ep);
    LinkedOnGround(score, start, after, n, 0, 0, ep, l, efConst, m);
    last := l;
  }

  lemma FreshOnGround(node: Node)
    requires node.level == 0
    ensures Fresh(node) == node.(connections := [[]])
  {
  }

  /** Inserting the next record on level 0 gives the longer chain. */
  lemma ChainGrows(records: seq<Record>, n: nat, sqrt: real -> real, after: seq<Node>, efConst: int, m: int)
    requires 0 < n < |records| && FallsAway(records, sqrt) && efConst >= 1 && m >= 1
    requires |after| == n + 1 && Shaped(after)
    requires Skeleton(after)
             == Skeleton(ChainOf(records[..n], sqrt, 0) + [Node(records[n], NormOf(records[n], sqrt), [], 0, false)])
    requires Placed(ChainOf(records[..n], sqrt, 0), after, 0, 0, efConst, m)
    ensures after == ChainOf(records[..n + 1], sqrt, 0)
  {
    var before, longer := ChainOf(records[..n], sqrt, 0), ChainOf(records[..n + 1], sqrt, 0);
    var plain := Node(records[n], NormOf(records[n], sqrt), [], 0, false);
    SkeletonNode(after, before + [plain], n);
    FreshOnGround(after[n]);
    assert before + [Fresh(after[n])] == Start(records, n, sqrt);
    var last := PlacedOnGround(before, after, efConst, m);
    LayerGrows(records, n, sqrt, LayerAdj(after, 0), last, efConst, m);
    hide Placed;
    SameOnGround(after, longer, before + [plain]);
  }

  /** A graph of level 0 is known by its skeleton and its links there. */
  lemma SameOnGround(a: seq<Node>, b: seq<Node>, plain: seq<Node>)
    requires Skeleton(a) == Skeleton(plain) && |plain| == |b| && Shaped(a) && Shaped(b)
    requires forall i :: 0 <= i < |b| ==> b[i].level == 0 && b[i].(connections := []) == plain[i].(connections := [])
    requires |a| == |b| && forall i :: 0 <= i < |b| ==> LayerAdj(a, 0)[i] == LayerAdj(b, 0)[i]
    ensures a == b
  {
    forall i | 0 <= i < |b|
      ensures a[i] == b[i]
    {
      SkeletonNode(a, plain, i);
      assert a[i].connections == [LayerAdj(a, 0)[i]] && b[i].connections == [LayerAdj(b, 0)[i]];
    }
  }

  lemma OnlyMember(links: seq<int>, members: set<int>, cap: int)
    requires ListOk(links, 0, members, cap) && members <= {0}
    ensures links == []
  {
    NoDupSize(links, members - {0});
    assert members - {0} == {};
  }

  /** The first record makes the shortest chain. */
  lemma ChainBegins(r: Record, sqrt: real -> real, after: seq<Node>, m: int, overflowed: set<int>)
    requires Skeleton(after) == Skeleton([Node(r, NormOf(r, sqrt), [], 0, false)]) && |after| == 1
    requires GraphInv(after, m, overflowed)
    ensures after == ChainOf([r], sqrt, 0)
  {
    SkeletonNode(after, [Node(r, NormOf(r, sqrt), [], 0, false)], 0);
    var adj := LayerAdj(after, 0);
    assert LayerInv(adj, Members(after, 0), Cap(m, 0), 0 in overflowed);
    assert ListOk(adj[0], 0, Members(after, 0), Cap(m, 0));
    OnlyMember(adj[0], Members(after, 0), Cap(m, 0));
    SameOnGround(after, ChainOf([r], sqrt, 0), [Node(r, NormOf(r, sqrt), [], 0, false)]);
  }

  /** No list of a chain overflows. */
  lemma ChainNeverOverflows(records: seq<Record>, n: nat, sqrt: real -> real, m: int, noted: set<int>, noted': set<int>)
    requires 0 < n < |records| && m >= 1 && 0 !in noted
    requires OverflowsNoted(ChainOf(records[..n], sqrt, 0), ChainOf(records[..n + 1], sqrt, 0), n, m, noted, noted')
    ensures 0 !in noted'
  {
    var before, after := ChainOf(records[..n], sqrt, 0), ChainOf(records[..n + 1], sqrt, 0);
    var adj := LayerAdj(before, 0);
    assert LayerAdj(after, 0)[n] == ChainLinks(n, n + 1);
    forall s | s in LayerAdj(after, 0)[n] && 0 <= s < |adj|
      ensures |adj[s]| + 1 <= Cap(m, 0)
    {
      assert s == n - 1 && adj[s] == ChainLinks(n - 1, n);
    }
  }

  lemma OneNodeNeverOverflows(after: seq<Node>, m: int, noted: set<int>, noted': set<int>)
    requires |after| == 1 && 0 !in noted && OverflowsNoted([], after, 0, m, noted, noted')
    ensures 0 !in noted'
  {
    assert |LayerAdj([], 0)| == 0;
    assert !Overflows(LayerAdj([], 0), LayerAdj(after, 0)[0], Cap(m, 0));
  }

  // ---------- The run ----------

  /** Records that an index takes one after another. */
  ghost predicate Insertable(records: seq<Record>, dimension: nat) {
    && (forall i :: 0 <= i < |records| ==>
          records[i].id != "" && VectorFault(records[i].vector).None? && |records[i].vector| == dimension)
    && (forall i, j :: 0 <= i < j < |records| ==> records[i].id != records[j].id)
  }

  lemma NotYetMapped(records: seq<Record>, n: nat, sqrt: real -> real, idMap: map<string, int>, dimension: nat)
    requires n < |records| && Insertable(records, dimension)
    requires MapOk(ChainOf(records[..n], sqrt, 0), idMap)
    ensures records[n].id !in idMap
  {
    assert forall i :: 0 <= i < n ==> ChainOf(records[..n], sqrt, 0)[i].record.id != records[n].id;
  }

  /** Inserting such records into an empty index, all on level 0, builds the chain. */
  method BuildChain(index: HnswIndex, records: seq<Record>, ghost dimension: nat)
    requires index.Valid() && index.IdsOk() && index.nodes == [] && 0 !in index.overflowed
    requires forall i :: index.levels(i) == 0
    requires records != [] && Insertable(records, dimension) && FallsAway(records, index.sqrt)
    modifies index
    ensures index.Valid() && index.IdsOk() && 0 !in index.overflowed
    ensures index.nodes == ChainOf(records, index.sqrt, 0) && index.entryPoint == 0 && index.maxLevel == 0
    ensures index.dimension == dimension && index.efSearch == old(index.efSearch)
  {
    hide Insertable;
    hide FallsAway;
    hide HnswIndex.Valid;
    hide HnswIndex.IdsOk;
    hide Placed;
    hide OverflowsNoted;
    hide Skeleton;
    for n := 0 to |records|
      invariant index.Valid() && index.IdsOk() && 0 !in index.overflowed
      invariant n == 0 ==> index.nodes == []
      invariant n > 0 ==> Grown(index, records, n, dimension)
      invariant index.efSearch == old(index.efSearch)
    {
      AddToChain(index, records, n, dimension);
    }
    assert records[..|records|] == records;
  }

  ghost predicate Grown(index: HnswIndex, records: seq<Record>, n: nat, dimension: nat)
    requires n <= |records|
    reads index
  {
    && index.nodes == ChainOf(records[..n], index.sqrt, 0)
    && index.entryPoint == 0 && index.maxLevel == 0 && index.dimension == dimension
  }

  /** One insertion of that run. */
  method AddToChain(index: HnswIndex, records: seq<Record>, n: nat, ghost dimension: nat)
    requires index.Valid() && index.IdsOk() && 0 !in index.overflowed
    requires forall i :: index.levels(i) == 0
    requires n < |records| && Insertable(records, dimension) && FallsAway(records, index.sqrt)
    requires n == 0 ==> index.nodes == []
    requires n > 0 ==> Grown(index, records, n, dimension)
    modifies index
    ensures index.Valid() && index.IdsOk() && 0 !in index.overflowed
    ensures Grown(index, records, n + 1, dimension)
    ensures index.efSearch == old(index.efSearch)
  {
    hide FallsAway;
    hide Placed;
    hide OverflowsNoted;
    hide Skeleton;
    hide GraphInv;
    hide LiveRecords;
    hide NormsOk;
    hide VectorsOk;
    hide IsSqrt;
    hide MapOk;
    hide MapOnto;
    ghost var before, noted := index.nodes, index.overflowed;
    if n == 0 {
      assert records[..0] == [] && before == ChainOf(records[..0], index.sqrt, 0);
    }
    NotYetMapped(records, n, index.sqrt, index.idMap, dimension);
    var r := records[n];
    var err := index.Insert(r.id, r.text, r.vector);
    assert err.None?;
    assert GraphInv(index.nodes, index.m, index.overflowed);
    if n == 0 {
      assert before + [Node(r, NormOf(r, index.sqrt), [], 0, false)] == [Node(r, NormOf(r, index.sqrt), [], 0, false)];
      ChainBegins(r, index.sqrt, index.nodes, index.m, index.overflowed);
      assert records[..1] == [r];
      OneNodeNeverOverflows(index.nodes, index.m, noted, index.overflowed);
    } else {
      GraphIsShaped(index.nodes, index.m, index.overflowed);
      ChainGrows(records, n, index.sqrt, index.nodes, index.efConst, index.m);
      ChainNeverOverflows(records, n, index.sqrt, index.m, noted, index.overflowed);
    }
  }

  lemma GraphIsShaped(nodes: seq<Node>, m: int, overflowed: set<int>)
    requires GraphInv(nodes, m, overflowed)
    ensures Shaped(nodes)
  {
  }

  /** Deleting the first ids turns the front of the chain into tombstones. */
  method DeleteFront(index: HnswIndex, records: seq<Record>, dead: nat, ghost dimension: nat)
    requires index.Valid() && index.IdsOk() && index.nodes == ChainOf(records, index.sqrt, 0)
    requires Insertable(records, dimension) && dead <= |records|
    modifies index`nodes, index`idMap
    ensures index.Valid() && index.IdsOk() && index.nodes == ChainOf(records, index.sqrt, dead)
  {
    hide GraphInv;
    hide LiveRecords;
    hide NormsOk;
    hide VectorsOk;
    hide IsSqrt;
    hide EntryOk;
    for i := 0 to dead
      invariant index.Valid() && index.IdsOk() && index.nodes == ChainOf(records, index.sqrt, i)
    {
      ghost var before := index.nodes;
      assert !before[i].deleted && before[i].record == records[i];
      assert index.idMap[records[i].id] == i;
      var err := index.Delete(records[i].id);
      assert index.nodes == before[i := before[i].(deleted := true)];
      assert index.nodes == ChainOf(records, index.sqrt, i + 1);
    }
  }
}
