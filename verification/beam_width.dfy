/** How wide the beam of a query must be for the answer to be full, and to be exact: tombstones use up its room. */
module BeamWidths {
  import opened Answers
  import opened Beams
  import opened Chains
  import opened Circle
  import opened Graph
  import opened Heaps
  import opened Hnsw
  import opened IndexSpec
  import opened Layers
  import opened Permutations
  import opened Results
  import opened TopK
  import opened Vectors

  /** A graph as a valid index holds it, layer 0 never pruned, with so many live records and tombstones. */
  ghost predicate Unpruned(nodes: seq<Node>, m: int, overflowed: set<int>, entryPoint: int, maxLevel: int,
                           dimension: nat, sqrt: real -> real, live: nat, dead: nat)
  {
    && GraphInv(nodes, m, overflowed) && 0 !in overflowed
    && VectorsOk(nodes, dimension) && NormsOk(nodes, sqrt) && EntryOk(nodes, entryPoint, maxLevel)
    && DistinctIds(LiveRecords(nodes))
    && |LiveRecords(nodes)| == live && |Tombstones(nodes)| == dead
  }

  /** On every such graph every answer to every query holds min(k, live) hits. */
  ghost predicate AlwaysFull(live: nat, dead: nat, k: nat, m: int, ef: int, sqrt: real -> real) {
    forall nodes, overflowed, entryPoint, maxLevel, dimension, query, hits ::
      Unpruned(nodes, m, overflowed, entryPoint, maxLevel, dimension, sqrt, live, dead)
      && IsAnswer(nodes, query, sqrt(Dot(query, query)), entryPoint, maxLevel, ef, k, hits)
      ==> |hits| == Min(k, live)
  }

  /** All live records as hits. */
  ghost function AllOf(nodes: seq<Node>, query: Vector, sqrt: real -> real): multiset<TextHit> {
    multiset(RecordHits(LiveRecords(nodes), query, sqrt(Dot(query, query)), sqrt))
  }

  /** On every such graph every answer to every query is an exact top-k. */
  ghost predicate AlwaysExact(live: nat, dead: nat, k: nat, m: int, ef: int, sqrt: real -> real) {
    forall nodes, overflowed, entryPoint, maxLevel, dimension, query, hits ::
      Unpruned(nodes, m, overflowed, entryPoint, maxLevel, dimension, sqrt, live, dead)
      && IsAnswer(nodes, query, sqrt(Dot(query, query)), entryPoint, maxLevel, ef, k, hits)
      ==> IsTopK(AllOf(nodes, query, sqrt), hits, k)
  }

  // ---------- A beam on a chain ----------

  ghost predicate FallingUpto(score: seq<real>, n: nat) {
    n <= |score| && forall i, j :: 0 <= i < j < n ==> score[i] > score[j]
  }

  /** A narrow search that begins at the front of a chain visits it in order, one node beyond its width. */
  lemma {:induction false} VisitIsFront(adj: Adj, score: seq<real>, ef: nat, b: nat, order: seq<int>, n: nat)
    requires IsChain(adj) && |score| == |adj| && FallingUpto(score, b) && 1 <= ef < b <= |adj|
    requires IsVisit(adj, score, 0, ef, order) && 1 <= n <= |order|
    ensures n <= ef + 1 && forall i :: 0 <= i < n ==> order[i] == i
  {
    if n > 1 {
      var i := n - 1;
      VisitIsFront(adj, score, ef, b, order, i);
      assert Found(adj, score, ef, order, i);
      var j :| 0 <= j < i && Leads(adj, score, ef, order, j, i);
      assert order[j] == j && order[i] in ChainLinks(j, |adj|);
      NextIsNew(order, i);
      assert j == i - 1;
      AllRivals(score, order, b, i - 1);
    }
  }

  lemma NextIsNew(order: seq<int>, i: nat)
    requires 0 < i < |order| && NoDup(order) && forall x :: 0 <= x < i ==> order[x] == x
    ensures order[i] < 0 || order[i] >= i
  {
    var y := if 0 <= order[i] < i then order[i] else 0;
    assert order[y] == y;
  }

  lemma AllRivals(score: seq<real>, order: seq<int>, b: nat, j: nat)
    requires FallingUpto(score, b) && j < b && j < |order| && forall i :: 0 <= i <= j ==> order[i] == i
    ensures |Rivals(score, order, j)| == j
  {
    UptoFacts(j);
    forall v | v in Upto(j)
      ensures v in Rivals(score, order, j)
    {
      assert order[..j][v] == v;
    }
    assert Rivals(score, order, j) == Upto(j);
  }

  lemma VisitedIsFront(adj: Adj, score: seq<real>, ef: nat, b: nat, visited: set<int>)
    requires IsChain(adj) && |score| == |adj| && FallingUpto(score, b) && 1 <= ef < b <= |adj|
    requires VisitedInOrder(adj, score, 0, ef, visited)
    ensures forall v :: v in visited ==> 0 <= v < b
  {
    var order :| IsVisit(adj, score, 0, ef, order) && forall v :: v in visited <==> v in order;
    VisitIsFront(adj, score, ef, b, order, |order|);
  }

  /** The nodes at the front of the chain are all in the beam. */
  lemma {:induction false} FrontInBeam(adj: Adj, score: seq<real>, ef: nat, b: nat, beam: seq<Candidate>,
                                       visited: set<int>, i: nat)
    requires IsChain(adj) && FallingUpto(score, b) && IsBeam(adj, score, 0, ef, beam, visited)
    requires forall v :: v in visited ==> 0 <= v < b
    requires i < ef < b <= |adj|
    ensures i in Ids(beam)
  {
    hide VisitedInOrder;
    hide Reachable;
    hide BestFirst;
    if i > 0 {
      FrontInBeam(adj, score, ef, b, beam, visited, i - 1);
      var j :| 0 <= j < |beam| && Ids(beam)[j] == i - 1;
      assert beam[j] in beam && i in ChainLinks(i - 1, |adj|);
      assert Edge(adj, beam[j].id, i);
    }
    hide IsChainUpto;
    assert i in visited;
    hide IsBeam;
    if i !in Ids(beam) {
      NotInBeam(adj, score, 0, ef, b, beam, visited, i);
    }
  }

  lemma BeamIsFullOrAll(adj: Adj, score: seq<real>, ep: int, ef: int, beam: seq<Candidate>, visited: set<int>, i: int)
    requires IsBeam(adj, score, ep, ef, beam, visited) && ef >= 1
    requires i in visited && i !in Ids(beam)
    ensures |beam| == ef
  {
    if |beam| < ef {
      BeamOfAllVisited(adj, score, ep, ef, beam, visited);
      assert false;
    }
  }

  /** With falling scores, a visited node is left out only when the beam is full of nodes before it. */
  lemma NotInBeam(adj: Adj, score: seq<real>, ep: int, ef: int, b: nat, beam: seq<Candidate>, visited: set<int>, i: nat)
    requires FallingUpto(score, b) && IsBeam(adj, score, ep, ef, beam, visited) && ef >= 1
    requires forall v :: v in visited ==> 0 <= v < b
    requires i in visited && i !in Ids(beam)
    ensures ef <= i
  {
    hide VisitedInOrder;
    BeamIsFullOrAll(adj, score, ep, ef, beam, visited, i);
    UptoFacts(i);
    hide Upto;
    forall x | x in Ids(beam)
      ensures x in Upto(i)
    {
      var j :| 0 <= j < |beam| && Ids(beam)[j] == x;
      assert beam[j] in beam;
      assert score[i] <= score[x];
    }
    NoDupSize(Ids(beam), Upto(i));
  }

  lemma BeamOfFront(adj: Adj, score: seq<real>, ef: nat, b: nat, beam: seq<Candidate>, visited: set<int>)
    requires IsChain(adj) && FallingUpto(score, b) && IsBeam(adj, score, 0, ef, beam, visited)
    requires 1 <= ef < b <= |adj|
    ensures (set x | x in Ids(beam)) == Upto(ef)
  {
    VisitedIsFront(adj, score, ef, b, visited);
    UptoFacts(ef);
    forall i | i in Upto(ef)
      ensures i in Ids(beam)
    {
      FrontInBeam(adj, score, ef, b, beam, visited, i);
    }
    NoDupSet(Ids(beam));
    FullSubset(Upto(ef), set x | x in Ids(beam));
  }

  /** And such a beam there is. */
  lemma FrontIsBeam(adj: Adj, score: seq<real>, ef: nat, b: nat, beam: seq<Candidate>)
    requires IsChain(adj) && FallingUpto(score, b) && |score| == |adj| && 1 <= ef < b <= |adj|
    requires |beam| == ef && forall i :: 0 <= i < ef ==> beam[i] == Candidate(i, score[i])
    ensures IsBeam(adj, score, 0, ef, beam, Upto(ef + 1))
  {
    FrontIsVisited(adj, score, ef, b);
    UptoFacts(ef + 1);
    hide VisitedInOrder;
    hide Upto;
    forall v | v in Upto(ef + 1)
      ensures Reachable(adj, 0, v)
    {
      ChainJoins(adj, v);
    }
    hide Reachable;
    forall v | 0 <= v < ef
      ensures v in Ids(beam)
    {
      assert Ids(beam)[v] == v;
    }
    forall c, t | c in beam && Edge(adj, c.id, t)
      ensures t in Upto(ef + 1)
    {
      LinkedNearby(adj, c.id, t);
    }
    hide IsChainUpto;
    hide Edge;
  }

  lemma LinkedNearby(adj: Adj, i: int, t: int)
    requires IsChain(adj) && Edge(adj, i, t)
    ensures 0 <= t < |adj| && (t == i - 1 || t == i + 1)
  {
    assert t in ChainLinks(i, |adj|);
  }

  lemma FrontIsVisited(adj: Adj, score: seq<real>, ef: nat, b: nat)
    requires IsChain(adj) && FallingUpto(score, b) && |score| == |adj| && 1 <= ef < b <= |adj|
    ensures VisitedInOrder(adj, score, 0, ef, Upto(ef + 1))
  {
    var order := Indices(ef + 1);
    IndicesFacts(ef + 1);
    forall i | 0 < i < |order|
      ensures Found(adj, score, ef, order, i)
    {
      AllRivals(score, order, b, i - 1);
      assert i in ChainLinks(i - 1, |adj|);
      assert Leads(adj, score, ef, order, i - 1, i);
    }
    assert IsVisit(adj, score, 0, ef, order);
    UptoFacts(ef + 1);
    forall v
      ensures v in Upto(ef + 1) <==> v in order
    {
      assert 0 <= v < ef + 1 ==> order[v] == v;
    }
  }

  // ---------- Answers on a chain ----------

  lemma ChainCounts(records: seq<Record>, sqrt: real -> real, dead: nat)
    requires dead <= |records| && forall i :: 0 <= i < |records| ==> |records[i].id| == i + 1
    ensures var nodes := ChainOf(records, sqrt, dead);
            && Tombstones(nodes) == Upto(dead) && |Tombstones(nodes)| == dead
            && |LiveRecords(nodes)| == |records| - dead && DistinctIds(LiveRecords(nodes))
  {
    var nodes := ChainOf(records, sqrt, dead);
    UptoFacts(dead);
    assert Tombstones(nodes) == Upto(dead);
    LiveAndDead(nodes);
    LiveIdsGrow(nodes);
  }

  /** Ids of growing length stay apart. */
  ghost predicate GrowingIds(records: seq<Record>, most: nat) {
    && (forall i :: 0 <= i < |records| ==> |records[i].id| <= most)
    && (forall i, j :: 0 <= i < j < |records| ==> |records[i].id| < |records[j].id|)
  }

  lemma {:induction false} LiveIdsGrow(nodes: seq<Node>)
    requires forall i :: 0 <= i < |nodes| ==> |nodes[i].record.id| == i + 1
    ensures GrowingIds(LiveRecords(nodes), |nodes|)
    decreases |nodes|
  {
    if nodes != [] {
      var n := |nodes| - 1;
      assert forall i :: 0 <= i < n ==> nodes[..n][i] == nodes[i];
      LiveIdsGrow(nodes[..n]);
      assert GrowingIds(LiveRecords(nodes[..n]) + [nodes[n].record], |nodes|);
      assert GrowingIds(LiveRecords(nodes[..n]) + [], |nodes|);
    }
  }

  lemma ChainVectors(n: nat, dead: nat, lifted: bool, sqrt: real -> real)
    requires IsSqrt(sqrt)
    ensures VectorsOk(ChainOf(ChainRecords(n, lifted), sqrt, dead), 3)
  {
    var nodes := ChainOf(ChainRecords(n, lifted), sqrt, dead);
    forall i | 0 <= i < |nodes|
      ensures |nodes[i].record.vector| == 3 && nodes[i].norm > 0.0
    {
      ChainNorm(i, lifted && i + 1 == |nodes|, sqrt);
      HypPositive(i as real);
    }
  }

  lemma ChainIsUnpruned(live: nat, dead: nat, lifted: bool, m: int, sqrt: real -> real)
    requires m >= 1 && live + dead > 0 && IsSqrt(sqrt)
    ensures Unpruned(ChainOf(ChainRecords(live + dead, lifted), sqrt, dead), m, {}, 0, 0, 3, sqrt, live, dead)
  {
    var records := ChainRecords(live + dead, lifted);
    ChainInv(records, sqrt, dead, m);
    ChainCounts(records, sqrt, dead);
    ChainVectors(live + dead, dead, lifted, sqrt);
    ChainEntry(records, sqrt, dead);
    hide GraphInv;
    hide VectorsOk;
    hide NormsOk;
    hide EntryOk;
    hide LiveRecords;
    hide Tombstones;
    hide DistinctIds;
    hide ChainRecord;
    hide ChainOf;
  }

  lemma ChainEntry(records: seq<Record>, sqrt: real -> real, dead: nat)
    requires records != []
    ensures NormsOk(ChainOf(records, sqrt, dead), sqrt) && EntryOk(ChainOf(records, sqrt, dead), 0, 0)
  {
  }

  /** The hits a beam of the first ef nodes gives, the first `dead` being tombstones. */
  lemma FrontHits(nodes: seq<Node>, score: seq<real>, beam: seq<Candidate>, ef: nat, dead: nat, k: nat)
    requires |score| == |nodes| && Scored(beam, score) && NoDup(Ids(beam))
    requires (set x | x in Ids(beam)) == Upto(ef) && Tombstones(nodes) == Upto(dead)
    ensures var hits := FirstK(LiveHits(nodes, score, Ids(beam)), k);
            && |hits| == Min(k, if ef > dead then ef - dead else 0)
            && forall h :: h in hits ==> exists x :: 0 <= x < ef && x < |score| && h.score == score[x]
  {
    BeamIds(beam, score);
    HitPerLiveNode(nodes, score, Ids(beam));
    FrontWithout(ef, dead);
    UptoFacts(ef);
    HitsOfNodes(nodes, score, Ids(beam));
    hide LiveHits;
    forall x | x in Ids(beam)
      ensures 0 <= x < ef
    {
      assert x in Upto(ef);
    }
  }

  /** Any answer on a chain, of any width short of where the scores stop falling, is what is left of the front
      after the tombstones. */
  lemma ChainAnswer(records: seq<Record>, sqrt: real -> real, dead: nat, query: Vector, norm: real, b: nat, k: nat,
                    ef: nat, hits: seq<TextHit>)
    requires dead <= |records| && forall i :: 0 <= i < |records| ==> |records[i].id| == i + 1
    requires 1 <= ef < b <= |records|
    requires FallingUpto(QueryScores(ChainOf(records, sqrt, dead), query, norm), b)
    requires IsAnswer(ChainOf(records, sqrt, dead), query, norm, 0, 0, ef, k, hits)
    ensures |hits| == Min(k, if ef > dead then ef - dead else 0)
    ensures var score := QueryScores(ChainOf(records, sqrt, dead), query, norm);
            forall h :: h in hits ==> exists x :: 0 <= x < ef && h.score == score[x]
  {
    var nodes := ChainOf(records, sqrt, dead);
    var score := QueryScores(nodes, query, norm);
    var ep, beam, visited :|
      && Descends(nodes, score, 0, 1, 0, ep)
      && IsBeam(LayerAdj(nodes, 0), score, ep, ef, beam, visited)
      && hits == FirstK(LiveHits(nodes, score, Ids(beam)), k);
    hide LiveHits;
    hide FirstK;
    NothingToDescend(nodes, score, 0, 1, 0, ep);
    ChainInv(records, sqrt, dead, 1);
    hide GraphInv;
    BeamOfFront(LayerAdj(nodes, 0), score, ef, b, beam, visited);
    BeamIsSound(LayerAdj(nodes, 0), score, 0, ef, beam, visited);
    hide IsBeam;
    hide IsChainUpto;
    ChainCounts(records, sqrt, dead);
    FrontHits(nodes, score, beam, ef, dead, k);
  }

  lemma BeamIsSound(adj: Adj, score: seq<real>, ep: int, ef: int, beam: seq<Candidate>, visited: set<int>)
    requires IsBeam(adj, score, ep, ef, beam, visited)
    ensures |score| == |adj| && Scored(beam, score) && NoDup(Ids(beam))
  {
  }

  /** Every hit carries the score of a node it comes from. */
  lemma {:induction false} HitsOfNodes(nodes: seq<Node>, score: seq<real>, ids: seq<int>)
    ensures forall h :: h in LiveHits(nodes, score, ids) ==>
              exists x :: x in ids && 0 <= x < |score| && h.score == score[x]
    decreases |ids|
  {
    if ids != [] {
      HitsOfNodes(nodes, score, ids[1..]);
      assert ids == [ids[0]] + ids[1..];
      LiveHitsConcat(nodes, score, [ids[0]], ids[1..]);
      LiveHitsOne(nodes, score, ids[0]);
      forall h | h in LiveHits(nodes, score, ids)
        ensures exists x :: x in ids && 0 <= x < |score| && h.score == score[x]
      {
        if h in LiveHits(nodes, score, ids[1..]) {
          var x :| x in ids[1..] && 0 <= x < |score| && h.score == score[x];
          assert x in ids;
        } else {
          assert ids[0] in ids;
        }
      }
    }
  }

  lemma FrontWithout(ef: nat, dead: nat)
    ensures |Upto(ef) - Upto(dead)| == if ef > dead then ef - dead else 0
  {
    UptoFacts(ef);
    UptoFacts(dead);
    if ef > dead {
      assert Upto(ef) == (Upto(ef) - Upto(dead)) + Upto(dead);
    } else {
      assert Upto(ef) - Upto(dead) == {};
    }
  }

  /** The chain has an answer of every such width. */
  lemma ChainIsAnswered(records: seq<Record>, sqrt: real -> real, dead: nat, query: Vector, norm: real, b: nat, k: nat,
                        ef: nat)
    returns (hits: seq<TextHit>)
    requires 1 <= ef < b <= |records|
    requires FallingUpto(QueryScores(ChainOf(records, sqrt, dead), query, norm), b)
    ensures IsAnswer(ChainOf(records, sqrt, dead), query, norm, 0, 0, ef, k, hits)
  {
    var nodes := ChainOf(records, sqrt, dead);
    var score := QueryScores(nodes, query, norm);
    var beam := seq(ef, i requires 0 <= i < ef => Candidate(i, score[i]));
    ChainInv(records, sqrt, dead, 1);
    FrontIsBeam(LayerAdj(nodes, 0), score, ef, b, beam);
    hits := FirstK(LiveHits(nodes, score, Ids(beam)), k);
    assert Descends(nodes, score, 0, 1, 0, 0);
  }

  // ---------- The scores of the two queries ----------

  lemma FallingScores(n: nat, dead: nat, sqrt: real -> real)
    requires IsSqrt(sqrt)
    ensures FallingUpto(QueryScores(ChainOf(ChainRecords(n, false), sqrt, dead), FALLING_QUERY, 1.0), n)
  {
    var score := QueryScores(ChainOf(ChainRecords(n, false), sqrt, dead), FALLING_QUERY, 1.0);
    hide ChainRecord;
    forall i, j | 0 <= i < j < n
      ensures score[i] > score[j]
    {
      ChainNorm(i, false, sqrt);
      ChainNorm(j, false, sqrt);
      FallingScore(i);
      FallingScore(j);
      HypGrows(i as real, j as real);
      InverseFalls(Hyp(i as real), Hyp(j as real));
    }
  }

  /** The scores fall up to the last point, which is more similar than any. */
  lemma LiftedScores(n: nat, dead: nat, sqrt: real -> real)
    requires IsSqrt(sqrt) && n > 1
    ensures var score := QueryScores(ChainOf(ChainRecords(n, true), sqrt, dead), LIFTED_QUERY, 5.0);
            FallingUpto(score, n - 1) && forall i :: 0 <= i < n - 1 ==> score[i] < score[n - 1]
  {
    var score := QueryScores(ChainOf(ChainRecords(n, true), sqrt, dead), LIFTED_QUERY, 5.0);
    hide ChainRecord;
    forall i, j | 0 <= i < j < n - 1
      ensures score[i] > score[j]
    {
      ChainNorm(i, false, sqrt);
      ChainNorm(j, false, sqrt);
      LiftedScore(i, false);
      LiftedScore(j, false);
      HypGrows(i as real, j as real);
      InverseFalls(Hyp(i as real), Hyp(j as real));
    }
    forall i | 0 <= i < n - 1
      ensures score[i] < score[n - 1]
    {
      ChainNorm(i, false, sqrt);
      ChainNorm(n - 1, true, sqrt);
      LiftedScore(i, false);
      LiftedScore(n - 1, true);
      AtMostOne(i as real);
      ProductSign(1.0 / Hyp((n - 1) as real), Hyp((n - 1) as real), 1.0);
    }
  }

  lemma AtMostOne(x: real)
    requires x >= 0.0
    ensures Hyp(x) > 0.0 && 1.0 / Hyp(x) <= 1.0
  {
    HypPositive(x);
  }

  // ---------- The exact width of a full answer ----------

  /** What is enough on every graph: no live record or no hit asked for, or room for the hits and all the
      tombstones. */
  lemma WideEnough(live: nat, dead: nat, k: nat, m: int, ef: int, sqrt: real -> real)
    requires ef >= 1 && (Min(k, live) == 0 || ef >= Min(k, live) + dead)
    ensures AlwaysFull(live, dead, k, m, ef, sqrt)
  {
    hide IsAnswer;
    hide GraphInv;
    forall nodes, overflowed, entryPoint, maxLevel, dimension, query, hits
      | Unpruned(nodes, m, overflowed, entryPoint, maxLevel, dimension, sqrt, live, dead)
        && IsAnswer(nodes, query, sqrt(Dot(query, query)), entryPoint, maxLevel, ef, k, hits)
      ensures |hits| == Min(k, live)
    {
      var norm := sqrt(Dot(query, query));
      if Min(k, live) == 0 {
        AnswerIsPart(nodes, query, norm, sqrt, entryPoint, maxLevel, ef, k, hits);
        SubMultisetSize(multiset(hits), multiset(RecordHits(LiveRecords(nodes), query, norm, sqrt)));
      } else {
        AnswerIsFull(nodes, m, overflowed, query, norm, entryPoint, maxLevel, ef, k, hits);
      }
    }
  }

  /** A graph with an answer that is too short. */
  lemma TooShort(live: nat, dead: nat, k: nat, m: int, ef: nat, sqrt: real -> real) returns (hits: seq<TextHit>)
    requires m >= 1 && IsSqrt(sqrt) && Min(k, live) > 0 && 1 <= ef < Min(k, live) + dead
    ensures var nodes := ChainOf(ChainRecords(live + dead, false), sqrt, dead);
            && Unpruned(nodes, m, {}, 0, 0, 3, sqrt, live, dead)
            && IsAnswer(nodes, FALLING_QUERY, sqrt(Dot(FALLING_QUERY, FALLING_QUERY)), 0, 0, ef, k, hits)
            && |hits| < Min(k, live)
  {
    var n := live + dead;
    var records := ChainRecords(n, false);
    ChainIsUnpruned(live, dead, false, m, sqrt);
    QueryNorms(sqrt);
    FallingScores(n, dead, sqrt);
    hits := ChainIsAnswered(records, sqrt, dead, FALLING_QUERY, 1.0, n, k, ef);
    ChainAnswer(records, sqrt, dead, FALLING_QUERY, 1.0, n, k, ef, hits);
  }

  /** For all numbers of live records and tombstones, all k and all m, an answer is sure to hold min(k, live)
      hits if and only if there are none to hold or the beam has room for them and for every tombstone. */
  lemma ExactWidth(live: nat, dead: nat, k: nat, m: int, ef: int, sqrt: real -> real)
    requires m >= 1 && ef >= 1 && IsSqrt(sqrt)
    ensures AlwaysFull(live, dead, k, m, ef, sqrt) <==> Min(k, live) == 0 || ef >= Min(k, live) + dead
  {
    if Min(k, live) == 0 || ef >= Min(k, live) + dead {
      WideEnough(live, dead, k, m, ef, sqrt);
    } else {
      var hits := TooShort(live, dead, k, m, ef, sqrt);
      hide IsAnswer;
      hide Unpruned;
    }
  }

  // ---------- The exact width of an exact answer ----------

  /** One node short of the whole graph, a beam has still visited all of it. */
  lemma AllVisited(nodes: seq<Node>, m: int, overflowed: set<int>, score: seq<real>, ep: int, ef: int,
                   beam: seq<Candidate>, visited: set<int>)
    requires GraphInv(nodes, m, overflowed) && 0 !in overflowed
    requires IsBeam(LayerAdj(nodes, 0), score, ep, ef, beam, visited) && ef >= 1 && ef >= |nodes| - 1
    ensures visited == Upto(|nodes|)
  {
    hide GraphInv;
    hide VisitedInOrder;
    AllReachable(nodes, m, overflowed, ep);
    if |visited| <= ef {
      BeamIsComplete(LayerAdj(nodes, 0), score, ep, ef, beam, visited, Upto(|nodes|));
    } else {
      SubsetOfAll(visited, |nodes|);
      FullSubset(visited, Upto(|nodes|));
    }
  }

  lemma SubsetOfAll(visited: set<int>, n: nat)
    requires forall v :: v in visited ==> 0 <= v < n
    ensures visited <= Upto(n) && |visited| <= n
  {
    UptoFacts(n);
    forall v | v in visited
      ensures v in Upto(n)
    {
    }
    SubsetSize(visited, Upto(n));
  }

  lemma LeftOutIsWorse(adj: Adj, score: seq<real>, ep: int, ef: int, beam: seq<Candidate>, visited: set<int>,
                       rest: seq<int>, n: nat)
    requires IsBeam(adj, score, ep, ef, beam, visited) && visited == Upto(n) && n == |score|
    requires multiset(Ids(beam) + rest) == multiset(Indices(n))
    ensures forall x :: x in rest ==> 0 <= x < n && forall c :: c in beam ==> score[x] <= c.similarity
  {
    hide VisitedInOrder;
    IndicesFacts(n);
    UptoFacts(n);
    forall x | x in rest
      ensures 0 <= x < n && forall c :: c in beam ==> score[x] <= c.similarity
    {
      assert multiset(rest)[x] >= 1;
      assert x in multiset(Indices(n));
      NoDupCount(Indices(n), x);
      assert multiset(Ids(beam) + rest)[x] == multiset(Ids(beam))[x] + multiset(rest)[x];
      assert x !in multiset(Ids(beam));
    }
  }

  ghost function CandidatesOf(ids: seq<int>, score: seq<real>): (r: seq<Candidate>)
    requires forall i :: 0 <= i < |ids| ==> 0 <= ids[i] < |score|
    ensures |r| == |ids| && forall i :: 0 <= i < |r| ==> r[i] == Candidate(ids[i], score[ids[i]])
  {
    seq(|ids|, i requires 0 <= i < |ids| => Candidate(ids[i], score[ids[i]]))
  }

  /** One more candidate, no better than the others, goes last. */
  lemma RankedLast(score: seq<real>, beam: seq<Candidate>, rest: seq<int>)
    requires Scored(beam, score) && BestFirst(beam) && |rest| <= 1
    requires forall i :: 0 <= i < |rest| ==> 0 <= rest[i] < |score|
    requires forall i, c :: 0 <= i < |rest| && c in beam ==> score[rest[i]] <= c.similarity
    ensures var all := beam + CandidatesOf(rest, score);
            Scored(all, score) && BestFirst(all) && Ids(all) == Ids(beam) + rest
  {
    assert forall i :: 0 <= i < |beam| ==> beam[i] in beam;
  }

  lemma SizeOfRest(ids: seq<int>, rest: seq<int>, n: nat)
    requires multiset(ids + rest) == multiset(Indices(n))
    ensures |ids| + |rest| == n
  {
    IndicesFacts(n);
    assert |ids + rest| == |multiset(ids + rest)|;
    assert |Indices(n)| == |multiset(Indices(n))|;
  }

  /** A ranking of all nodes that begins with the beam. */
  lemma WholeRanking(adj: Adj, score: seq<real>, ep: int, ef: int, beam: seq<Candidate>, visited: set<int>, n: nat)
    returns (all: seq<Candidate>)
    requires IsBeam(adj, score, ep, ef, beam, visited) && visited == Upto(n) && n == |score| && ef >= n - 1
    ensures Scored(all, score) && BestFirst(all) && beam <= all && multiset(Ids(all)) == multiset(Indices(n))
  {
    UptoFacts(n);
    BeamIds(beam, score);
    var rest := OtherNodes(Ids(beam), n);
    LeftOutIsWorse(adj, score, ep, ef, beam, visited, rest, n);
    assert |beam| >= n - 1 && Scored(beam, score) && BestFirst(beam);
    hide IsBeam;
    hide Upto;
    SizeOfRest(Ids(beam), rest, n);
    assert forall i :: 0 <= i < |rest| ==> rest[i] in rest;
    RankedLast(score, beam, rest);
    all := beam + CandidatesOf(rest, score);
  }

  /** Enough for an exact answer: the beam may lack one node of the graph, but must have room for the hits and all
      the tombstones. */
  lemma NearlyAllIsExact(nodes: seq<Node>, m: int, overflowed: set<int>, query: Vector, queryNorm: real,
                         sqrt: real -> real, entryPoint: int, maxLevel: int, ef: int, k: nat, hits: seq<TextHit>)
    requires GraphInv(nodes, m, overflowed) && 0 !in overflowed && NormsOk(nodes, sqrt)
    requires IsAnswer(nodes, query, queryNorm, entryPoint, maxLevel, ef, k, hits)
    requires ef >= 1 && ef >= |nodes| - 1 && ef >= Min(k, |LiveRecords(nodes)|) + |Tombstones(nodes)|
    ensures IsTopK(multiset(RecordHits(LiveRecords(nodes), query, queryNorm, sqrt)), hits, k)
  {
    hide Descends;
    hide LiveHits;
    hide FirstK;
    hide IsTopK;
    hide RecordHits;
    hide Tombstones;
    var score := QueryScores(nodes, query, queryNorm);
    var ep, beam, visited :|
      && Descends(nodes, score, maxLevel, 1, entryPoint, ep)
      && IsBeam(LayerAdj(nodes, 0), score, ep, ef, beam, visited)
      && hits == FirstK(LiveHits(nodes, score, Ids(beam)), k);
    AllVisited(nodes, m, overflowed, score, ep, ef, beam, visited);
    hide GraphInv;
    BeamIsSound(LayerAdj(nodes, 0), score, ep, ef, beam, visited);
    UptoFacts(|nodes|);
    assert |beam| == Min(ef, |nodes|);
    hide IsBeam;
    hide NormsOk;
    LiveAndDead(nodes);
    var all := WholeRanking(LayerAdj(nodes, 0), score, ep, ef, beam, visited, |nodes|);
    RankedAnswer(nodes, query, queryNorm, sqrt, beam, all, k);
  }

  /** The hits of a ranking of all nodes, best first. */
  lemma RankedHits(nodes: seq<Node>, query: Vector, queryNorm: real, sqrt: real -> real, all: seq<Candidate>)
    requires NormsOk(nodes, sqrt)
    requires var score := QueryScores(nodes, query, queryNorm); Scored(all, score) && BestFirst(all)
    requires multiset(Ids(all)) == multiset(Indices(|nodes|))
    ensures var full := LiveHits(nodes, QueryScores(nodes, query, queryNorm), Ids(all));
            Descending(full) && multiset(full) == multiset(RecordHits(LiveRecords(nodes), query, queryNorm, sqrt))
  {
    var score := QueryScores(nodes, query, queryNorm);
    FlatMapPermutation(i => NodeHit(nodes, score, i), Ids(all), Indices(|nodes|));
    LiveHitsOfAll(nodes, query, queryNorm, sqrt, score);
    LiveHitsDescend(nodes, score, all);
  }

  lemma FrontOfRanking(nodes: seq<Node>, score: seq<real>, beam: seq<Candidate>, all: seq<Candidate>)
    requires beam <= all
    ensures LiveHits(nodes, score, Ids(beam)) <= LiveHits(nodes, score, Ids(all))
  {
    assert Ids(all) == Ids(beam) + Ids(all[|beam|..]);
    LiveHitsConcat(nodes, score, Ids(beam), Ids(all[|beam|..]));
  }

  /** A front of an exact ranking that is long enough gives the same answer. */
  lemma FrontIsTopK(full: seq<TextHit>, front: seq<TextHit>, k: nat, universe: multiset<TextHit>)
    requires Descending(full) && multiset(full) == universe && front <= full && |front| >= Min(k, |universe|)
    ensures IsTopK(universe, FirstK(front, k), k)
  {
    PrefixIsTopK(full, k);
    assert |multiset(full)| == |full|;
    assert FirstK(front, k) == full[..Min(k, |full|)];
  }

  lemma RankedAnswer(nodes: seq<Node>, query: Vector, queryNorm: real, sqrt: real -> real,
                     beam: seq<Candidate>, all: seq<Candidate>, k: nat)
    requires NormsOk(nodes, sqrt)
    requires var score := QueryScores(nodes, query, queryNorm);
             Scored(beam, score) && NoDup(Ids(beam)) && Scored(all, score) && BestFirst(all)
    requires beam <= all && multiset(Ids(all)) == multiset(Indices(|nodes|))
    requires |beam| - |Tombstones(nodes)| >= Min(k, |LiveRecords(nodes)|)
    ensures IsTopK(multiset(RecordHits(LiveRecords(nodes), query, queryNorm, sqrt)),
                   FirstK(LiveHits(nodes, QueryScores(nodes, query, queryNorm), Ids(beam)), k), k)
  {
    hide IsTopK;
    hide Tombstones;
    hide LiveRecords;
    hide RecordHits;
    hide LiveHits;
    hide FirstK;
    hide Descending;
    var score := QueryScores(nodes, query, queryNorm);
    RankedHits(nodes, query, queryNorm, sqrt, all);
    hide NormsOk;
    FrontOfRanking(nodes, score, beam, all);
    LiveInBeam(nodes, score, beam);
    hide Scored;
    hide BestFirst;
    AllHitsCount(nodes, query, queryNorm, sqrt);
    FrontIsTopK(LiveHits(nodes, score, Ids(all)), LiveHits(nodes, score, Ids(beam)), k,
                multiset(RecordHits(LiveRecords(nodes), query, queryNorm, sqrt)));
  }

  lemma AllHitsCount(nodes: seq<Node>, query: Vector, queryNorm: real, sqrt: real -> real)
    ensures |multiset(RecordHits(LiveRecords(nodes), query, queryNorm, sqrt))| == |LiveRecords(nodes)|
  {
  }

  /** An answer that is no longer than nothing is exact if nothing is asked for or nothing is there. */
  lemma NothingIsExact(universe: multiset<TextHit>, hits: seq<TextHit>, k: nat)
    requires multiset(hits) <= universe && |hits| <= k && Min(k, |universe|) == 0
    ensures IsTopK(universe, hits, k)
  {
    SubMultisetSize(multiset(hits), universe);
  }

  lemma ExactEnough(live: nat, dead: nat, k: nat, m: int, ef: int, sqrt: real -> real)
    requires ef >= 1 && (Min(k, live) == 0 || (ef >= live + dead - 1 && ef >= Min(k, live) + dead))
    ensures AlwaysExact(live, dead, k, m, ef, sqrt)
  {
    hide IsAnswer;
    hide IsTopK;
    hide GraphInv;
    forall nodes, overflowed, entryPoint, maxLevel, dimension, query, hits
      | Unpruned(nodes, m, overflowed, entryPoint, maxLevel, dimension, sqrt, live, dead)
        && IsAnswer(nodes, query, sqrt(Dot(query, query)), entryPoint, maxLevel, ef, k, hits)
      ensures IsTopK(AllOf(nodes, query, sqrt), hits, k)
    {
      var norm := sqrt(Dot(query, query));
      if Min(k, live) == 0 {
        AnswerIsPart(nodes, query, norm, sqrt, entryPoint, maxLevel, ef, k, hits);
        AllHitsCount(nodes, query, norm, sqrt);
        NothingIsExact(AllOf(nodes, query, sqrt), hits, k);
      } else {
        LiveAndDead(nodes);
        NearlyAllIsExact(nodes, m, overflowed, query, norm, sqrt, entryPoint, maxLevel, ef, k, hits);
      }
    }
  }

  /** An exact answer holds a hit no worse than any. */
  lemma BestIsMatched(universe: multiset<TextHit>, hits: seq<TextHit>, k: nat, best: TextHit)
    requires k > 0 && best in universe && IsTopK(universe, hits, k)
    ensures exists h :: h in hits && h.score >= best.score
  {
    SubMultisetSize(multiset{best}, universe);
    assert hits[0] in hits;
    if best !in hits {
      assert best in universe - multiset(hits);
    }
  }

  /** Hits all worse than some live record are not an exact answer. */
  lemma WorseIsInexact(universe: multiset<TextHit>, hits: seq<TextHit>, k: nat, best: TextHit)
    requires k > 0 && best in universe && forall h :: h in hits ==> h.score < best.score
    ensures !IsTopK(universe, hits, k)
  {
    hide IsTopK;
    if IsTopK(universe, hits, k) {
      BestIsMatched(universe, hits, k, best);
    }
  }

  /** The last node of a chain is live unless all are dead. */
  lemma LastIsLive(nodes: seq<Node>, query: Vector, queryNorm: real, sqrt: real -> real)
    requires nodes != [] && !nodes[|nodes| - 1].deleted
    ensures HitOfRecord(nodes[|nodes| - 1].record, query, queryNorm, sqrt)
         in multiset(RecordHits(LiveRecords(nodes), query, queryNorm, sqrt))
  {
    var live := LiveRecords(nodes);
    assert live[|live| - 1] == nodes[|nodes| - 1].record;
    assert RecordHits(live, query, queryNorm, sqrt)[|live| - 1]
           == HitOfRecord(live[|live| - 1], query, queryNorm, sqrt);
  }

  /** A search narrower by two than the graph misses the best record of all at the end of the chain. */
  lemma LiftedAnswerIsInexact(live: nat, dead: nat, k: nat, ef: nat, sqrt: real -> real, hits: seq<TextHit>)
    requires IsSqrt(sqrt) && k > 0 && live > 0 && 1 <= ef && ef + 2 <= live + dead
    requires IsAnswer(ChainOf(ChainRecords(live + dead, true), sqrt, dead), LIFTED_QUERY, 5.0, 0, 0, ef, k, hits)
    ensures !IsTopK(AllOf(ChainOf(ChainRecords(live + dead, true), sqrt, dead), LIFTED_QUERY, sqrt), hits, k)
  {
    hide IsTopK;
    hide IsAnswer;
    hide LiveRecords;
    hide RecordHits;
    hide ChainRecord;
    var n := live + dead;
    var records := ChainRecords(n, true);
    var nodes := ChainOf(records, sqrt, dead);
    var score := QueryScores(nodes, LIFTED_QUERY, 5.0);
    IdsOfChain(n, true);
    QueryNorms(sqrt);
    LiftedScores(n, dead, sqrt);
    ChainAnswer(records, sqrt, dead, LIFTED_QUERY, 5.0, n - 1, k, ef, hits);
    LastIsLive(nodes, LIFTED_QUERY, 5.0, sqrt);
    var best := HitOfRecord(nodes[n - 1].record, LIFTED_QUERY, 5.0, sqrt);
    assert best.score == score[n - 1];
    WorseIsInexact(AllOf(nodes, LIFTED_QUERY, sqrt), hits, k, best);
  }

  lemma IdsOfChain(n: nat, lifted: bool)
    ensures forall i :: 0 <= i < n ==> |ChainRecords(n, lifted)[i].id| == i + 1
  {
  }

  /** A graph with an answer that misses the best record. */
  lemma Inexact(live: nat, dead: nat, k: nat, m: int, ef: nat, sqrt: real -> real) returns (hits: seq<TextHit>)
    requires m >= 1 && IsSqrt(sqrt) && Min(k, live) > 0 && 1 <= ef && ef + 2 <= live + dead
    ensures var nodes := ChainOf(ChainRecords(live + dead, true), sqrt, dead);
            && Unpruned(nodes, m, {}, 0, 0, 3, sqrt, live, dead)
            && IsAnswer(nodes, LIFTED_QUERY, sqrt(Dot(LIFTED_QUERY, LIFTED_QUERY)), 0, 0, ef, k, hits)
            && !IsTopK(AllOf(nodes, LIFTED_QUERY, sqrt), hits, k)
  {
    hide IsTopK;
    hide IsAnswer;
    hide ChainRecord;
    hide AllOf;
    hide Unpruned;
    var n := live + dead;
    var records := ChainRecords(n, true);
    ChainIsUnpruned(live, dead, true, m, sqrt);
    QueryNorms(sqrt);
    LiftedScores(n, dead, sqrt);
    hits := ChainIsAnswered(records, sqrt, dead, LIFTED_QUERY, 5.0, n - 1, k, ef);
    LiftedAnswerIsInexact(live, dead, k, ef, sqrt, hits);
  }

  lemma ShortIsInexact(nodes: seq<Node>, query: Vector, sqrt: real -> real, hits: seq<TextHit>, k: nat)
    requires |hits| < Min(k, |LiveRecords(nodes)|)
    ensures !IsTopK(AllOf(nodes, query, sqrt), hits, k)
  {
    AllHitsCount(nodes, query, sqrt(Dot(query, query)), sqrt);
  }

  /** For all numbers of live records and tombstones, all k and all m, an answer is sure to be an exact top-k if and
      only if there is nothing to find, or the beam has room for the hits and every tombstone and lacks at most one
      node of the graph. */
  lemma ExactWidthOfExactness(live: nat, dead: nat, k: nat, m: int, ef: int, sqrt: real -> real)
    requires m >= 1 && ef >= 1 && IsSqrt(sqrt)
    ensures AlwaysExact(live, dead, k, m, ef, sqrt)
       <==> Min(k, live) == 0 || (ef >= live + dead - 1 && ef >= Min(k, live) + dead)
  {
    hide IsAnswer;
    hide Unpruned;
    hide IsTopK;
    if Min(k, live) == 0 || (ef >= live + dead - 1 && ef >= Min(k, live) + dead) {
      ExactEnough(live, dead, k, m, ef, sqrt);
    } else if ef < Min(k, live) + dead {
      var hits := TooShort(live, dead, k, m, ef, sqrt);
      var nodes := ChainOf(ChainRecords(live + dead, false), sqrt, dead);
      ChainCounts(ChainRecords(live + dead, false), sqrt, dead);
      ShortIsInexact(nodes, FALLING_QUERY, sqrt, hits, k);
      assert Unpruned(nodes, m, {}, 0, 0, 3, sqrt, live, dead);
    } else {
      var hits := Inexact(live, dead, k, m, ef, sqrt);
      var nodes := ChainOf(ChainRecords(live + dead, true), sqrt, dead);
      assert Unpruned(nodes, m, {}, 0, 0, 3, sqrt, live, dead);
    }
  }

  // ---------- The program gets there ----------

  /** A run of the program, for any settings, that ends in the chain: insert the points one after another, every
      level drawn being 0, and delete the first ones. */
  method ReachChain(cfg: Config, sqrt: real -> real, levels: nat -> nat, live: nat, dead: nat, lifted: bool)
    returns (index: HnswIndex)
    requires IsSqrt(sqrt) && live + dead > 0 && forall i :: levels(i) == 0
    ensures fresh(index) && index.Valid() && index.IdsOk() && 0 !in index.overflowed && index.sqrt == sqrt
    ensures index.nodes == ChainOf(ChainRecords(live + dead, lifted), sqrt, dead)
    ensures index.entryPoint == 0 && index.maxLevel == 0 && index.dimension == 3
    ensures index.efSearch == (if cfg.efSearch <= 0 then 50 else cfg.efSearch)
  {
    hide HnswIndex.Valid;
    hide HnswIndex.IdsOk;
    hide Insertable;
    hide FallsAway;
    hide ChainRecord;
    index := new HnswIndex(cfg, sqrt, levels);
    var records := ChainRecords(live + dead, lifted);
    CircleFallsAway(live + dead, lifted, sqrt);
    CircleIsInsertable(live + dead, lifted);
    BuildChain(index, records, 3);
    DeleteFront(index, records, dead, 3);
  }

  /** On that run, when the query asks for something, its answer is full if and only if the beam is wide enough for
      the hits and all the tombstones. */
  method ShortSearch(cfg: Config, sqrt: real -> real, levels: nat -> nat, live: nat, dead: nat, k: nat)
    returns (index: HnswIndex, r: Result<seq<TextHit>, IndexError>)
    requires IsSqrt(sqrt) && live + dead > 0 && k > 0 && forall i :: levels(i) == 0
    ensures index.nodes == ChainOf(ChainRecords(live + dead, false), sqrt, dead)
    ensures index.efSearch == (if cfg.efSearch <= 0 then 50 else cfg.efSearch)
    ensures r.Ok? && (|r.value| == Min(k, live) <==>
                      live == 0 || index.efSearch >= Min(k, live) + dead || k >= Min(k, live) + dead)
  {
    hide HnswIndex.Valid;
    hide HnswIndex.IdsOk;
    hide IsAnswer;
    hide IsTopK;
    hide RecordHits;
    hide ChainRecord;
    index := ReachChain(cfg, sqrt, levels, live, dead, false);
    r := index.Search(FALLING_QUERY, k);
    QueryNorms(sqrt);
    IdsOfChain(live + dead, false);
    ChainCounts(ChainRecords(live + dead, false), sqrt, dead);
    ghost var hits := r.value;
    ShortAnswer(live, dead, k, index.BeamWidth(k), sqrt, hits);
  }

  lemma ShortAnswer(live: nat, dead: nat, k: nat, ef: int, sqrt: real -> real, hits: seq<TextHit>)
    requires IsSqrt(sqrt) && live + dead > 0 && k > 0 && ef >= 1
    requires IsAnswer(ChainOf(ChainRecords(live + dead, false), sqrt, dead), FALLING_QUERY, 1.0, 0, 0, ef, k, hits)
    ensures |hits| == Min(k, live) <==> live == 0 || ef >= Min(k, live) + dead
  {
    hide IsAnswer;
    hide ChainRecord;
    var n := live + dead;
    var nodes := ChainOf(ChainRecords(n, false), sqrt, dead);
    QueryNorms(sqrt);
    if live == 0 || ef >= Min(k, live) + dead {
      WideEnough(live, dead, k, 1, ef, sqrt);
      ChainIsUnpruned(live, dead, false, 1, sqrt);
      assert Unpruned(nodes, 1, {}, 0, 0, 3, sqrt, live, dead);
      hide Unpruned;
    } else {
      IdsOfChain(n, false);
      FallingScores(n, dead, sqrt);
      ChainAnswer(ChainRecords(n, false), sqrt, dead, FALLING_QUERY, 1.0, n, k, ef, hits);
    }
  }

  /** On the run with the last point lifted, a beam short of the graph by two nodes misses the best record. */
  method InexactSearch(cfg: Config, sqrt: real -> real, levels: nat -> nat, live: nat, dead: nat, k: nat)
    returns (index: HnswIndex, r: Result<seq<TextHit>, IndexError>)
    requires IsSqrt(sqrt) && live > 0 && k > 0 && forall i :: levels(i) == 0
    ensures index.nodes == ChainOf(ChainRecords(live + dead, true), sqrt, dead)
    ensures index.efSearch == (if cfg.efSearch <= 0 then 50 else cfg.efSearch)
    ensures r.Ok?
            && (index.efSearch + 2 <= live + dead && k + 2 <= live + dead ==>
                  !IsTopK(AllOf(index.nodes, LIFTED_QUERY, sqrt), r.value, k))
  {
    hide HnswIndex.Valid;
    hide HnswIndex.IdsOk;
    hide IsAnswer;
    hide IsTopK;
    hide RecordHits;
    hide ChainRecord;
    index := ReachChain(cfg, sqrt, levels, live, dead, true);
    r := index.Search(LIFTED_QUERY, k);
    QueryNorms(sqrt);
    if index.BeamWidth(k) + 2 <= live + dead {
      LiftedAnswerIsInexact(live, dead, k, index.BeamWidth(k), sqrt, r.value);
    }
  }
}
