/** How a beam becomes an answer, and when the answer is exact. */
module Answers {
  import opened Beams
  import opened Graph
  import opened Heaps
  import opened IndexSpec
  import opened Layers
  import opened Permutations
  import opened Selection
  import opened TopK
  import opened Vectors

  type TextHit = Hit<string>

  /** The hit a linear scan makes of a record; the norm of the stored vector is recomputed. */
  ghost function HitOfRecord(r: Record, query: Vector, queryNorm: real, sqrt: real -> real): TextHit {
    Hit(r.id, r.text, Cosine(query, queryNorm, r.vector, sqrt(Dot(r.vector, r.vector))))
  }

  ghost function RecordHits(records: seq<Record>, query: Vector, queryNorm: real,
                            sqrt: real -> real): (hits: seq<TextHit>)
    ensures |hits| == |records|
    ensures forall i :: 0 <= i < |hits| ==> hits[i] == HitOfRecord(records[i], query, queryNorm, sqrt)
  {
    seq(|records|, i requires 0 <= i < |records| => HitOfRecord(records[i], query, queryNorm, sqrt))
  }

  /** What the result loop makes of one node: nothing if it is a tombstone. */
  ghost function NodeHit(nodes: seq<Node>, score: seq<real>, i: int): seq<TextHit> {
    if 0 <= i < |nodes| && i < |score| && !nodes[i].deleted
    then [Hit(nodes[i].record.id, nodes[i].record.text, score[i])] else []
  }

  /** The live hits of a list of nodes, in its order. */
  ghost function LiveHits(nodes: seq<Node>, score: seq<real>, ids: seq<int>): seq<TextHit> {
    FlatMap(i => NodeHit(nodes, score, i), ids)
  }

  /** The answer to a query with a valid vector on a non-empty index: climb down to layer 0, search it
      with a beam of width ef, and keep the first k live hits. */
  ghost predicate IsAnswer(nodes: seq<Node>, query: Vector, queryNorm: real, entryPoint: int, maxLevel: int,
                           ef: int, k: int, hits: seq<TextHit>)
    requires k >= 0
  {
    var score := QueryScores(nodes, query, queryNorm);
    exists ep, beam, visited ::
      && Descends(nodes, score, maxLevel, 1, entryPoint, ep)
      && IsBeam(LayerAdj(nodes, 0), score, ep, ef, beam, visited)
      && hits == FirstK(LiveHits(nodes, score, Ids(beam)), k)
  }

  ghost function FirstK(hits: seq<TextHit>, k: nat): seq<TextHit> {
    hits[..Min(k, |hits|)]
  }

  // ---------- Facts about live hits ----------

  lemma LiveHitsConcat(nodes: seq<Node>, score: seq<real>, a: seq<int>, b: seq<int>)
    ensures LiveHits(nodes, score, a + b) == LiveHits(nodes, score, a) + LiveHits(nodes, score, b)
  {
    FlatMapConcat(i => NodeHit(nodes, score, i), a, b);
  }

  lemma LiveHitsOne(nodes: seq<Node>, score: seq<real>, i: int)
    ensures LiveHits(nodes, score, [i]) == NodeHit(nodes, score, i)
  {
    FlatMapOne(j => NodeHit(nodes, score, j), i);
  }

  /** The indices 0, ..., n - 1. */
  ghost function Indices(n: nat): seq<int> {
    if n == 0 then [] else Indices(n - 1) + [n - 1]
  }

  lemma {:induction false} IndicesFacts(n: nat)
    ensures |Indices(n)| == n && forall i :: 0 <= i < n ==> Indices(n)[i] == i
  {
    if n > 0 {
      IndicesFacts(n - 1);
    }
  }

  lemma {:induction false} NodeHitsOfPrefix(nodes: seq<Node>, score: seq<real>, n: nat, ids: seq<int>)
    requires n < |nodes| <= |score| && forall i :: 0 <= i < |ids| ==> 0 <= ids[i] < n
    ensures LiveHits(nodes[..n], score, ids) == LiveHits(nodes, score, ids)
    decreases |ids|
  {
    if ids != [] {
      assert nodes[..n][ids[0]] == nodes[ids[0]];
      NodeHitsOfPrefix(nodes, score, n, ids[1..]);
    }
  }

  /** The live hits of all nodes are the hits of the live records. */
  lemma {:induction false} LiveHitsOfAll(nodes: seq<Node>, query: Vector, queryNorm: real, sqrt: real -> real,
                                         score: seq<real>)
    requires |score| >= |nodes|
    requires forall i :: 0 <= i < |nodes| ==>
               score[i] == Cosine(query, queryNorm, nodes[i].record.vector, nodes[i].norm)
    requires forall i :: 0 <= i < |nodes| ==> nodes[i].norm == sqrt(Dot(nodes[i].record.vector, nodes[i].record.vector))
    ensures LiveHits(nodes, score, Indices(|nodes|)) == RecordHits(LiveRecords(nodes), query, queryNorm, sqrt)
    decreases |nodes|
  {
    if nodes != [] {
      var n := |nodes| - 1;
      LiveHitsOfAll(nodes[..n], query, queryNorm, sqrt, score);
      IndicesFacts(n);
      NodeHitsOfPrefix(nodes, score, n, Indices(n));
      LiveHitsConcat(nodes, score, Indices(n), [n]);
      LiveHitsOne(nodes, score, n);
    }
  }

  /** Best-first nodes give best-first hits. */
  lemma {:induction false} LiveHitsDescend(nodes: seq<Node>, score: seq<real>, beam: seq<Candidate>)
    requires Scored(beam, score) && BestFirst(beam) && |score| == |nodes|
    ensures Descending(LiveHits(nodes, score, Ids(beam)))
    ensures forall h :: h in LiveHits(nodes, score, Ids(beam)) ==> beam != [] && h.score <= beam[0].similarity
    decreases |beam|
  {
    if beam != [] {
      var rest := beam[1..];
      LiveHitsDescend(nodes, score, rest);
      assert Ids(beam) == [beam[0].id] + Ids(rest);
      LiveHitsConcat(nodes, score, [beam[0].id], Ids(rest));
      LiveHitsOne(nodes, score, beam[0].id);
      assert beam[0] in beam;
    }
  }

  lemma NoDupCount(s: seq<int>, x: int)
    requires NoDup(s)
    ensures multiset(s)[x] == if x in s then 1 else 0
    decreases |s|
  {
    if |s| > 0 {
      var n := |s| - 1;
      assert s == s[..n] + [s[n]];
      NoDupCount(s[..n], x);
    }
  }

  lemma SameElements(a: seq<int>, b: seq<int>)
    requires NoDup(a) && NoDup(b) && forall x :: x in a <==> x in b
    ensures multiset(a) == multiset(b)
  {
    forall x
      ensures multiset(a)[x] == multiset(b)[x]
    {
      NoDupCount(a, x);
      NoDupCount(b, x);
    }
  }

  /** `hits` are what stands in the beam at `picks`: the first k live nodes, in the beam's order. */
  ghost predicate PicksLive(nodes: seq<Node>, beam: seq<Candidate>, k: nat, picks: seq<int>, hits: seq<TextHit>) {
    && (forall c :: c in beam ==> 0 <= c.id < |nodes|)
    && Rising(picks, |beam|)
    && |hits| == |picks| <= k
    && (forall i :: 0 <= i < |picks| ==>
          var c := beam[picks[i]];
          0 <= c.id < |nodes| && !nodes[c.id].deleted
          && hits[i] == Hit(nodes[c.id].record.id, nodes[c.id].record.text, c.similarity))
    && (forall p :: 0 <= p < |beam| && p !in picks ==>
          || (0 <= beam[p].id < |nodes| && nodes[beam[p].id].deleted)
          || (|picks| == k && forall i :: 0 <= i < k ==> picks[i] < p))
  }

  /** The first k live hits of a beam stand at some positions of it. */
  lemma FirstLivePicks(nodes: seq<Node>, score: seq<real>, beam: seq<Candidate>, k: nat) returns (picks: seq<int>)
    requires Scored(beam, score) && |score| == |nodes|
    ensures PicksLive(nodes, beam, k, picks, FirstK(LiveHits(nodes, score, Ids(beam)), k))
  {
    var all := LivePicks(nodes, score, beam);
    FirstPicks(nodes, beam, k, all, LiveHits(nodes, score, Ids(beam)));
    picks := all[..Min(k, |all|)];
  }

  lemma FirstPicks(nodes: seq<Node>, beam: seq<Candidate>, k: nat, all: seq<int>, hits: seq<TextHit>)
    requires PicksAllLive(nodes, beam, all, hits)
    ensures PicksLive(nodes, beam, k, all[..Min(k, |all|)], FirstK(hits, k))
  {
    var picks := all[..Min(k, |all|)];
    forall p | 0 <= p < |beam| && p !in picks && p in all
      ensures |picks| == k && forall i :: 0 <= i < k ==> picks[i] < p
    {
      var j :| 0 <= j < |all| && all[j] == p;
      assert forall i :: 0 <= i < |picks| ==> all[i] in picks;
    }
  }

  /** All live nodes of a beam are picked. */
  ghost predicate PicksAllLive(nodes: seq<Node>, beam: seq<Candidate>, picks: seq<int>, hits: seq<TextHit>) {
    && PicksLive(nodes, beam, |beam|, picks, hits)
    && forall p :: 0 <= p < |beam| && p !in picks ==> 0 <= beam[p].id < |nodes| && nodes[beam[p].id].deleted
  }

  lemma PickOneMore(nodes: seq<Node>, beam: seq<Candidate>, picks: seq<int>, hits: seq<TextHit>, c: Candidate)
    requires PicksAllLive(nodes, beam, picks, hits) && 0 <= c.id < |nodes|
    ensures nodes[c.id].deleted ==> PicksAllLive(nodes, beam + [c], picks, hits)
    ensures !nodes[c.id].deleted ==>
              PicksAllLive(nodes, beam + [c], picks + [|beam|],
                           hits + [Hit(nodes[c.id].record.id, nodes[c.id].record.text, c.similarity)])
  {
    assert forall p :: p in picks ==> p in picks + [|beam|];
  }

  lemma {:induction false} LivePicks(nodes: seq<Node>, score: seq<real>, beam: seq<Candidate>)
    returns (picks: seq<int>)
    requires Scored(beam, score) && |score| == |nodes|
    ensures PicksAllLive(nodes, beam, picks, LiveHits(nodes, score, Ids(beam)))
    decreases |beam|
  {
    if beam == [] {
      return [];
    }
    var n := |beam| - 1;
    var front, c := beam[..n], beam[n];
    picks := LivePicks(nodes, score, front);
    hide PicksAllLive;
    hide LiveHits;
    assert c in beam && beam == front + [c];
    assert Ids(beam) == Ids(front) + [c.id];
    LiveHitsConcat(nodes, score, Ids(front), [c.id]);
    LiveHitsOne(nodes, score, c.id);
    PickOneMore(nodes, front, picks, LiveHits(nodes, score, Ids(front)), c);
    if nodes[c.id].deleted {
      assert LiveHits(nodes, score, Ids(beam)) == LiveHits(nodes, score, Ids(front));
    } else {
      picks := picks + [n];
    }
  }

  /** An answer in terms of the graph: a climb on each layer down to 1, a beam search of layer 0 from where they end,
      and the first k of the beam's nodes that are not tombstones. */
  lemma AnswerMeans(nodes: seq<Node>, query: Vector, queryNorm: real, entryPoint: int, maxLevel: int, ef: int, k: nat,
                    hits: seq<TextHit>)
    requires IsAnswer(nodes, query, queryNorm, entryPoint, maxLevel, ef, k, hits)
    ensures var score := QueryScores(nodes, query, queryNorm);
            exists stops: seq<int>, ep: int, beam: seq<Candidate>, visited: set<int>, picks: seq<int> ::
              && IsDescent(nodes, score, maxLevel, 1, stops) && stops[0] == entryPoint && stops[|stops| - 1] == ep
              && IsBeam(LayerAdj(nodes, 0), score, ep, ef, beam, visited)
              && PicksLive(nodes, beam, k, picks, hits)
  {
    hide Climbs;
    hide IsBeam;
    hide PicksLive;
    hide LiveHits;
    var score := QueryScores(nodes, query, queryNorm);
    var ep, beam, visited :|
      && Descends(nodes, score, maxLevel, 1, entryPoint, ep)
      && IsBeam(LayerAdj(nodes, 0), score, ep, ef, beam, visited)
      && hits == FirstK(LiveHits(nodes, score, Ids(beam)), k);
    var stops := StopsOf(nodes, score, maxLevel, 1, entryPoint, ep);
    BeamScores(LayerAdj(nodes, 0), score, ep, ef, beam, visited);
    var picks := FirstLivePicks(nodes, score, beam, k);
  }

  // ---------- When the answer is exact ----------

  /** On a layer 0 that is of one piece everything can be reached from any of its nodes. */
  lemma AllReachable(nodes: seq<Node>, m: int, overflowed: set<int>, ep: int)
    requires GraphInv(nodes, m, overflowed) && 0 !in overflowed && 0 <= ep < |nodes|
    ensures forall x :: x in Upto(|nodes|) <==> 0 <= x < |nodes| && Reachable(LayerAdj(nodes, 0), ep, x)
    ensures TargetsInRange(LayerAdj(nodes, 0)) && |Upto(|nodes|)| == |nodes|
  {
    var adj, all := LayerAdj(nodes, 0), Members(nodes, 0);
    assert LayerInv(adj, all, Cap(m, 0), 0 in overflowed);
    LayerTargets(adj, all, Cap(m, 0));
    UptoFacts(|nodes|);
    assert ep in all;
  }

  /** A beam as wide as such a graph holds every node. */
  lemma BeamOfAll(nodes: seq<Node>, m: int, overflowed: set<int>, score: seq<real>, ep: int, ef: int,
                  beam: seq<Candidate>, visited: set<int>)
    requires GraphInv(nodes, m, overflowed) && 0 !in overflowed
    requires IsBeam(LayerAdj(nodes, 0), score, ep, ef, beam, visited)
    requires ef >= 1 && ef >= |nodes|
    ensures multiset(Ids(beam)) == multiset(Indices(|nodes|))
  {
    hide GraphInv;
    AllReachable(nodes, m, overflowed, ep);
    BeamIsComplete(LayerAdj(nodes, 0), score, ep, ef, beam, visited, Upto(|nodes|));
    AllIndices(Ids(beam), |nodes|);
  }

  lemma AllIndices(ids: seq<int>, n: nat)
    requires NoDup(ids) && (set x | x in ids) == Upto(n)
    ensures multiset(ids) == multiset(Indices(n))
  {
    UptoFacts(n);
    IndicesFacts(n);
    forall x
      ensures x in ids <==> x in Indices(n)
    {
      assert x in ids <==> x in Upto(n);
      assert 0 <= x < n ==> Indices(n)[x] == x;
    }
    SameElements(ids, Indices(n));
  }

  /** The central fact: as long as no list of layer 0 has overflowed, a beam as wide as the graph makes
      the answer an exact top-k of the live records. */
  lemma AnswerIsExact(nodes: seq<Node>, m: int, overflowed: set<int>, query: Vector, queryNorm: real,
                      sqrt: real -> real, entryPoint: int, maxLevel: int, ef: int, k: nat, hits: seq<TextHit>)
    requires GraphInv(nodes, m, overflowed) && 0 !in overflowed
    requires forall i :: 0 <= i < |nodes| ==> nodes[i].norm == sqrt(Dot(nodes[i].record.vector, nodes[i].record.vector))
    requires IsAnswer(nodes, query, queryNorm, entryPoint, maxLevel, ef, k, hits)
    requires ef >= 1 && ef >= |nodes|
    ensures IsTopK(multiset(RecordHits(LiveRecords(nodes), query, queryNorm, sqrt)), hits, k)
  {
    var score := QueryScores(nodes, query, queryNorm);
    var ep, beam, visited :|
      && Descends(nodes, score, maxLevel, 1, entryPoint, ep)
      && IsBeam(LayerAdj(nodes, 0), score, ep, ef, beam, visited)
      && hits == FirstK(LiveHits(nodes, score, Ids(beam)), k);
    BeamOfAll(nodes, m, overflowed, score, ep, ef, beam, visited);
    FlatMapPermutation(i => NodeHit(nodes, score, i), Ids(beam), Indices(|nodes|));
    LiveHitsOfAll(nodes, query, queryNorm, sqrt, score);
    LiveHitsDescend(nodes, score, beam);
    PrefixIsTopK(LiveHits(nodes, score, Ids(beam)), k);
  }

  // ---------- What every answer is ----------

  /** Distinct nodes are part of all nodes; `rest` are the others. */
  lemma OtherNodes(ids: seq<int>, n: nat) returns (rest: seq<int>)
    requires NoDup(ids) && forall x :: x in ids ==> 0 <= x < n
    ensures multiset(ids + rest) == multiset(Indices(n))
  {
    IndicesFacts(n);
    forall x
      ensures multiset(ids)[x] <= multiset(Indices(n))[x]
    {
      NoDupCount(ids, x);
      assert 0 <= x < n ==> Indices(n)[x] == x;
      assert x in ids ==> x in Indices(n);
    }
    rest := SeqOf(multiset(Indices(n)) - multiset(ids));
    assert multiset(ids) <= multiset(Indices(n));
  }

  /** Distinct nodes give hits of distinct live records. */
  lemma LiveHitsArePart(nodes: seq<Node>, query: Vector, queryNorm: real, sqrt: real -> real, score: seq<real>,
                        ids: seq<int>)
    requires |score| == |nodes|
    requires forall i :: 0 <= i < |nodes| ==>
               score[i] == Cosine(query, queryNorm, nodes[i].record.vector, nodes[i].norm)
    requires forall i :: 0 <= i < |nodes| ==> nodes[i].norm == sqrt(Dot(nodes[i].record.vector, nodes[i].record.vector))
    requires NoDup(ids) && forall x :: x in ids ==> 0 <= x < |nodes|
    ensures multiset(LiveHits(nodes, score, ids)) <= multiset(RecordHits(LiveRecords(nodes), query, queryNorm, sqrt))
  {
    var rest := OtherNodes(ids, |nodes|);
    FlatMapPermutation(i => NodeHit(nodes, score, i), ids + rest, Indices(|nodes|));
    LiveHitsConcat(nodes, score, ids, rest);
    LiveHitsOfAll(nodes, query, queryNorm, sqrt, score);
  }

  lemma FirstOfPart(hits: seq<TextHit>, k: nat, all: multiset<TextHit>)
    requires multiset(hits) <= all && Descending(hits)
    ensures multiset(FirstK(hits, k)) <= all && Descending(FirstK(hits, k)) && |FirstK(hits, k)| <= k
  {
    assert hits == FirstK(hits, k) + hits[|FirstK(hits, k)|..];
  }

  lemma BeamIds(beam: seq<Candidate>, score: seq<real>)
    requires Scored(beam, score)
    ensures forall x :: x in Ids(beam) ==> 0 <= x < |score|
  {
    forall x | x in Ids(beam)
      ensures 0 <= x < |score|
    {
      var i :| 0 <= i < |beam| && Ids(beam)[i] == x;
      assert beam[i] in beam;
    }
  }

  /** On any graph an answer is at most k hits of different live records, each with its true score, best
      first. */
  lemma AnswerIsPart(nodes: seq<Node>, query: Vector, queryNorm: real, sqrt: real -> real, entryPoint: int,
                     maxLevel: int, ef: int, k: nat, hits: seq<TextHit>)
    requires forall i :: 0 <= i < |nodes| ==> nodes[i].norm == sqrt(Dot(nodes[i].record.vector, nodes[i].record.vector))
    requires IsAnswer(nodes, query, queryNorm, entryPoint, maxLevel, ef, k, hits)
    ensures multiset(hits) <= multiset(RecordHits(LiveRecords(nodes), query, queryNorm, sqrt))
    ensures Descending(hits) && |hits| <= k
  {
    hide LiveHits;
    hide RecordHits;
    hide Descending;
    var score := QueryScores(nodes, query, queryNorm);
    var ep, beam, visited :|
      && Descends(nodes, score, maxLevel, 1, entryPoint, ep)
      && IsBeam(LayerAdj(nodes, 0), score, ep, ef, beam, visited)
      && hits == FirstK(LiveHits(nodes, score, Ids(beam)), k);
    hide Descends;
    BeamIds(beam, score);
    LiveHitsArePart(nodes, query, queryNorm, sqrt, score, Ids(beam));
    LiveHitsDescend(nodes, score, beam);
    hide FirstK;
    FirstOfPart(LiveHits(nodes, score, Ids(beam)), k, multiset(RecordHits(LiveRecords(nodes), query, queryNorm, sqrt)));
  }

  // ---------- When the answer is full ----------

  ghost function Tombstones(nodes: seq<Node>): (r: set<int>)
    ensures forall i :: i in r <==> 0 <= i < |nodes| && nodes[i].deleted
  {
    set i | 0 <= i < |nodes| && nodes[i].deleted
  }

  lemma TombstonesStep(nodes: seq<Node>)
    requires nodes != []
    ensures |Tombstones(nodes)| == |Tombstones(nodes[..|nodes| - 1])| + if nodes[|nodes| - 1].deleted then 1 else 0
  {
    var n := |nodes| - 1;
    var front := Tombstones(nodes[..n]);
    assert forall i :: 0 <= i < n ==> nodes[..n][i] == nodes[i];
    assert Tombstones(nodes) == if nodes[n].deleted then front + {n} else front;
  }

  /** Every node is live or a tombstone. */
  lemma {:induction false} LiveAndDead(nodes: seq<Node>)
    ensures |LiveRecords(nodes)| + |Tombstones(nodes)| == |nodes|
    decreases |nodes|
  {
    if nodes != [] {
      var n := |nodes| - 1;
      LiveAndDead(nodes[..n]);
      TombstonesStep(nodes);
      hide Tombstones;
    } else {
      assert Tombstones(nodes) == {};
    }
  }

  /** The nodes of a list that give a hit. */
  ghost function LiveIn(nodes: seq<Node>, ids: seq<int>): set<int> {
    (set x | x in ids) - Tombstones(nodes)
  }

  lemma LiveInStep(nodes: seq<Node>, front: seq<int>, x: int)
    requires 0 <= x < |nodes| && x !in front
    ensures |LiveIn(nodes, front + [x])| == |LiveIn(nodes, front)| + if nodes[x].deleted then 0 else 1
  {
    var before, after := LiveIn(nodes, front), LiveIn(nodes, front + [x]);
    assert (set y | y in front + [x]) == (set y | y in front) + {x};
    if nodes[x].deleted {
      assert after == before;
    } else {
      assert after == before + {x};
      assert x !in before;
    }
  }

  lemma {:induction false} HitPerLiveNode(nodes: seq<Node>, score: seq<real>, ids: seq<int>)
    requires |score| == |nodes| && NoDup(ids) && forall x :: x in ids ==> 0 <= x < |nodes|
    ensures |LiveHits(nodes, score, ids)| == |LiveIn(nodes, ids)|
    decreases |ids|
  {
    if ids == [] {
      assert LiveIn(nodes, ids) == {};
    } else {
      var n := |ids| - 1;
      var front, x := ids[..n], ids[n];
      assert ids == front + [x];
      forall y | y in front
        ensures y in ids && y != x
      {
      }
      assert x in ids;
      HitPerLiveNode(nodes, score, front);
      LiveHitsConcat(nodes, score, front, [x]);
      LiveHitsOne(nodes, score, x);
      LiveInStep(nodes, front, x);
    }
  }

  /** On an unpruned layer 0 the beam is as large as it can be. */
  lemma BeamIsFull(nodes: seq<Node>, m: int, overflowed: set<int>, score: seq<real>, ep: int, ef: int,
                   beam: seq<Candidate>, visited: set<int>)
    requires GraphInv(nodes, m, overflowed) && 0 !in overflowed
    requires IsBeam(LayerAdj(nodes, 0), score, ep, ef, beam, visited) && ef >= 1
    ensures |beam| == Min(ef, |nodes|)
  {
    hide GraphInv;
    AllReachable(nodes, m, overflowed, ep);
    if |nodes| <= ef || |visited| < ef {
      BeamIsComplete(LayerAdj(nodes, 0), score, ep, ef, beam, visited, Upto(|nodes|));
    }
  }

  /** A beam of width min(k, live) + tombstones is wide enough to return min(k, live) hits. */
  lemma AnswerIsFull(nodes: seq<Node>, m: int, overflowed: set<int>, query: Vector, queryNorm: real,
                     entryPoint: int, maxLevel: int, ef: int, k: nat, hits: seq<TextHit>)
    requires GraphInv(nodes, m, overflowed) && 0 !in overflowed
    requires IsAnswer(nodes, query, queryNorm, entryPoint, maxLevel, ef, k, hits)
    requires ef >= 1 && ef >= Min(k, |LiveRecords(nodes)|) + |Tombstones(nodes)|
    ensures |hits| == Min(k, |LiveRecords(nodes)|)
  {
    var score := QueryScores(nodes, query, queryNorm);
    var ep, beam, visited :|
      && Descends(nodes, score, maxLevel, 1, entryPoint, ep)
      && IsBeam(LayerAdj(nodes, 0), score, ep, ef, beam, visited)
      && hits == FirstK(LiveHits(nodes, score, Ids(beam)), k);
    BeamIsFull(nodes, m, overflowed, score, ep, ef, beam, visited);
    LiveInBeam(nodes, score, beam);
    LiveAndDead(nodes);
  }

  lemma LiveInBeam(nodes: seq<Node>, score: seq<real>, beam: seq<Candidate>)
    requires |score| == |nodes| && Scored(beam, score) && NoDup(Ids(beam))
    ensures |beam| - |Tombstones(nodes)| <= |LiveHits(nodes, score, Ids(beam))| <= |nodes| - |Tombstones(nodes)|
  {
    var ids, dead := Ids(beam), Tombstones(nodes);
    var all := set x | x in ids;
    BeamIds(beam, score);
    HitPerLiveNode(nodes, score, ids);
    NoDupSet(ids);
    SubsetSize(all, LiveIn(nodes, ids) + dead);
    UptoFacts(|nodes|);
    forall x | x in LiveIn(nodes, ids)
      ensures x in Upto(|nodes|) - dead
    {
    }
    forall x | x in dead
      ensures x in Upto(|nodes|)
    {
    }
    SubsetSize(LiveIn(nodes, ids), Upto(|nodes|) - dead);
    assert |Upto(|nodes|) - dead| == |nodes| - |dead|;
  }
}
