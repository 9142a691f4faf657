/** The layered graph index of internal/index/hnsw.go. */
module Hnsw {
  import opened Answers
  import opened Beams
  import opened Graph
  import opened Heaps
  import opened IndexSpec
  import opened Layers
  import opened Permutations
  import opened Results
  import opened Selection
  import opened Sorting
  import opened TopK
  import opened Vectors

  datatype Config = Config(m: int, efConstruction: int, efSearch: int)

  /** Every id maps to a live node that carries it. */
  ghost predicate MapOk(nodes: seq<Node>, idMap: map<string, int>) {
    forall id :: id in idMap ==>
      0 <= idMap[id] < |nodes| && !nodes[idMap[id]].deleted && nodes[idMap[id]].record.id == id
  }

  /** Every live node is the one its id maps to, so ids and live nodes correspond one to one. */
  ghost predicate MapOnto(nodes: seq<Node>, idMap: map<string, int>) {
    forall i :: 0 <= i < |nodes| && !nodes[i].deleted ==>
      nodes[i].record.id in idMap && idMap[nodes[i].record.id] == i
  }

  /** Every live record's id is taken: the map and the live nodes are in bijection after a node with
      a new id is appended, and only then. */
  lemma BijectionAfterAppend(before: seq<Node>, after: seq<Node>, node: Node, idMap: map<string, int>)
    requires Skeleton(after) == Skeleton(before + [node]) && !node.deleted
    requires MapOk(before, idMap)
    ensures MapOk(after, idMap[node.record.id := |before|])
    ensures MapOnto(before, idMap) ==> (MapOnto(after, idMap[node.record.id := |before|]) <==> node.record.id !in idMap)
  {
    var n, id, more := |before|, node.record.id, idMap[node.record.id := |before|];
    assert |Skeleton(after)| == n + 1;
    forall i | 0 <= i <= n
      ensures after[i].record == (before + [node])[i].record && after[i].deleted == (before + [node])[i].deleted
    {
      assert Skeleton(after)[i] == Skeleton(before + [node])[i];
    }
    if MapOnto(before, idMap) && id in idMap {
      assert !after[idMap[id]].deleted && after[idMap[id]].record.id == id && more[id] != idMap[id];
    }
  }

  ghost predicate NormsOk(nodes: seq<Node>, sqrt: real -> real) {
    forall i :: 0 <= i < |nodes| ==> nodes[i].norm == sqrt(Dot(nodes[i].record.vector, nodes[i].record.vector))
  }

  class HnswIndex {
    const sqrt: real -> real
    const levels: nat -> nat  // what randomLevel draws, one value after another
    const m: int
    const mmax0: int
    const efConst: int
    var efSearch: int
    var draws: nat
    var dimension: nat
    var maxLevel: int
    var entryPoint: int
    var nodes: seq<Node>
    var idMap: map<string, int>
    ghost var overflowed: set<int>  // the layers on which some list of links has been pruned

    ghost predicate ConfigOk()
      reads this
    {
      IsSqrt(sqrt) && m >= 1 && mmax0 == 2 * m && efConst >= 1 && efSearch >= 1
    }

    ghost predicate Valid()
      reads this
    {
      && ConfigOk()
      && GraphInv(nodes, m, overflowed)
      && VectorsOk(nodes, dimension) && NormsOk(nodes, sqrt)
      && EntryOk(nodes, entryPoint, maxLevel)
      && MapOk(nodes, idMap)
      && (dimension == 0 <==> nodes == [])
    }

    /** Ids and live nodes correspond one to one. */
    ghost predicate IdsOk()
      reads this
    {
      MapOnto(nodes, idMap)
    }

    ghost function State(): IndexState
      reads this
    {
      IndexState(dimension, LiveRecords(nodes))
    }

    constructor (cfg: Config, sqrt: real -> real, levels: nat -> nat)
      requires IsSqrt(sqrt)
      ensures Valid() && IdsOk()
      ensures State() == IndexState(0, []) && nodes == [] && overflowed == {}
      ensures this.sqrt == sqrt && this.levels == levels
      ensures m == (if cfg.m <= 0 then 16 else cfg.m) && mmax0 == 2 * m
      ensures efConst == (if cfg.efConstruction <= 0 then 200 else cfg.efConstruction)
      ensures efSearch == (if cfg.efSearch <= 0 then 50 else cfg.efSearch)
    {
      this.sqrt := sqrt;
      this.levels := levels;
      var cm := if cfg.m <= 0 then 16 else cfg.m;
      m := cm;
      mmax0 := 2 * cm;
      efConst := if cfg.efConstruction <= 0 then 200 else cfg.efConstruction;
      efSearch := if cfg.efSearch <= 0 then 50 else cfg.efSearch;
      draws := 0;
      dimension := 0;
      maxLevel := -1;
      entryPoint := -1;
      nodes := [];
      idMap := map[];
      overflowed := {};
    }

    method SetEfSearch(ef: int)
      requires Valid()
      modifies this`efSearch
      ensures Valid()
      ensures efSearch == if ef > 0 then ef else old(efSearch)
    {
      if ef > 0 {
        efSearch := ef;
      }
    }

    method RandomLevel() returns (level: nat)
      modifies this`draws
      ensures level == levels(old(draws)) && draws == old(draws) + 1
    {
      level := levels(draws);
      draws := draws + 1;
    }

    // ---------- Reading the graph ----------

    method NodeConnections(node: int, layer: int) returns (links: seq<int>)
      requires 0 <= node < |nodes| && layer >= 0
      ensures links == LayerAdj(nodes, layer)[node]
    {
      if layer >= |nodes[node].connections| {
        return [];
      }
      return nodes[node].connections[layer];
    }

    method NodeSimilarity(query: Vector, queryNorm: real, node: int) returns (s: real)
      requires 0 <= node < |nodes| && VectorsOk(nodes, |query|) && queryNorm > 0.0
      ensures s == QueryScores(nodes, query, queryNorm)[node]
    {
      s := CosineSimilarity(query, queryNorm, nodes[node].record.vector, nodes[node].norm);
    }

    /** What the searches need of their arguments. */
    ghost predicate Searchable(query: Vector, queryNorm: real, ep: int, layer: int)
      reads this
    {
      && 0 <= ep < |nodes| && layer >= 0
      && VectorsOk(nodes, |query|) && queryNorm > 0.0
      && TargetsInRange(LayerAdj(nodes, layer))
    }

    /** Hill climbing: from ep along best links of the layer to a node none of whose links is better. */
    method GreedyClosest(query: Vector, queryNorm: real, ep: int, layer: int) returns (r: int)
      requires Searchable(query, queryNorm, ep, layer)
      ensures Climbs(LayerAdj(nodes, layer), QueryScores(nodes, query, queryNorm), ep, r)
      ensures 0 <= r < |nodes| && forall t :: t in LayerAdj(nodes, layer)[r] ==>
                0 <= t < |nodes| && QueryScores(nodes, query, queryNorm)[t] <= QueryScores(nodes, query, queryNorm)[r]
      ensures exists trail: seq<int> ::
                && |trail| > 0 && trail[0] == ep && trail[|trail| - 1] == r
                && forall i :: 0 <= i < |trail| - 1 ==>
                     Ascends(LayerAdj(nodes, layer), QueryScores(nodes, query, queryNorm), trail[i], trail[i + 1])
    {
      hide IsTrail;
      hide Climbs;
      hide Ascends;
      hide Reachable;
      hide Above;
      hide VectorsOk;
      hide QueryScores;
      hide LayerAdj;
      hide LinksOf;
      hide Cosine;
      ghost var adj, score := LayerAdj(nodes, layer), QueryScores(nodes, query, queryNorm);
      ghost var trail := [ep];
      TrailStarts(adj, score, ep);
      var current := ep;
      var bestSim := NodeSimilarity(query, queryNorm, current);
      while true
        invariant 0 <= current < |nodes| && bestSim == score[current]
        invariant |trail| > 0 && IsTrail(adj, score, trail) && trail[0] == ep && trail[|trail| - 1] == current
        decreases Above(score, bestSim)
      {
        var improved := false;
        var links := NodeConnections(current, layer);
        ghost var start, best := current, 0;
        assert forall j :: 0 <= j < |links| ==> links[j] in adj[start];
        for j := 0 to |links|
          invariant 0 <= current < |nodes| && bestSim == score[current]
          invariant improved ==> LeadsAmong(adj, score, start, best, j) && links[best] == current
          invariant !improved ==> current == start && forall i :: 0 <= i < j ==> score[links[i]] <= score[start]
        {
          var neighbor := links[j];
          var sim := NodeSimilarity(query, queryNorm, neighbor);
          if sim > bestSim {
            bestSim := sim;
            current := neighbor;
            improved := true;
            best := j;
          }
        }
        if !improved {
          TrailEnds(adj, score, trail, current);
          TrailSteps(adj, score, trail);
          return current;
        }
        TrailGrows(adj, score, trail, best);
        trail := trail + [current];
        AboveShrinks(score, score[start], current);
      }
    }

    /** The ghost search state `s` belongs to this query on this layer. */
    ghost predicate Searches(s: Scan, query: Vector, queryNorm: real, layer: int)
      requires layer >= 0
      reads this
    {
      s.Inv() && s.adj == LayerAdj(nodes, layer) && s.score == QueryScores(nodes, query, queryNorm)
    }

    /** Follows the links of one node: every neighbour not seen before is scored and, if it beats
        the worst result or the results are not full, enters both heaps. */
    method Expand(query: Vector, queryNorm: real, c: int, ef: int, layer: int,
                  cands: CandidateHeap, results: CandidateHeap, seen: set<int>, ghost s: Scan)
      returns (seen': set<int>, ghost s': Scan)
      requires Searchable(query, queryNorm, c, layer) && Searches(s, query, queryNorm, layer)
      requires s.seen == seen && s.ef == ef && c in s.open
      requires cands != results && cands.Valid() && results.Valid()
      requires cands.largestFirst && !results.largestFirst
      requires cands.Contents() == Bag(s.open - {c}, s.score)
      requires results.Contents() == Bag(s.results, s.score)
      modifies cands, results
      ensures cands.Valid() && results.Valid()
      ensures Searches(s', query, queryNorm, layer) && s'.seen == seen' && s'.SameTask(s) && c !in s'.open
      ensures cands.Contents() == Bag(s'.open, s.score)
      ensures results.Contents() == Bag(s'.results, s.score)
      ensures |seen'| > |seen| || (seen' == seen && |cands.items| == old(|cands.items|))
    {
      hide Bag;
      hide CandidateHeap.IsHeap;
      hide Scan.Inv;
      seen', s' := seen, s;
      var links := NodeConnections(c, layer);
      for j := 0 to |links|
        invariant cands.Valid() && results.Valid()
        invariant s'.Inv() && s'.seen == seen' && s'.SameTask(s)
        invariant c in s'.open && cands.Contents() == Bag(s'.open - {c}, s.score)
        invariant results.Contents() == Bag(s'.results, s.score)
        invariant forall i :: 0 <= i < j ==> links[i] in seen'
        invariant |seen'| > |seen| || (seen' == seen && |cands.items| == old(|cands.items|))
      {
        if links[j] !in seen' {
          assert links[j] in s.adj[c];
          assert s'.CanVisit(c, links[j]);
          s' := Visit(query, queryNorm, c, links[j], ef, layer, cands, results, s');
          assert |seen' + {links[j]}| == |seen'| + 1;
          seen' := seen' + {links[j]};
        }
      }
      assert forall t :: Edge(s.adj, c, t) ==> t in links;
      ExpandDone(s', c);
      s' := s'.Finish(c);
    }

    /** Scores one neighbour that was not seen before. */
    method Visit(query: Vector, queryNorm: real, c: int, w: int, ef: int, layer: int,
                 cands: CandidateHeap, results: CandidateHeap, ghost s: Scan)
      returns (ghost s': Scan)
      requires Searchable(query, queryNorm, c, layer) && Searches(s, query, queryNorm, layer)
      requires s.ef == ef && s.CanVisit(c, w)
      requires cands != results && cands.Valid() && results.Valid()
      requires cands.largestFirst && !results.largestFirst
      requires cands.Contents() == Bag(s.open - {c}, s.score)
      requires results.Contents() == Bag(s.results, s.score)
      modifies cands, results
      ensures cands.Valid() && results.Valid()
      ensures s'.Inv() && s'.SameTask(s) && s'.seen == s.seen + {w}
      ensures c in s'.open && cands.Contents() == Bag(s'.open - {c}, s.score)
      ensures results.Contents() == Bag(s'.results, s.score)
    {
      hide Bag;
      hide CandidateHeap.IsHeap;
      hide Scan.Inv;
      var sim := NodeSimilarity(query, queryNorm, w);
      SearchSizes(s);
      BagFacts(s.results, s.score);
      assert |results.Contents()| == |results.items|;
      var worst := results.Peek();
      BagMinimum(s.results, s.score, worst);
      if sim > worst.similarity || |results.items| < ef {
        NotSeen(s, w);
        assert s.open + {w} - {c} == s.open - {c} + {w};
        BagAdd(s.open - {c}, s.score, w);
        BagAdd(s.results, s.score, w);
        cands.Push(Candidate(w, sim));
        results.Push(Candidate(w, sim));
        s' := Settle(ef, results, s, c, w);
      } else {
        VisitSkips(s, c, w);
        s' := s.Skip(w);
      }
    }

    /** Drops a worst result if the one just pushed made too many. */
    method Settle(ef: int, results: CandidateHeap, ghost s: Scan, ghost c: int, ghost w: int)
      returns (ghost s': Scan)
      requires s.Inv() && s.ef == ef && s.CanVisit(c, w)
      requires |s.results| < ef || exists r :: r in s.results && 0 <= r < |s.score| && s.score[r] < s.score[w]
      requires results.Valid() && !results.largestFirst
      requires results.Contents() == Bag(s.results + {w}, s.score)
      modifies results
      ensures results.Valid()
      ensures s'.Inv() && s'.SameTask(s) && s'.seen == s.seen + {w} && s'.open == s.open + {w}
      ensures results.Contents() == Bag(s'.results, s.score)
    {
      hide Bag;
      hide CandidateHeap.IsHeap;
      hide Scan.Inv;
      SearchSizes(s);
      NotSeen(s, w);
      assert |s.results + {w}| == |s.results| + 1;
      BagFacts(s.results + {w}, s.score);
      assert |results.Contents()| == |results.items|;
      if |results.items| > ef {
        var dropped := results.Pop();
        BagRemove(s.results + {w}, s.score, dropped.id);
        BagMinimum(s.results + {w}, s.score, dropped);
        VisitReplaces(s, c, w, dropped.id);
        s' := s.Replace(w, dropped.id);
      } else {
        VisitAdds(s, c, w);
        s' := s.Add(w);
      }
    }

    /** Empties the result heap into a list, filling it from the back: best first. */
    method Drain(results: CandidateHeap) returns (out: seq<Candidate>)
      requires results.Valid() && !results.largestFirst
      modifies results
      ensures multiset(out) == old(results.Contents()) && BestFirst(out)
    {
      hide CandidateHeap.IsHeap;
      hide BestFirst;
      NothingRanked();
      out := [];
      while |results.items| > 0
        invariant results.Valid()
        invariant multiset(out) + results.Contents() == old(results.Contents())
        invariant BestFirst(out)
        invariant forall x, i :: x in results.Contents() && 0 <= i < |out| ==> x.similarity >= out[i].similarity
        decreases |results.items|
      {
        var c := results.Pop();
        WorseBehind(out, c);
        out := [c] + out;
      }
    }

    /** The two-heap beam search. `early` tells whether the loop stopped before its queue was empty,
        which takes more visited nodes than the beam holds. */
    method SearchLayer(query: Vector, queryNorm: real, ep: int, ef: int, layer: int)
      returns (out: seq<Candidate>, ghost visited: set<int>, ghost early: bool)
      requires Searchable(query, queryNorm, ep, layer) && ef >= 1
      ensures IsBeam(LayerAdj(nodes, layer), QueryScores(nodes, query, queryNorm), ep, ef, out, visited)
      ensures IsLocalOptimum(LayerAdj(nodes, layer), QueryScores(nodes, query, queryNorm), ep, ef, out)
      ensures early ==> |visited| > ef
    {
      hide IsLocalOptimum;
      hide Bag;
      hide CandidateHeap.IsHeap;
      hide Scan.Inv;
      hide IsBeam;
      var seen := {ep};
      var epSim := NodeSimilarity(query, queryNorm, ep);
      var initial := Candidate(ep, epSim);
      var cands := new CandidateHeap(true, initial);
      var results := new CandidateHeap(false, initial);
      ghost var s := Start(LayerAdj(nodes, layer), QueryScores(nodes, query, queryNorm), ep, ef);
      SearchStarts(s.adj, s.score, ep, ef);
      BagOfOne(s.score, ep);
      early := false;
      while |cands.items| > 0
        invariant cands.Valid() && results.Valid()
        invariant Searches(s, query, queryNorm, layer) && s.ep == ep && s.ef == ef && s.seen == seen
        invariant cands.Contents() == Bag(s.open, s.score)
        invariant results.Contents() == Bag(s.results, s.score)
        invariant !early
        decreases |nodes| - |seen|, |cands.items|
      {
        var c := cands.Pop();
        var worst := NextWorst(results, s, c);
        if c.similarity < worst.similarity {
          early := true;
          LeftOutMeansFull(s, c.id);
          break;
        }
        seen, s := Expand(query, queryNorm, c.id, ef, layer, cands, results, seen, s);
        SearchSizes(s);
      }
      visited := seen;
      if !early {
        NothingOpen(s);
      }
      out := Drain(results);
      SearchEnds(s, out);
      BeamSettles(s.adj, s.score, ep, ef, out, visited);
    }

    /** Reads the worst result against the queue's best element c, just popped. */
    method NextWorst(results: CandidateHeap, ghost s: Scan, c: Candidate) returns (worst: Candidate)
      requires s.Inv() && results.Valid() && !results.largestFirst
      requires results.Contents() == Bag(s.results, s.score)
      requires c in Bag(s.open, s.score) && forall x :: x in Bag(s.open, s.score) ==> x.similarity <= c.similarity
      ensures c.id in s.open && c.id in s.seen && 0 <= c.id < |s.adj|
      ensures Bag(s.open - {c.id}, s.score) == Bag(s.open, s.score) - multiset{c}
      ensures c.similarity < worst.similarity ==> forall r :: r in s.results ==> r !in s.open
      ensures c.id in s.results ==> worst.similarity <= c.similarity
    {
      SearchSizes(s);
      BagFacts(s.results, s.score);
      assert |results.Contents()| == |results.items|;
      worst := results.Peek();
      BagMinimum(s.results, s.score, worst);
      BagMaximum(s.open, s.score, c);
      BagRemove(s.open, s.score, c.id);
    }

    // ---------- Choosing neighbours ----------

    /** Is the candidate more similar to some candidate already selected than to the query? */
    method CloserToSelected(e: Candidate, selected: seq<Candidate>, ghost dim: nat) returns (closer: bool)
      requires VectorsOk(nodes, dim)
      requires InRange(Points(nodes), selected) && 0 <= e.id < |nodes|
      ensures closer <==> exists i :: 0 <= i < |selected| && IsCloser(Points(nodes), e, selected[i])
    {
      for i := 0 to |selected|
        invariant forall j :: 0 <= j < i ==>
                    Similarity(Points(nodes)[e.id], Points(nodes)[selected[j].id]) <= e.similarity
      {
        assert selected[i] in selected;
        var eNode, rNode := nodes[e.id], nodes[selected[i].id];
        var sim := CosineSimilarity(eNode.record.vector, eNode.norm, rNode.record.vector, rNode.norm);
        if sim > e.similarity {
          return true;
        }
      }
      return false;
    }

    /** Keeps the candidates that stand at some rising positions, and these make a diverse set; no other list of
        candidates does. */
    method SelectNeighbors(candidates: seq<Candidate>, cap: int, ghost dim: nat) returns (selected: seq<Candidate>)
      requires VectorsOk(nodes, dim) && InRange(Points(nodes), candidates)
      ensures selected == Selected(Points(nodes), candidates, cap)
      ensures cap <= 0 ==> selected == []
      ensures cap >= 0 ==> exists ps: seq<int> ::
                && Rising(ps, |candidates|)
                && |selected| == |ps| && (forall i :: 0 <= i < |ps| ==> selected[i] == candidates[ps[i]])
                && IsDiverse(Points(nodes), candidates, cap, set p | p in ps)
    {
      hide IsDiverse;
      ghost var points := Points(nodes);
      selected := [];
      ChoicePositions(points, candidates, cap);
      assert Pick(candidates, Kept(points, candidates, cap, 0)) == [];
      hide Kept;
      hide Pick;
      hide InRange;
      for i := 0 to |candidates|
        invariant selected == Pick(candidates, Kept(points, candidates, cap, i))
      {
        if |selected| >= cap {
          KeptStops(points, candidates, cap, i, |candidates|);
          return;
        }
        PickInRange(points, candidates, cap, i);
        CandidateInRange(points, candidates, i);
        var closer := CloserToSelected(candidates[i], selected, dim);
        KeptStep(points, candidates, cap, i);
        if !closer {
          selected := selected + [candidates[i]];
        }
      }
    }

    /** Re-ranks the links of a node by similarity to it and selects at most maxConns of them. */
    method PruneConnections(nodeID: int, connections: seq<int>, maxConns: int, ghost dim: nat) returns (out: seq<int>)
      requires VectorsOk(nodes, dim) && 0 <= nodeID < |nodes|
      requires forall t :: t in connections ==> 0 <= t < |nodes|
      ensures IsPruned(Points(nodes), nodeID, connections, maxConns, out)
      ensures maxConns >= 0 ==> exists cands, chosen ::
                && InRange(Points(nodes), cands) && IsRankingOf(Points(nodes), nodeID, connections, cands)
                && IsDiverseChoice(Points(nodes), cands, maxConns, chosen) && out == Ids(chosen)
    {
      hide IsDiverseChoice;
      hide IsDiverse;
      ghost var points := Points(nodes);
      var node := nodes[nodeID];
      var cands: seq<Candidate> := [];
      for i := 0 to |connections|
        invariant |cands| == i
        invariant forall j :: 0 <= j < i ==>
                    0 <= connections[j] < |points| &&
                    cands[j] == Candidate(connections[j], Similarity(points[nodeID], points[connections[j]]))
      {
        assert connections[i] in connections;
        var other := nodes[connections[i]];
        var sim := CosineSimilarity(node.record.vector, node.norm, other.record.vector, other.norm);
        cands := cands + [Candidate(connections[i], sim)];
      }
      var ranked := SortSlice(cands, MoreSimilar);
      RankedLinks(points, nodeID, connections, cands, ranked);
      var selected := SelectNeighbors(ranked, maxConns, dim);
      out := Ids(selected);
      if maxConns >= 0 {
        PrunedExactly(points, nodeID, connections, maxConns, out);
      }
    }

    // ---------- Linking a new node ----------

    /** The state in which node n is being inserted and is linked on layer `from` and above. */
    ghost predicate Inserting(n: int, from: int)
      reads this
    {
      && ConfigOk()
      && GraphInvDuring(nodes, m, overflowed, n, from)
      && VectorsOk(nodes, dimension)
      && 0 <= n < |nodes|
    }

    /** Links node n to the chosen nodes of a layer and back, pruning every list that overflows. */
    method LinkBack(n: int, chosen: seq<int>, layer: int)
      requires ConfigOk() && Shaped(nodes) && VectorsOk(nodes, dimension)
      requires 0 <= n < |nodes| && 0 <= layer <= nodes[n].level
      requires TargetsInRange(LayerAdj(nodes, layer)) && NoDup(chosen)
      requires forall s :: s in chosen ==> 0 <= s < |nodes| && s != n && nodes[s].level >= layer
      modifies this`nodes
      ensures Shaped(nodes) && Skeleton(nodes) == Skeleton(old(nodes))
      ensures LinkedExactly(Points(nodes), LayerAdj(old(nodes), layer), LayerAdj(nodes, layer), n, chosen, |chosen|,
                            Cap(m, layer))
      ensures forall other: nat :: other != layer ==> LayerAdj(nodes, other) == LayerAdj(old(nodes), other)
    {
      hide IsPruned;
      ghost var points, before := Points(nodes), LayerAdj(nodes, layer);
      SetLinksEffect(nodes, n, layer, chosen);
      SkeletonDetermines(nodes, SetLinks(nodes, n, layer, chosen));
      nodes := SetLinks(nodes, n, layer, chosen);
      for i := 0 to |chosen|
        invariant Shaped(nodes) && Skeleton(nodes) == Skeleton(old(nodes))
        invariant Points(nodes) == points && VectorsOk(nodes, dimension)
        invariant LinkedExactly(points, before, LayerAdj(nodes, layer), n, chosen, i, Cap(m, layer))
        invariant forall other: nat :: other != layer ==> LayerAdj(nodes, other) == LayerAdj(old(nodes), other)
      {
        var s := chosen[i];
        assert s in chosen;
        SkeletonDetermines(nodes, old(nodes));
        assert s in Members(nodes, layer) && n in Members(nodes, layer);
        var nConns := nodes[s].connections[layer] + [n];
        assert nConns == LayerAdj(nodes, layer)[s] + [n];
        StillUntouched(points, before, LayerAdj(nodes, layer), n, chosen, i, Cap(m, layer));
        var nMMax := if layer == 0 then mmax0 else m;
        if |nConns| > nMMax {
          nConns := PruneConnections(s, nConns, nMMax, dimension);
        }
        LinkStep(points, before, LayerAdj(nodes, layer), n, chosen, i, Cap(m, layer), nConns);
        SetLinksEffect(nodes, s, layer, nConns);
        SkeletonDetermines(nodes, SetLinks(nodes, s, layer, nConns));
        nodes := SetLinks(nodes, s, layer, nConns);
      }
    }

    /** The similarity of every node to node n. */
    ghost function ScoresFrom(n: int): seq<real>
      requires 0 <= n < |nodes|
      reads this
    {
      QueryScores(nodes, nodes[n].record.vector, nodes[n].norm)
    }

    /** The first half of a round: the candidates from a beam search of the layer and the selection
        among them. */
    method ChooseLinks(n: int, ep: int, layer: int)
      returns (candidates: seq<Candidate>, chosen: seq<int>, ghost visited: set<int>)
      requires layer >= 0 && Inserting(n, layer + 1) && layer <= nodes[n].level
      requires ep in Members(nodes, layer) - {n}
      ensures IsBeam(LayerAdj(nodes, layer), ScoresFrom(n), ep, efConst, candidates, visited)
      ensures InRange(Points(nodes), candidates) && candidates != []
      ensures chosen == Ids(Selected(Points(nodes), candidates, m))
      ensures NoDup(chosen) && 1 <= |chosen| <= m && forall s :: s in chosen ==> s in Members(nodes, layer) - {n}
      ensures candidates[0].id in Members(nodes, layer) - {n} && 0 <= ep < |nodes|
      ensures ScoresFrom(n)[candidates[0].id] >= ScoresFrom(n)[ep]
      ensures TargetsInRange(LayerAdj(nodes, layer))
    {
      hide IsLocalOptimum;
      hide IsBeam;
      hide LayerInv;
      hide LayerOk;
      ghost var adj, members := LayerAdj(nodes, layer), Members(nodes, layer) - {n};
      InvGivesLayer(nodes, m, overflowed, n, layer);
      LayerTargets(adj, members, Cap(m, layer));
      ghost var early;
      candidates, visited, early := SearchLayer(nodes[n].record.vector, nodes[n].norm, ep, efConst, layer);
      BeamStaysInLayer(adj, members, Cap(m, layer), ScoresFrom(n), ep, efConst, candidates, visited, Points(nodes), m);
      BeamScores(adj, ScoresFrom(n), ep, efConst, candidates, visited);
      assert candidates[0] in candidates;
      var selected := SelectNeighbors(candidates, m, dimension);
      chosen := Ids(selected);
    }

    /** One round of the insertion loop: search the layer, select, link both ways. The next layer is
        entered at the best candidate. */
    method ConnectLayer(n: int, ep: int, layer: int) returns (next: int)
      requires layer >= 0 && Inserting(n, layer + 1) && layer <= nodes[n].level
      requires ep in Members(nodes, layer) - {n}
      modifies this`nodes, this`overflowed
      ensures Inserting(n, layer)
      ensures Skeleton(nodes) == Skeleton(old(nodes)) && Points(nodes) == Points(old(nodes))
              && ScoresFrom(n) == old(ScoresFrom(n))
      ensures next in Members(nodes, layer) - {n} && 0 <= ep < |nodes| && ScoresFrom(n)[next] >= ScoresFrom(n)[ep]
      ensures LayerLinked(Points(nodes), ScoresFrom(n), LayerAdj(old(nodes), layer), LayerAdj(nodes, layer), n, ep,
                          next, efConst, m, Cap(m, layer))
      ensures forall other: nat :: other != layer ==> LayerAdj(nodes, other) == LayerAdj(old(nodes), other)
      ensures overflowed == if Overflows(LayerAdj(old(nodes), layer), LayerAdj(nodes, layer)[n], Cap(m, layer))
                            then old(overflowed) + {layer} else old(overflowed)
    {
      hide IsBeam;
      hide LayerInv;
      hide GraphInvDuring;
      hide LinkedExactly;
      hide LayerLinked;
      hide InRange;
      hide Overflows;
      InsertingShape(n, layer);
      var candidates, chosen; ghost var visited;
      candidates, chosen, visited := ChooseLinks(n, ep, layer);
      LinkBack(n, chosen, layer);
      SkeletonDetermines(old(nodes), nodes);
      SkeletonNode(nodes, old(nodes), n);
      LinkingKeepsInv(old(nodes), nodes, m, overflowed, n, layer, chosen);
      ChosenIsRow(Points(nodes), LayerAdj(old(nodes), layer), LayerAdj(nodes, layer), n, chosen, Cap(m, layer));
      LayerIsLinked(Points(nodes), ScoresFrom(n), LayerAdj(old(nodes), layer), LayerAdj(nodes, layer), n, ep, efConst,
                    m, Cap(m, layer), candidates, visited, chosen);
      if Overflows(LayerAdj(old(nodes), layer), chosen, Cap(m, layer)) {
        overflowed := overflowed + {layer};
      }
      next := candidates[0].id;
    }

    lemma InsertingShape(n: int, layer: int)
      requires layer >= 0 && Inserting(n, layer + 1)
      ensures Shaped(nodes)
    {
    }

    /** Climbs once on every layer from `top` down to `low`. The climbs stay among the layers' members
        and never meet the node `hidden`, which is not linked there; they never lose similarity. */
    method Descend(query: Vector, queryNorm: real, ep: int, top: int, low: nat, ghost hidden: int)
      returns (r: int)
      requires VectorsOk(nodes, |query|) && queryNorm > 0.0
      requires low >= 1 && top >= 0 && ep in Members(nodes, top) - {hidden}
      requires forall layer: nat :: layer >= low ==>
                 LayerOk(LayerAdj(nodes, layer), Members(nodes, layer) - {hidden}, Cap(m, layer))
      ensures Descends(nodes, QueryScores(nodes, query, queryNorm), top, low, ep, r)
      ensures 0 <= r < |nodes| && QueryScores(nodes, query, queryNorm)[r] >= QueryScores(nodes, query, queryNorm)[ep]
      ensures r in Members(nodes, if top < low then top else low - 1) - {hidden}
      ensures exists stops: seq<int> ::
                && |stops| == (if top < low then 1 else top - low + 2)
                && stops[0] == ep && stops[|stops| - 1] == r
                && forall i :: 0 <= i < |stops| - 1 ==>
                     Climbs(LayerAdj(nodes, top - i), QueryScores(nodes, query, queryNorm), stops[i], stops[i + 1])
      ensures top >= low ==> forall t :: t in LayerAdj(nodes, low)[r] ==>
                0 <= t < |nodes| && QueryScores(nodes, query, queryNorm)[t] <= QueryScores(nodes, query, queryNorm)[r]
    {
      hide LayerOk;
      hide Climbs;
      hide VectorsOk;
      hide QueryScores;
      hide LayerAdj;
      hide LinksOf;
      hide Cosine;
      ghost var score := QueryScores(nodes, query, queryNorm);
      r := ep;
      var lc := top;
      while lc >= low
        invariant top < low ==> lc == top
        invariant top >= low ==> low - 1 <= lc <= top
        invariant r in Members(nodes, lc) - {hidden}
        invariant Descends(nodes, score, top, lc + 1, ep, r)
      {
        ghost var members := Members(nodes, lc) - {hidden};
        LayerTargets(LayerAdj(nodes, lc), members, Cap(m, lc));
        ghost var before := r;
        r := GreedyClosest(query, queryNorm, r, lc);
        ClimbStaysInLayer(LayerAdj(nodes, lc), members, Cap(m, lc), score, before, r);
        lc := lc - 1;
      }
      DescentShort(nodes, score, top, lc + 1, low, ep, r);
      DescentClimbs(nodes, score, top, low, ep, r);
      DescentExactly(nodes, score, top, low, ep, r);
      if top >= low {
        DescentPeak(nodes, score, top, low, ep, r);
      }
    }

    /** The body of an insertion once the new node, the last one, has been appended to a non-empty
        graph: descend to its level, then link it in layer by layer. */
    method LinkIn(n: int)
      requires ConfigOk() && 0 < n == |nodes| - 1
      requires Unlinked(nodes[n]) && VectorsOk(nodes, dimension)
      requires GraphInv(nodes[..n], m, overflowed) && EntryOk(nodes[..n], entryPoint, maxLevel)
      modifies this`nodes, this`overflowed
      ensures GraphInv(nodes, m, overflowed) && Skeleton(nodes) == Skeleton(old(nodes))
      ensures OverflowsNoted(old(nodes)[..n], nodes, n, m, old(overflowed), overflowed)
      ensures |nodes| == n + 1 && Placed(old(nodes)[..n], nodes, entryPoint, maxLevel, efConst, m)
    {
      hide LayerInv;
      hide LayerOk;
      hide Descends;
      hide LinkedDown;
      hide Placed;
      hide EntryOk;
      hide GraphInv;
      hide GraphInvDuring;
      hide Unlinked;
      hide OverflowsNoted;
      ghost var start, score := nodes, ScoresFrom(n);
      var vector, norm, level := nodes[n].record.vector, nodes[n].norm, nodes[n].level;
      var topLevel := if level > maxLevel then maxLevel else level;
      ReadyToLink(nodes, n, m, overflowed, entryPoint, maxLevel);
      var ep := Descend(vector, norm, entryPoint, maxLevel, level + 1, n);
      LinkDown(n, ep, topLevel);
      DuringToDone(nodes, m, overflowed, n, 0);
      ghost var last :| LinkedDown(score, start, nodes, n, topLevel, 0, ep, last, efConst, m);
      MakePlaced(start, nodes, n, entryPoint, maxLevel, efConst, m, score, topLevel, ep, last);
      NoSelfLinks(nodes, m, overflowed, n);
      assert start == start[..n] + [start[n]];
      NotedWithoutFresh(start[..n], start[n], nodes, n, m, old(overflowed), overflowed);
    }

    /** The layer loop of an insertion. */
    method LinkDown(n: int, ep: int, topLevel: int)
      requires topLevel >= 0 && Inserting(n, topLevel + 1) && topLevel <= nodes[n].level
      requires ep in Members(nodes, topLevel) - {n} && Unlinked(nodes[n])
      modifies this`nodes, this`overflowed
      ensures Inserting(n, 0) && Skeleton(nodes) == Skeleton(old(nodes))
      ensures OverflowsNoted(old(nodes), nodes, n, m, old(overflowed), overflowed)
      ensures exists last :: LinkedDown(old(ScoresFrom(n)), old(nodes), nodes, n, topLevel, 0, ep, last, efConst, m)
      ensures forall layer: nat :: layer > topLevel ==> LayerAdj(nodes, layer) == LayerAdj(old(nodes), layer)
    {
      hide GraphInvDuring;
      hide LayerLinked;
      hide LinkedDown;
      hide OverflowsNoted;
      ghost var start, score := nodes, ScoresFrom(n);
      var entry := ep;
      var lc := topLevel;
      LinkedNothing(score, nodes, n, topLevel, ep, efConst, m);
      UnlinkedNotesNothing(nodes, n, m, overflowed);
      while lc >= 0
        invariant -1 <= lc <= topLevel
        invariant Inserting(n, lc + 1) && Skeleton(nodes) == Skeleton(start)
        invariant ScoresFrom(n) == score && Points(nodes) == Points(start)
        invariant lc >= 0 ==> entry in Members(nodes, lc) - {n}
        invariant OverflowsNoted(start, nodes, n, m, old(overflowed), overflowed)
        invariant forall layer: nat :: layer <= lc || layer > topLevel ==>
                    LayerAdj(nodes, layer) == LayerAdj(start, layer)
        invariant LinkedDown(score, start, nodes, n, topLevel, lc + 1, ep, entry, efConst, m)
      {
        assert Skeleton(nodes)[n] == Skeleton(start)[n];
        ghost var mid, prev, noted := nodes, entry, overflowed;
        entry := ConnectLayer(n, entry, lc);
        LinkOneMore(score, start, mid, nodes, n, topLevel, lc, ep, prev, entry, efConst, m);
        assert LayerAdj(start, lc)[n] == [];
        NoteOneMore(start, mid, nodes, n, m, lc, old(overflowed), noted, overflowed);
        lc := lc - 1;
      }
    }

    // ---------- Insert and Delete ----------

    /** Appends a node and links it. */
    method AddNode(record: Record, norm: real, level: nat)
      requires ConfigOk() && GraphInv(nodes, m, overflowed) && EntryOk(nodes, entryPoint, maxLevel)
      requires VectorsOk(nodes, dimension) && |record.vector| == dimension && norm > 0.0
      modifies this`nodes, this`overflowed, this`entryPoint, this`maxLevel
      ensures GraphInv(nodes, m, overflowed) && EntryOk(nodes, entryPoint, maxLevel)
      ensures OverflowsNoted(old(nodes), nodes, |old(nodes)|, m, old(overflowed), overflowed)
      ensures Skeleton(nodes) == Skeleton(old(nodes) + [Node(record, norm, [], level, false)])
      ensures |nodes| == |old(nodes)| + 1
      ensures old(nodes) != [] ==> Placed(old(nodes), nodes, old(entryPoint), old(maxLevel), efConst, m)
      ensures entryPoint == if level > old(maxLevel) then |old(nodes)| else old(entryPoint)
      ensures maxLevel == if level > old(maxLevel) then level else old(maxLevel)
    {
      hide GraphInv;
      hide EntryOk;
      hide Placed;
      hide OverflowsNoted;
      hide VectorsOk;
      hide Skeleton;
      hide Unlinked;
      var n := |nodes|;
      var node := FreshNode(record, norm, level);
      ghost var before := nodes;
      AppendedPlain(before, record, norm, level);
      nodes := nodes + [node];
      assert nodes[..n] == before && nodes[n] == node;
      EntryFacts(before, entryPoint, maxLevel);
      if entryPoint == -1 {
        FirstNodeAdded(node, m, overflowed);
        assert nodes == [node];
        entryPoint := n;
        maxLevel := level;
        return;
      }
      AppendVectors(before, node, dimension);
      LinkIn(n);
      EntryAfterAppend(before, nodes, node, entryPoint, maxLevel);
      if level > maxLevel {
        maxLevel := level;
        entryPoint := n;
      }
    }

    /** Refuses an empty id, an empty or zero vector and a wrong dimension; otherwise the record joins
        the live ones and the graph grows by one node. */
    method Insert(id: string, text: string, vector: Vector) returns (err: Option<IndexError>)
      requires Valid()
      modifies this
      ensures Valid()
      ensures err == InsertFault(old(State()), id, vector)
      ensures State() == AfterInsert(old(State()), Record(id, text, vector))
      ensures err.None? ==> State() == IndexState(|vector|, old(State()).records + [Record(id, text, vector)])
      ensures err.Some? ==> unchanged(this)
      ensures err.None? ==>
                && |nodes| == |old(nodes)| + 1 && draws == old(draws) + 1
                && Skeleton(nodes) == Skeleton(old(nodes) + [Node(Record(id, text, vector), sqrt(Dot(vector, vector)),
                                                                  [], levels(old(draws)), false)])
                && idMap == old(idMap)[id := |old(nodes)|]
                && (old(nodes) != [] ==> Placed(old(nodes), nodes, old(entryPoint), old(maxLevel), efConst, m))
      ensures err.None? ==>
                && entryPoint == (if levels(old(draws)) > old(maxLevel) then |old(nodes)| else old(entryPoint))
                && maxLevel == (if levels(old(draws)) > old(maxLevel) then levels(old(draws)) else old(maxLevel))
      ensures err.None? && old(IdsOk()) ==> (IdsOk() <==> id !in old(idMap))
      ensures err.None? ==> OverflowsNoted(old(nodes), nodes, |old(nodes)|, m, old(overflowed), overflowed)
      ensures efSearch == old(efSearch)
    {
      hide GraphInv;
      hide Placed;
      hide OverflowsNoted;
      hide EntryOk;
      hide VectorsOk;
      hide NormsOk;
      hide MapOk;
      hide MapOnto;
      hide LiveRecords;
      hide IsSqrt;
      if id == "" {
        return Some(EmptyId);
      }
      var checked := VectorNorm(sqrt, vector);
      if checked.Err? {
        return Some(BadVector(checked.error));
      }
      if dimension == 0 {
        NoVectors(|vector|);
        dimension := |vector|;
      } else if |vector| != dimension {
        return Some(DimensionMismatch(|vector|, dimension));
      }
      var level := RandomLevel();
      var record := Record(id, text, vector);
      ghost var plain := Node(record, checked.value, [], level, false);
      AddNode(record, checked.value, level);
      BijectionAfterAppend(old(nodes), nodes, plain, idMap);
      LiveAfterAppend(old(nodes), nodes, plain);
      ValidAfterAppend(old(nodes), nodes, plain, dimension, sqrt);
      idMap := idMap[id := |nodes| - 1];
      return None;
    }

    /** Turns the node of a live id into a tombstone; its links stay. */
    method Delete(id: string) returns (err: Option<IndexError>)
      requires Valid()
      modifies this`nodes, this`idMap
      ensures Valid() && |nodes| == |old(nodes)|
      ensures forall layer: nat :: LayerAdj(nodes, layer) == LayerAdj(old(nodes), layer)
      ensures err == if id in old(idMap) then None else Some(NotFound(id))
      ensures err.Some? ==> nodes == old(nodes) && idMap == old(idMap)
      ensures err.None? ==>
                && idMap == old(idMap) - {id}
                && nodes == old(nodes)[old(idMap)[id] := old(nodes)[old(idMap)[id]].(deleted := true)]
      ensures old(IdsOk()) ==>
                IdsOk() && err == DeleteFault(old(State()), id) && State() == AfterDelete(old(State()), id)
    {
      hide GraphInv;
      hide EntryOk;
      hide VectorsOk;
      hide NormsOk;
      hide LiveRecords;
      IdsTellLive(nodes, idMap, id);
      if id !in idMap {
        return Some(NotFound(id));
      }
      var k := idMap[id];
      TombstoneKeeps(nodes, k, m, overflowed);
      TombstoneKeepsRest(nodes, idMap, id, entryPoint, maxLevel, dimension, sqrt);
      nodes := nodes[k := nodes[k].(deleted := true)];
      idMap := idMap - {id};
      return None;
    }

    // ---------- Search and List ----------

    /** The width of the beam for a query of k. */
    function BeamWidth(k: int): (w: int)
      reads this
      ensures w >= efSearch && w >= k && (w == efSearch || w == k)
    {
      if efSearch < k then k else efSearch
    }

    /** The norm the query is scored with. */
    ghost function NormOf(v: Vector): real {
      sqrt(Dot(v, v))
    }

    /** Why a search is refused. Unlike the linear scan, the graph also refuses a query of the wrong
        dimension when all its records have been deleted. */
    ghost function SearchFault(query: Vector, k: int): Option<IndexError>
      reads this
    {
      if k <= 0 then None
      else if VectorFault(query).Some? then Some(BadVector(VectorFault(query).value))
      else if nodes != [] && |query| != dimension then Some(DimensionMismatch(|query|, dimension))
      else None
    }

    method Search(query: Vector, k: int) returns (r: Result<seq<TextHit>, IndexError>)
      requires Valid()
      ensures SearchFault(query, k).Some? ==> r == Err(SearchFault(query, k).value)
      ensures SearchFault(query, k).None? ==> r.Ok?
      ensures r.Ok? && (k <= 0 || nodes == []) ==> r.value == []
      ensures k <= 0 ==> r == Ok([])
      ensures k > 0 && |query| == 0 ==> r == Err(BadVector(EmptyVector))
      ensures k > 0 && |query| > 0 && (forall i :: 0 <= i < |query| ==> query[i] == 0.0) ==>
                r == Err(BadVector(ZeroNorm))
      ensures k > 0 && (exists i :: 0 <= i < |query| && query[i] != 0.0) ==>
                && (nodes == [] ==> r == Ok([]))
                && (nodes != [] && |query| != dimension ==> r == Err(DimensionMismatch(|query|, dimension)))
                && (nodes != [] && |query| == dimension ==> r.Ok?)
      ensures r.Ok? ==> multiset(r.value) <= multiset(RecordHits(State().records, query, NormOf(query), sqrt))
      ensures r.Ok? && k > 0 ==> Descending(r.value) && |r.value| <= k
      ensures r.Ok? && k > 0 && nodes != [] ==>
                IsAnswer(nodes, query, NormOf(query), entryPoint, maxLevel, BeamWidth(k), k, r.value)
      ensures r.Ok? && k > 0 && 0 !in overflowed && (efSearch >= |nodes| || k >= |nodes|) ==>
                IsTopK(multiset(RecordHits(State().records, query, NormOf(query), sqrt)), r.value, k)
      ensures r.Ok? && k > 0 && 0 !in overflowed &&
              (efSearch >= Min(k, |State().records|) + |Tombstones(nodes)| ||
               k >= Min(k, |State().records|) + |Tombstones(nodes)|) ==>
                |r.value| == Min(k, |State().records|)
    {
      hide GraphInv;
      hide LayerOk;
      hide Tombstones;
      hide Descends;
      hide IsLocalOptimum;
      hide IsBeam;
      hide IsTopK;
      if k <= 0 {
        return Ok([]);
      }
      var checked := VectorNorm(sqrt, query);
      if checked.Err? {
        return Err(BadVector(checked.error));
      }
      if |nodes| == 0 {
        NothingToFind(query, checked.value, sqrt, k);
        return Ok([]);
      }
      if |query| != dimension {
        return Err(DimensionMismatch(|query|, dimension));
      }
      EveryLayerOk(nodes, m, overflowed);
      assert entryPoint in Members(nodes, maxLevel);
      var ep := Descend(query, checked.value, entryPoint, maxLevel, 1, -1);
      var ef := if efSearch < k then k else efSearch;
      var candidates; ghost var visited; ghost var early;
      candidates, visited, early := SearchLayer(query, checked.value, ep, ef, 0);
      BeamScores(LayerAdj(nodes, 0), QueryScores(nodes, query, checked.value), ep, ef, candidates, visited);
      var results := TakeLive(candidates, k, QueryScores(nodes, query, checked.value));
      assert IsAnswer(nodes, query, checked.value, entryPoint, maxLevel, ef, k, results);
      AnswerIsPart(nodes, query, checked.value, sqrt, entryPoint, maxLevel, ef, k, results);
      if 0 !in overflowed && ef >= |nodes| {
        AnswerIsExact(nodes, m, overflowed, query, checked.value, sqrt, entryPoint, maxLevel, ef, k, results);
      }
      if 0 !in overflowed && ef >= Min(k, |LiveRecords(nodes)|) + |Tombstones(nodes)| {
        AnswerIsFull(nodes, m, overflowed, query, checked.value, entryPoint, maxLevel, ef, k, results);
      }
      return Ok(results);
    }

    /** The result loop: the first k candidates that are not tombstones. */
    method TakeLive(candidates: seq<Candidate>, k: int, ghost score: seq<real>) returns (results: seq<TextHit>)
      requires k > 0 && |score| == |nodes| && Scored(candidates, score)
      ensures results == FirstK(LiveHits(nodes, score, Ids(candidates)), k)
      ensures exists picks :: PicksLive(nodes, candidates, k, picks, results)
    {
      hide PicksLive;
      ghost var picks := FirstLivePicks(nodes, score, candidates, k);
      ghost var ids := Ids(candidates);
      results := [];
      for i := 0 to |candidates|
        invariant results == LiveHits(nodes, score, ids[..i]) && |results| < k
      {
        var c := candidates[i];
        assert c in candidates;
        assert ids[..i + 1] == ids[..i] + [c.id];
        LiveHitsConcat(nodes, score, ids[..i], [c.id]);
        LiveHitsOne(nodes, score, c.id);
        if !nodes[c.id].deleted {
          results := results + [Hit(nodes[c.id].record.id, nodes[c.id].record.text, c.similarity)];
          if |results| == k {
            assert ids == ids[..i + 1] + ids[i + 1..];
            LiveHitsConcat(nodes, score, ids[..i + 1], ids[i + 1..]);
            return;
          }
        }
      }
      assert ids[..|candidates|] == ids;
    }

    method List() returns (records: seq<Record>)
      requires Valid()
      ensures records == State().records
    {
      records := [];
      for i := 0 to |nodes|
        invariant records == LiveRecords(nodes[..i])
      {
        assert nodes[..i + 1][..i] == nodes[..i];
        if !nodes[i].deleted {
          records := records + [nodes[i].record];
        }
      }
      assert nodes[..|nodes|] == nodes;
    }
  }

  /** The node as it is appended: no links yet on any of its levels. */
  function FreshNode(record: Record, norm: real, level: nat): (r: Node)
    ensures Unlinked(r) && r.record == record && r.norm == norm && r.level == level && !r.deleted
  {
    Node(record, norm, seq(level + 1, _ => []), level, false)
  }

  lemma AppendedPlain(before: seq<Node>, record: Record, norm: real, level: nat)
    ensures Skeleton(before + [FreshNode(record, norm, level)])
            == Skeleton(before + [Node(record, norm, [], level, false)])
  {
    SameSkeleton(before, FreshNode(record, norm, level), Node(record, norm, [], level, false));
  }

  lemma FirstNodeAdded(node: Node, m: int, overflowed: set<int>)
    requires GraphInv([], m, overflowed) && Unlinked(node) && m >= 1
    ensures GraphInv([node], m, overflowed) && EntryOk([node], 0, node.level)
    ensures OverflowsNoted([], [node], 0, m, overflowed, overflowed)
  {
    hide GraphInv;
    hide EntryOk;
    hide OverflowsNoted;
    FirstNode(node, m, overflowed);
    FirstEntry(node);
    UnlinkedNotesNothing([node], 0, m, overflowed);
    NoSelfLinks([node], m, overflowed, 0);
    assert [] + [node] == [node];
    NotedWithoutFresh([], node, [node], 0, m, overflowed, overflowed);
  }

  lemma NothingToFind(query: Vector, queryNorm: real, sqrt: real -> real, k: nat)
    ensures IsTopK(multiset(RecordHits(LiveRecords([]), query, queryNorm, sqrt)), [], k)
  {
    assert RecordHits(LiveRecords([]), query, queryNorm, sqrt) == [];
  }

  lemma EveryLayerOk(nodes: seq<Node>, m: int, overflowed: set<int>)
    requires GraphInv(nodes, m, overflowed)
    ensures forall layer: nat :: LayerOk(LayerAdj(nodes, layer), Members(nodes, layer) - {-1}, Cap(m, layer))
    ensures TargetsInRange(LayerAdj(nodes, 0))
  {
    forall layer: nat
      ensures LayerOk(LayerAdj(nodes, layer), Members(nodes, layer) - {-1}, Cap(m, layer))
    {
      assert LayerInv(LayerAdj(nodes, layer), Members(nodes, layer), Cap(m, layer), layer in overflowed);
      assert Members(nodes, layer) - {-1} == Members(nodes, layer);
    }
    LayerTargets(LayerAdj(nodes, 0), Members(nodes, 0) - {-1}, Cap(m, 0));
  }

  /** What every list of links of a valid index satisfies, in the index's own terms: it is there for every
      level of its node, has no repetitions and no self-link, leads to nodes present on the same layer,
      keeps to the cap, and is not empty unless the node is alone on the layer. */
  lemma LinksAreWellFormed(index: HnswIndex, i: nat, layer: nat)
    requires index.Valid() && i < |index.nodes|
    ensures |index.nodes[i].connections| == index.nodes[i].level + 1 && index.nodes[i].level <= index.maxLevel
    ensures layer <= index.nodes[i].level ==>
              var links := index.nodes[i].connections[layer];
              && NoDup(links) && |links| <= (if layer == 0 then index.mmax0 else index.m)
              && (forall t :: t in links ==> 0 <= t < |index.nodes| && t != i && index.nodes[t].level >= layer)
              && (forall j :: 0 <= j < |index.nodes| && j != i && index.nodes[j].level >= layer ==> links != [])
  {
    var nodes := index.nodes;
    var adj, members := LayerAdj(nodes, layer), Members(nodes, layer);
    assert LayerInv(adj, members, Cap(index.m, layer), layer in index.overflowed);
    assert ListOk(adj[i], i, members, Cap(index.m, layer));
    if layer <= nodes[i].level {
      assert adj[i] == nodes[i].connections[layer] && i in members;
    }
  }

  /** Until one of its lists overflows, which takes more than cap + 1 nodes, a layer's links are symmetric and
      any two of its nodes are joined by a path. */
  lemma UnprunedLayerIsWhole(index: HnswIndex, layer: nat)
    requires index.Valid()
    requires layer !in index.overflowed || |Members(index.nodes, layer)| <= Cap(index.m, layer) + 1
    ensures forall a, b :: Edge(LayerAdj(index.nodes, layer), a, b) <==> Edge(LayerAdj(index.nodes, layer), b, a)
    ensures forall a, b :: a in Members(index.nodes, layer) && b in Members(index.nodes, layer) ==>
                             Reachable(LayerAdj(index.nodes, layer), a, b)
  {
    assert LayerInv(LayerAdj(index.nodes, layer), Members(index.nodes, layer), Cap(index.m, layer),
                    layer in index.overflowed);
  }

  /** Under the bijection an id is in the map exactly if some live record carries it. */
  lemma IdsTellLive(nodes: seq<Node>, idMap: map<string, int>, id: string)
    requires MapOk(nodes, idMap)
    ensures MapOnto(nodes, idMap) ==> (id in idMap <==> HasId(LiveRecords(nodes), id))
    ensures MapOnto(nodes, idMap) && id !in idMap ==> RemoveFirst(LiveRecords(nodes), id) == LiveRecords(nodes)
  {
    LiveIds(nodes, id);
    if MapOnto(nodes, idMap) && id !in idMap {
      RemoveFirstAbsent(LiveRecords(nodes), id);
    }
  }

  lemma NotLiveNotMapped(index: HnswIndex, id: string)
    requires index.Valid() && index.IdsOk() && !HasId(index.State().records, id)
    ensures id !in index.idMap
  {
    hide GraphInv;
    IdsTellLive(index.nodes, index.idMap, id);
  }

  lemma TombstoneKeepsRest(nodes: seq<Node>, idMap: map<string, int>, id: string, entryPoint: int, maxLevel: int,
                           dimension: nat, sqrt: real -> real)
    requires MapOk(nodes, idMap) && id in idMap && EntryOk(nodes, entryPoint, maxLevel)
    requires VectorsOk(nodes, dimension) && NormsOk(nodes, sqrt)
    ensures var k := idMap[id];
            var after := nodes[k := nodes[k].(deleted := true)];
            && EntryOk(after, entryPoint, maxLevel)
            && VectorsOk(after, dimension) && NormsOk(after, sqrt)
            && MapOk(after, idMap - {id})
            && (MapOnto(nodes, idMap) ==> MapOnto(after, idMap - {id})
                                          && LiveRecords(after) == RemoveFirst(LiveRecords(nodes), id))
  {
    if MapOnto(nodes, idMap) {
      LiveAfterTombstone(nodes, idMap[id]);
    }
  }

  predicate MoreSimilar(a: Candidate, b: Candidate) {
    a.similarity > b.similarity
  }

  lemma PickInRange(points: seq<Point>, cands: seq<Candidate>, m: int, i: nat)
    requires InRange(points, cands) && i <= |cands|
    ensures InRange(points, Pick(cands, Kept(points, cands, m, i)))
  {
    var kept := Kept(points, cands, m, i);
    forall c | c in Pick(cands, kept)
      ensures 0 <= c.id < |points|
    {
      var j :| 0 <= j < |kept| && cands[kept[j]] == c;
      assert cands[kept[j]] in cands;
    }
  }

  lemma CandidateInRange(points: seq<Point>, cands: seq<Candidate>, i: nat)
    requires InRange(points, cands) && i < |cands|
    ensures 0 <= cands[i].id < |points|
  {
    assert cands[i] in cands;
  }

  /** What one round of the selection loop does. */
  lemma KeptStep(points: seq<Point>, cands: seq<Candidate>, m: int, i: nat)
    requires InRange(points, cands) && i < |cands| && |Kept(points, cands, m, i)| < m
    requires InRange(points, Pick(cands, Kept(points, cands, m, i)))
    ensures var selected := Pick(cands, Kept(points, cands, m, i));
            var closer := exists j :: 0 <= j < |selected| && IsCloser(points, cands[i], selected[j]);
            Pick(cands, Kept(points, cands, m, i + 1)) == if closer then selected else selected + [cands[i]]
  {
    KeptCrowds(points, cands, m, i);
  }

  lemma KeptCrowds(points: seq<Point>, cands: seq<Candidate>, m: int, i: nat)
    requires InRange(points, cands) && i < |cands|
    ensures var kept := Kept(points, cands, m, i);
            (exists r :: r in kept && Crowds(points, cands, r, i)) <==>
            exists j :: 0 <= j < |kept| && Crowds(points, cands, kept[j], i)
  {
    var kept := Kept(points, cands, m, i);
    if r :| r in kept && Crowds(points, cands, r, i) {
      var j :| 0 <= j < |kept| && kept[j] == r;
    }
    if j :| 0 <= j < |kept| && Crowds(points, cands, kept[j], i) {
      assert kept[j] in kept;
    }
  }

  lemma {:induction false} IdsAsFlatMap(cs: seq<Candidate>)
    ensures Ids(cs) == FlatMap((c: Candidate) => [c.id], cs)
  {
    if cs != [] {
      IdsAsFlatMap(cs[1..]);
    }
  }

  lemma IdsOfPermutation(a: seq<Candidate>, b: seq<Candidate>)
    requires multiset(a) == multiset(b)
    ensures multiset(Ids(a)) == multiset(Ids(b))
  {
    IdsAsFlatMap(a);
    IdsAsFlatMap(b);
    FlatMapPermutation((c: Candidate) => [c.id], a, b);
  }

  /** Sorting a node's scored links ranks them. */
  lemma RankedLinks(points: seq<Point>, node: int, links: seq<int>, cands: seq<Candidate>, ranked: seq<Candidate>)
    requires 0 <= node < |points| && |cands| == |links|
    requires forall i :: 0 <= i < |links| ==>
               0 <= links[i] < |points| && cands[i] == Candidate(links[i], Similarity(points[node], points[links[i]]))
    requires Sorted(ranked, MoreSimilar) && multiset(ranked) == multiset(cands)
    ensures Ranks(points, node, links, ranked)
  {
    IdsOfPermutation(ranked, cands);
    assert Ids(cands) == links;
    forall c | c in ranked
      ensures 0 <= c.id < |points| && c.similarity == Similarity(points[node], points[c.id])
    {
      assert c in multiset(cands);
      var i :| 0 <= i < |cands| && cands[i] == c;
    }
  }

  lemma NoVectors(dimension: nat)
    ensures VectorsOk([], dimension)
  {
  }

  lemma ValidAfterAppend(before: seq<Node>, after: seq<Node>, node: Node, dimension: nat, sqrt: real -> real)
    requires Skeleton(after) == Skeleton(before + [node])
    requires VectorsOk(before, dimension) && |node.record.vector| == dimension && node.norm > 0.0
    requires NormsOk(before, sqrt) && node.norm == sqrt(Dot(node.record.vector, node.record.vector))
    ensures VectorsOk(after, dimension) && NormsOk(after, sqrt) && |after| == |before| + 1
  {
    SkeletonNode(after, before + [node], |before|);
    forall i | 0 <= i < |after|
      ensures after[i].record == (before + [node])[i].record && after[i].norm == (before + [node])[i].norm
    {
      SkeletonNode(after, before + [node], i);
    }
  }
}
