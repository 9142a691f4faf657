/** The stored graph of internal/index/hnsw.go as a value, and its view layer by layer. */
module Graph {
  import opened Beams
  import opened Heaps
  import opened IndexSpec
  import opened Layers
  import opened Selection
  import opened Vectors

  datatype Node = Node(record: Record, norm: real, connections: seq<seq<int>>, level: nat, deleted: bool)

  // ---------- Views ----------

  /** Everything about the nodes except their links. */
  ghost function Skeleton(nodes: seq<Node>): (r: seq<Node>)
    ensures |r| == |nodes|
    ensures forall i :: 0 <= i < |r| ==> r[i] == nodes[i].(connections := [])
  {
    seq(|nodes|, i requires 0 <= i < |nodes| => nodes[i].(connections := []))
  }

  ghost function Points(nodes: seq<Node>): (r: seq<Point>)
    ensures |r| == |nodes|
    ensures forall i :: 0 <= i < |r| ==> r[i] == Point(nodes[i].record.vector, nodes[i].norm)
  {
    seq(|nodes|, i requires 0 <= i < |nodes| => Point(nodes[i].record.vector, nodes[i].norm))
  }

  /** The similarity of every node to a query. */
  ghost function QueryScores(nodes: seq<Node>, query: Vector, queryNorm: real): (r: seq<real>)
    ensures |r| == |nodes|
    ensures forall i :: 0 <= i < |r| ==> r[i] == Cosine(query, queryNorm, nodes[i].record.vector, nodes[i].norm)
  {
    seq(|nodes|, i requires 0 <= i < |nodes| => Cosine(query, queryNorm, nodes[i].record.vector, nodes[i].norm))
  }

  /** The links of node i on a layer; none above its own level. */
  function LinksOf(nodes: seq<Node>, i: int, layer: int): seq<int>
    requires 0 <= i < |nodes| && 0 <= layer
  {
    if layer >= |nodes[i].connections| then [] else nodes[i].connections[layer]
  }

  ghost function LayerAdj(nodes: seq<Node>, layer: nat): (r: Adj)
    ensures |r| == |nodes|
    ensures forall i :: 0 <= i < |r| ==> r[i] == LinksOf(nodes, i, layer)
  {
    seq(|nodes|, i requires 0 <= i < |nodes| => LinksOf(nodes, i, layer))
  }

  ghost function Members(nodes: seq<Node>, layer: nat): (r: set<int>)
    ensures forall i :: i in r <==> 0 <= i < |nodes| && nodes[i].level >= layer
  {
    set i | 0 <= i < |nodes| && nodes[i].level >= layer
  }

  /** The largest number of links a node may have on a layer. */
  function Cap(m: int, layer: int): int { if layer == 0 then 2 * m else m }

  // ---------- Well-formed graphs ----------

  /** One list of links per level. */
  ghost predicate Shaped(nodes: seq<Node>) {
    forall i :: 0 <= i < |nodes| ==> |nodes[i].connections| == nodes[i].level + 1
  }

  /** Every vector has the index's dimension and a positive norm. */
  ghost predicate VectorsOk(nodes: seq<Node>, dimension: nat) {
    forall i :: 0 <= i < |nodes| ==> |nodes[i].record.vector| == dimension && nodes[i].norm > 0.0
  }

  ghost predicate TargetsInRange(adj: Adj) {
    forall i, t :: 0 <= i < |adj| && t in adj[i] ==> 0 <= t < |adj|
  }

  /** The members of a layer that are already linked there while node n is being inserted:
      n itself joins a layer below `from` only later. */
  ghost function Joined(nodes: seq<Node>, n: int, from: int, layer: nat): set<int> {
    if layer < from then Members(nodes, layer) - {n} else Members(nodes, layer)
  }

  /** The invariant of all layers while node n is linked into layer `from` and above only. */
  ghost predicate GraphInvDuring(nodes: seq<Node>, m: int, overflowed: set<int>, n: int, from: int) {
    && Shaped(nodes)
    && forall layer: nat ::
         LayerInv(LayerAdj(nodes, layer), Joined(nodes, n, from, layer), Cap(m, layer), layer in overflowed)
  }

  /** The invariant of all layers between operations. */
  ghost predicate GraphInv(nodes: seq<Node>, m: int, overflowed: set<int>) {
    && Shaped(nodes)
    && forall layer: nat ::
         LayerInv(LayerAdj(nodes, layer), Members(nodes, layer), Cap(m, layer), layer in overflowed)
  }

  /** The entry point is a node of the greatest level; there is none while there are no nodes. */
  ghost predicate EntryOk(nodes: seq<Node>, entryPoint: int, maxLevel: int) {
    if nodes == [] then entryPoint == -1 && maxLevel == -1
    else
      && 0 <= entryPoint < |nodes|
      && nodes[entryPoint].level == maxLevel
      && forall i :: 0 <= i < |nodes| ==> nodes[i].level <= maxLevel
  }

  lemma SkeletonDetermines(a: seq<Node>, b: seq<Node>)
    requires Skeleton(a) == Skeleton(b)
    ensures |a| == |b| && Points(a) == Points(b)
    ensures forall layer: nat :: Members(a, layer) == Members(b, layer)
    ensures forall q, qn :: QueryScores(a, q, qn) == QueryScores(b, q, qn)
    ensures forall dimension: nat :: VectorsOk(a, dimension) == VectorsOk(b, dimension)
  {
    assert |a| == |Skeleton(a)| == |b|;
    forall i | 0 <= i < |a|
      ensures a[i].(connections := []) == b[i].(connections := [])
    {
      assert Skeleton(a)[i] == Skeleton(b)[i];
    }
    assert forall i :: 0 <= i < |a| ==>
             a[i].record == b[i].record && a[i].norm == b[i].norm && a[i].level == b[i].level;
  }

  // ---------- Live records ----------

  /** The records of the nodes that are not tombstones, in insertion order. */
  ghost function LiveRecords(nodes: seq<Node>): seq<Record> {
    if nodes == [] then []
    else
      var n := |nodes| - 1;
      LiveRecords(nodes[..n]) + if nodes[n].deleted then [] else [nodes[n].record]
  }

  lemma {:induction false} LiveRecordsOfSkeleton(a: seq<Node>, b: seq<Node>)
    requires Skeleton(a) == Skeleton(b)
    ensures LiveRecords(a) == LiveRecords(b)
    decreases |a|
  {
    assert |Skeleton(a)| == |Skeleton(b)|;
    if a != [] {
      var n := |a| - 1;
      assert Skeleton(a)[n] == Skeleton(b)[n];
      forall i | 0 <= i < n
        ensures a[i].(connections := []) == b[i].(connections := [])
      {
        assert Skeleton(a)[i] == Skeleton(b)[i];
      }
      assert Skeleton(a[..n]) == Skeleton(b[..n]);
      LiveRecordsOfSkeleton(a[..n], b[..n]);
    }
  }

  lemma {:induction false} LiveIds(nodes: seq<Node>, id: string)
    ensures HasId(LiveRecords(nodes), id)
            <==> exists i :: 0 <= i < |nodes| && !nodes[i].deleted && nodes[i].record.id == id
    decreases |nodes|
  {
    if nodes != [] {
      var n := |nodes| - 1;
      var front := LiveRecords(nodes[..n]);
      LiveIds(nodes[..n], id);
      if HasId(front, id) {
        var i :| 0 <= i < |front| && front[i].id == id;
        assert LiveRecords(nodes)[i].id == id;
        var j :| 0 <= j < n && !nodes[..n][j].deleted && nodes[..n][j].record.id == id;
        assert !nodes[j].deleted && nodes[j].record.id == id;
      } else if !nodes[n].deleted && nodes[n].record.id == id {
        assert LiveRecords(nodes)[|front|].id == id;
      } else {
        forall i | 0 <= i < |nodes| && !nodes[i].deleted
          ensures nodes[i].record.id != id
        {
          if i < n {
            assert nodes[..n][i] == nodes[i];
          }
        }
      }
    }
  }

  /** Marking the only live node with an id as deleted removes its record and keeps the order. */
  lemma {:induction false} LiveAfterTombstone(nodes: seq<Node>, k: nat)
    requires k < |nodes| && !nodes[k].deleted
    requires forall i :: 0 <= i < |nodes| && !nodes[i].deleted && nodes[i].record.id == nodes[k].record.id ==> i == k
    ensures LiveRecords(nodes[k := nodes[k].(deleted := true)]) == RemoveFirst(LiveRecords(nodes), nodes[k].record.id)
    decreases |nodes|
  {
    var n := |nodes| - 1;
    var id := nodes[k].record.id;
    var front := LiveRecords(nodes[..n]);
    LiveIds(nodes[..n], id);
    var after := nodes[k := nodes[k].(deleted := true)];
    if k == n {
      assert after[..n] == nodes[..n];
      RemoveFirstConcat(front, [nodes[n].record], id);
      assert forall i :: 0 <= i < n ==> nodes[..n][i] == nodes[i];
    } else {
      assert after[..n] == nodes[..n][k := nodes[k].(deleted := true)];
      assert forall i :: 0 <= i < n ==> nodes[..n][i] == nodes[i];
      LiveAfterTombstone(nodes[..n], k);
      assert !nodes[..n][k].deleted && nodes[..n][k].record.id == id;
      RemoveFirstConcat(front, if nodes[n].deleted then [] else [nodes[n].record], id);
    }
  }

  // ---------- Replacing one list of links ----------

  function SetLinks(nodes: seq<Node>, i: int, layer: int, links: seq<int>): seq<Node>
    requires 0 <= i < |nodes| && 0 <= layer < |nodes[i].connections|
  {
    nodes[i := nodes[i].(connections := nodes[i].connections[layer := links])]
  }

  /** Replacing one list changes that list and nothing else. */
  lemma SetLinksEffect(nodes: seq<Node>, i: int, layer: int, links: seq<int>)
    requires Shaped(nodes)
    requires 0 <= i < |nodes| && 0 <= layer < |nodes[i].connections|
    ensures var after := SetLinks(nodes, i, layer, links);
            && Shaped(after)
            && Skeleton(after) == Skeleton(nodes)
            && LayerAdj(after, layer) == LayerAdj(nodes, layer)[i := links]
            && forall other: nat :: other != layer ==> LayerAdj(after, other) == LayerAdj(nodes, other)
  {
  }

  // ---------- Appending a node ----------

  /** A node that has not been linked anywhere. */
  ghost predicate Unlinked(node: Node) {
    |node.connections| == node.level + 1
    && forall i :: 0 <= i < |node.connections| ==> node.connections[i] == []
  }

  lemma AppendLayer(nodes: seq<Node>, node: Node, layer: nat)
    requires Unlinked(node)
    ensures LayerAdj(nodes + [node], layer) == LayerAdj(nodes, layer) + [[]]
    ensures Members(nodes + [node], layer) - {|nodes|} == Members(nodes, layer)
    ensures |nodes| in Members(nodes + [node], layer) <==> node.level >= layer
  {
  }

  lemma AppendKeepsLayer(nodes: seq<Node>, node: Node, m: int, overflowed: bool, from: int, layer: nat)
    requires Unlinked(node) && m >= 1
    requires LayerInv(LayerAdj(nodes, layer), Members(nodes, layer), Cap(m, layer), overflowed)
    requires layer >= from && node.level >= layer ==> Members(nodes, layer) == {} && !overflowed
    ensures LayerInv(LayerAdj(nodes + [node], layer), Joined(nodes + [node], |nodes|, from, layer), Cap(m, layer),
                     overflowed)
  {
    var wider, adj, members := nodes + [node], LayerAdj(nodes, layer), Members(nodes, layer);
    AppendLayer(nodes, node, layer);
    hide Unlinked;
    if layer < from || node.level < layer {
      hide LayerInv;
      ExtendLayer(adj, members, Cap(m, layer), overflowed);
      assert Joined(wider, |nodes|, from, layer) == members;
    } else {
      forall i | 0 <= i < |adj|
        ensures adj[i] == []
      {
        assert ListOk(adj[i], i, members, Cap(m, layer));
      }
      hide LayerInv;
      LoneLayer(LayerAdj(wider, layer), Joined(wider, |nodes|, from, layer), Cap(m, layer), |nodes|);
    }
  }

  /** A layer that has overflowed has members. */
  lemma OverflowedHasMembers(adj: Adj, members: set<int>, cap: int)
    requires LayerInv(adj, members, cap, true) && cap >= 0
    ensures members != {}
  {
  }

  lemma ShapedAppend(nodes: seq<Node>, node: Node)
    requires Shaped(nodes) && Unlinked(node)
    ensures Shaped(nodes + [node])
  {
  }

  /** A graph with a fresh node appended is well formed as long as the new node counts as a member
      only of layers that had none. */
  lemma AppendKeepsInv(nodes: seq<Node>, node: Node, m: int, overflowed: set<int>, from: int)
    requires GraphInv(nodes, m, overflowed) && Unlinked(node) && m >= 1
    requires forall layer: nat :: layer >= from && node.level >= layer ==> Members(nodes, layer) == {}
    ensures GraphInvDuring(nodes + [node], m, overflowed, |nodes|, from)
  {
    hide LayerInv;
    ShapedAppend(nodes, node);
    hide Shaped;
    hide Unlinked;
    forall layer: nat
      ensures LayerInv(LayerAdj(nodes + [node], layer), Joined(nodes + [node], |nodes|, from, layer), Cap(m, layer),
                       layer in overflowed)
    {
      if layer in overflowed {
        OverflowedHasMembers(LayerAdj(nodes, layer), Members(nodes, layer), Cap(m, layer));
      }
      AppendKeepsLayer(nodes, node, m, layer in overflowed, from, layer);
    }
  }

  /** Once the new node is linked into layer 0 the graph is well formed outright. */
  lemma DuringToDone(nodes: seq<Node>, m: int, overflowed: set<int>, n: int, from: int)
    requires GraphInvDuring(nodes, m, overflowed, n, from) && from <= 0
    ensures GraphInv(nodes, m, overflowed)
  {
    forall layer: nat
      ensures LayerInv(LayerAdj(nodes, layer), Members(nodes, layer), Cap(m, layer), layer in overflowed)
    {
      assert Joined(nodes, n, from, layer) == Members(nodes, layer);
    }
  }

  // ---------- Linking the new node into one layer ----------

  /** The exact list a chosen node ends up with when it must also link to node n. */
  ghost predicate GrowsTo(points: seq<Point>, node: int, full: seq<int>, links: seq<int>, cap: int) {
    if |full| <= cap then links == full else IsPruned(points, node, full, cap, links)
  }

  /** Node n has been linked both ways to the first k of the chosen nodes, and nothing else has
      changed on the layer. */
  ghost predicate LinkedExactly(points: seq<Point>, before: Adj, after: Adj, n: int, chosen: seq<int>, k: int, cap: int)
    requires 0 <= k <= |chosen|
  {
    && |after| == |before|
    && 0 <= n < |before|
    && after[n] == chosen
    && (forall i :: 0 <= i < |before| && i in chosen[..k] ==> GrowsTo(points, i, before[i] + [n], after[i], cap))
    && (forall i :: 0 <= i < |before| && i != n && i !in chosen[..k] ==> after[i] == before[i])
  }

  /** The next chosen node still has its old list, whose targets are in range. */
  lemma StillUntouched(points: seq<Point>, before: Adj, after: Adj, n: int, chosen: seq<int>, k: int, cap: int)
    requires 0 <= k < |chosen| && NoDup(chosen) && 0 <= chosen[k] < |before| && chosen[k] != n
    requires LinkedExactly(points, before, after, n, chosen, k, cap)
    requires TargetsInRange(before)
    ensures after[chosen[k]] == before[chosen[k]]
    ensures forall t :: t in after[chosen[k]] + [n] ==> 0 <= t < |before|
  {
    assert chosen[k] !in chosen[..k];
  }

  /** Linking back from one more chosen node. */
  lemma LinkStep(points: seq<Point>, before: Adj, after: Adj, n: int, chosen: seq<int>, k: int, cap: int,
                 links: seq<int>)
    requires 0 <= k < |chosen| && NoDup(chosen) && 0 <= chosen[k] < |before| && chosen[k] != n
    requires LinkedExactly(points, before, after, n, chosen, k, cap)
    requires GrowsTo(points, chosen[k], before[chosen[k]] + [n], links, cap)
    ensures LinkedExactly(points, before, after[chosen[k] := links], n, chosen, k + 1, cap)
  {
    assert chosen[..k + 1] == chosen[..k] + [chosen[k]];
    assert chosen[k] !in chosen[..k];
  }

  lemma ListTakesOneMore(links: seq<int>, i: int, n: int, members: set<int>, cap: int)
    requires ListOk(links, i, members, cap) && n !in members
    ensures NoDup(links + [n])
  {
  }

  lemma LinkedExactlyIsLinked(points: seq<Point>, before: Adj, after: Adj, n: int, members: set<int>, chosen: seq<int>,
                              cap: int)
    requires LayerOk(before, members, cap) && n !in members && cap >= 1
    requires LinkedExactly(points, before, after, n, chosen, |chosen|, cap)
    ensures Linked(before, after, n, chosen, |chosen|, cap)
  {
    forall i | 0 <= i < |before| && i in chosen[..|chosen|]
      ensures Regrown(before[i] + [n], after[i], cap)
    {
      ListTakesOneMore(before[i], i, n, members, cap);
      if |before[i] + [n]| > cap {
        PrunedFacts(points, i, before[i] + [n], cap, after[i]);
      }
    }
  }

  /** What an insertion does to one layer: a beam search from `ep`, the diverse selection from its
      answers, and links both ways with pruning where a list overflows. `next` is the best answer. */
  ghost predicate LayerLinked(points: seq<Point>, score: seq<real>, before: Adj, after: Adj, n: int,
                              ep: int, next: int, efConst: int, m: int, cap: int)
  {
    exists cands: seq<Candidate>, visited: set<int> ::
      && IsBeam(before, score, ep, efConst, cands, visited)
      && InRange(points, cands)
      && cands != [] && cands[0].id == next
      && LinkedExactly(points, before, after, n, Ids(Selected(points, cands, m)), |Ids(Selected(points, cands, m))|,
                       cap)
  }

  lemma ChosenIsRow(points: seq<Point>, before: Adj, after: Adj, n: int, chosen: seq<int>, cap: int)
    requires LinkedExactly(points, before, after, n, chosen, |chosen|, cap)
    ensures 0 <= n < |after| && after[n] == chosen
  {
  }

  lemma LayerIsLinked(points: seq<Point>, score: seq<real>, before: Adj, after: Adj, n: int, ep: int,
                      efConst: int, m: int, cap: int, cands: seq<Candidate>, visited: set<int>, chosen: seq<int>)
    requires IsBeam(before, score, ep, efConst, cands, visited)
    requires InRange(points, cands) && cands != []
    requires chosen == Ids(Selected(points, cands, m))
    requires LinkedExactly(points, before, after, n, chosen, |chosen|, cap)
    ensures LayerLinked(points, score, before, after, n, ep, cands[0].id, efConst, m, cap)
  {
  }

  /** Layers `top` down to `bottom` have been linked, each entered at the best answer of the one
      above it, the first at `ep`; the last one's best answer is `last`. */
  ghost predicate LinkedDown(score: seq<real>, before: seq<Node>, after: seq<Node>, n: int, top: int, bottom: nat,
                             ep: int, last: int, efConst: int, m: int)
    decreases top - bottom
  {
    if top < bottom then ep == last
    else exists prev ::
        && LinkedDown(score, before, after, n, top, bottom + 1, ep, prev, efConst, m)
        && LayerLinked(Points(before), score, LayerAdj(before, bottom), LayerAdj(after, bottom), n, prev, last, efConst,
                       m, Cap(m, bottom))
  }

  lemma {:induction false} LinkedDownFrame(score: seq<real>, before: seq<Node>, after: seq<Node>, after': seq<Node>,
                                           n: int, top: int, bottom: nat, ep: int, last: int, efConst: int, m: int)
    requires LinkedDown(score, before, after, n, top, bottom, ep, last, efConst, m)
    requires forall layer: nat :: layer >= bottom ==> LayerAdj(after', layer) == LayerAdj(after, layer)
    ensures LinkedDown(score, before, after', n, top, bottom, ep, last, efConst, m)
    decreases top - bottom
  {
    hide LayerLinked;
    if bottom <= top {
      var prev :|
        && LinkedDown(score, before, after, n, top, bottom + 1, ep, prev, efConst, m)
        && LayerLinked(Points(before), score, LayerAdj(before, bottom), LayerAdj(after, bottom), n, prev, last, efConst,
                       m, Cap(m, bottom));
      LinkedDownFrame(score, before, after, after', n, top, bottom + 1, ep, prev, efConst, m);
    }
  }

  /** The nodes at which the rounds of an insertion enter their layers, and the best answer of the last. */
  ghost predicate IsEntries(score: seq<real>, before: seq<Node>, after: seq<Node>, n: int, top: int, bottom: nat,
                            efConst: int, m: int, entries: seq<int>)
  {
    && |entries| == (if top < bottom then 1 else top - bottom + 2)
    && forall i :: 0 <= i < |entries| - 1 ==>
         LayerLinked(Points(before), score, LayerAdj(before, top - i), LayerAdj(after, top - i), n, entries[i],
                     entries[i + 1], efConst, m, Cap(m, top - i))
  }

  /** Linking down from `top` to `bottom` is one round on each of those layers, in that order. */
  lemma LinkedDownExactly(score: seq<real>, before: seq<Node>, after: seq<Node>, n: int, top: int, bottom: nat,
                          ep: int, last: int, efConst: int, m: int)
    ensures LinkedDown(score, before, after, n, top, bottom, ep, last, efConst, m) <==>
            exists entries :: IsEntries(score, before, after, n, top, bottom, efConst, m, entries)
                              && entries[0] == ep && entries[|entries| - 1] == last
  {
    hide LayerLinked;
    if LinkedDown(score, before, after, n, top, bottom, ep, last, efConst, m) {
      var entries := EntriesOf(score, before, after, n, top, bottom, ep, last, efConst, m);
    }
    if entries :| IsEntries(score, before, after, n, top, bottom, efConst, m, entries)
                  && entries[0] == ep && entries[|entries| - 1] == last {
      FromEntries(score, before, after, n, top, bottom, efConst, m, entries);
    }
  }

  lemma {:induction false} EntriesOf(score: seq<real>, before: seq<Node>, after: seq<Node>, n: int, top: int,
                                     bottom: nat, ep: int, last: int, efConst: int, m: int)
    returns (entries: seq<int>)
    requires LinkedDown(score, before, after, n, top, bottom, ep, last, efConst, m)
    ensures IsEntries(score, before, after, n, top, bottom, efConst, m, entries)
    ensures entries[0] == ep && entries[|entries| - 1] == last
    decreases top - bottom
  {
    hide LayerLinked;
    if top < bottom {
      return [ep];
    }
    var prev :|
      && LinkedDown(score, before, after, n, top, bottom + 1, ep, prev, efConst, m)
      && LayerLinked(Points(before), score, LayerAdj(before, bottom), LayerAdj(after, bottom), n, prev, last, efConst,
                     m, Cap(m, bottom));
    var front := EntriesOf(score, before, after, n, top, bottom + 1, ep, prev, efConst, m);
    return front + [last];
  }

  lemma {:induction false} FromEntries(score: seq<real>, before: seq<Node>, after: seq<Node>, n: int, top: int,
                                       bottom: nat, efConst: int, m: int, entries: seq<int>)
    requires IsEntries(score, before, after, n, top, bottom, efConst, m, entries)
    ensures LinkedDown(score, before, after, n, top, bottom, entries[0], entries[|entries| - 1], efConst, m)
    decreases top - bottom
  {
    hide LayerLinked;
    if top >= bottom {
      var n', front := |entries| - 1, entries[..|entries| - 1];
      assert IsEntries(score, before, after, n, top, bottom + 1, efConst, m, front);
      FromEntries(score, before, after, n, top, bottom + 1, efConst, m, front);
      assert LayerLinked(Points(before), score, LayerAdj(before, top - (n' - 1)), LayerAdj(after, top - (n' - 1)), n,
                         entries[n' - 1], entries[n'], efConst, m, Cap(m, top - (n' - 1)));
    }
  }

  /** One round of an insertion in terms of the links: the list of node n is a diverse choice, best first, among the
      answers of a beam search; every node on it gets n as its last link, and is pruned to a diverse choice among
      its own links if it then has more than the cap; all other lists stay. */
  ghost predicate IsRound(points: seq<Point>, score: seq<real>, before: Adj, after: Adj, n: int, ep: int, next: int,
                          efConst: int, m: int, cap: int)
  {
    && |after| == |before|
    && 0 <= n < |before|
    && (exists cands: seq<Candidate>, visited: set<int>, chosen: seq<Candidate> ::
          && IsBeam(before, score, ep, efConst, cands, visited)
          && InRange(points, cands) && cands != [] && cands[0].id == next
          && IsDiverseChoice(points, cands, m, chosen)
          && |after[n]| == |chosen| && forall i :: 0 <= i < |chosen| ==> after[n][i] == chosen[i].id)
    && (forall i :: 0 <= i < |before| && i in after[n] ==>
          if |before[i]| < cap then after[i] == before[i] + [n]
          else IsPrunedDiversely(points, i, before[i] + [n], cap, after[i]))
    && (forall i :: 0 <= i < |before| && i != n && i !in after[n] ==> after[i] == before[i])
  }

  lemma LayerLinkedExactly(points: seq<Point>, score: seq<real>, before: Adj, after: Adj, n: int, ep: int, next: int,
                           efConst: int, m: int, cap: int)
    requires m >= 0 && cap >= 0
    ensures LayerLinked(points, score, before, after, n, ep, next, efConst, m, cap)
            <==> IsRound(points, score, before, after, n, ep, next, efConst, m, cap)
  {
    hide IsBeam;
    hide IsDiverseChoice;
    hide Selected;
    hide IsPruned;
    hide IsPrunedDiversely;
    hide InRange;
    if 0 <= n < |after| && |before| == |after| {
      forall i | 0 <= i < |before|
        ensures IsPruned(points, i, before[i] + [n], cap, after[i])
                <==> IsPrunedDiversely(points, i, before[i] + [n], cap, after[i])
      {
        PrunedExactly(points, i, before[i] + [n], cap, after[i]);
      }
    }
    if LayerLinked(points, score, before, after, n, ep, next, efConst, m, cap) {
      var cands: seq<Candidate>, visited: set<int> :|
        && IsBeam(before, score, ep, efConst, cands, visited)
        && InRange(points, cands) && cands != [] && cands[0].id == next
        && LinkedExactly(points, before, after, n, Ids(Selected(points, cands, m)), |Ids(Selected(points, cands, m))|,
                         cap);
      SelectedExactly(points, cands, m, Selected(points, cands, m));
      assert Ids(Selected(points, cands, m))[..|after[n]|] == after[n];
    }
    if IsRound(points, score, before, after, n, ep, next, efConst, m, cap) {
      var cands: seq<Candidate>, visited: set<int>, chosen: seq<Candidate> :|
        && IsBeam(before, score, ep, efConst, cands, visited)
        && InRange(points, cands) && cands != [] && cands[0].id == next
        && IsDiverseChoice(points, cands, m, chosen)
        && |after[n]| == |chosen| && forall i :: 0 <= i < |chosen| ==> after[n][i] == chosen[i].id;
      SelectedExactly(points, cands, m, chosen);
      assert after[n] == Ids(chosen) && Ids(chosen)[..|chosen|] == after[n];
      LayerIsLinked(points, score, before, after, n, ep, efConst, m, cap, cands, visited, after[n]);
    }
  }

  // ---------- Hill climbing through the layers ----------

  /** Every link of x leads into the layer. */
  ghost predicate LinksInRange(adj: Adj, score: seq<real>, x: int) {
    |score| == |adj| && 0 <= x < |adj| && forall j :: 0 <= j < |adj[x]| ==> 0 <= adj[x][j] < |adj|
  }

  /** The link at position i is the best of x's first n links, the earliest of them, and better than x. */
  ghost predicate LeadsAmong(adj: Adj, score: seq<real>, x: int, i: int, n: int)
    requires LinksInRange(adj, score, x) && 0 <= n <= |adj[x]|
  {
    && 0 <= i < n
    && score[adj[x][i]] > score[x]
    && (forall j :: 0 <= j < i ==> score[adj[x][j]] < score[adj[x][i]])
    && (forall j :: i <= j < n ==> score[adj[x][j]] <= score[adj[x][i]])
  }

  /** y is where a climb moves from x: its best link, the earliest of equals, and better than x. */
  ghost predicate Ascends(adj: Adj, score: seq<real>, x: int, y: int) {
    LinksInRange(adj, score, x)
    && exists i :: 0 <= i < |adj[x]| && adj[x][i] == y && LeadsAmong(adj, score, x, i, |adj[x]|)
  }

  /** x has no better link. */
  ghost predicate IsPeak(adj: Adj, score: seq<real>, x: int) {
    LinksInRange(adj, score, x) && forall j :: 0 <= j < |adj[x]| ==> score[adj[x][j]] <= score[x]
  }

  ghost predicate IsTrail(adj: Adj, score: seq<real>, trail: seq<int>) {
    |trail| > 0 && forall i :: 0 <= i < |trail| - 1 ==> Ascends(adj, score, trail[i], trail[i + 1])
  }

  /** From a along best links of a layer to b, which has no better link. */
  ghost predicate Climbs(adj: Adj, score: seq<real>, a: int, b: int) {
    && IsPeak(adj, score, b)
    && exists trail :: IsTrail(adj, score, trail) && trail[0] == a && trail[|trail| - 1] == b
  }

  /** The move of a climb in terms of the links themselves. */
  lemma AscendsExactly(adj: Adj, score: seq<real>, x: int, y: int)
    requires LinksInRange(adj, score, x)
    ensures forall t :: t in adj[x] ==> 0 <= t < |score|
    ensures Ascends(adj, score, x, y) <==>
              && y in adj[x] && score[y] > score[x]
              && (forall t :: t in adj[x] ==> score[t] <= score[y])
              && (exists i :: 0 <= i < |adj[x]| && adj[x][i] == y
                              && forall t :: t in adj[x][..i] && 0 <= t < |score| ==> score[t] < score[y])
  {
    if y in adj[x] && score[y] > score[x] && forall t :: t in adj[x] ==> score[t] <= score[y] {
      if i :| 0 <= i < |adj[x]| && adj[x][i] == y
              && forall t :: t in adj[x][..i] && 0 <= t < |score| ==> score[t] < score[y] {
        forall j | 0 <= j < i
          ensures score[adj[x][j]] < score[y]
        {
          assert adj[x][j] in adj[x][..i];
        }
        assert LeadsAmong(adj, score, x, i, |adj[x]|);
      }
    }
  }

  lemma AscentUnique(adj: Adj, score: seq<real>, x: int, y: int, z: int)
    requires Ascends(adj, score, x, y)
    ensures Ascends(adj, score, x, z) ==> z == y
    ensures !IsPeak(adj, score, x) && score[y] > score[x] && Edge(adj, x, y)
  {
  }

  lemma {:induction false} TrailUnique(adj: Adj, score: seq<real>, s: seq<int>, t: seq<int>)
    requires IsTrail(adj, score, s) && IsTrail(adj, score, t) && s[0] == t[0]
    requires IsPeak(adj, score, s[|s| - 1]) && IsPeak(adj, score, t[|t| - 1])
    ensures s == t
  {
    if |s| > 1 && |t| > 1 {
      AscentUnique(adj, score, s[0], s[1], t[1]);
      TrailUnique(adj, score, s[1..], t[1..]);
      assert s == [s[0]] + s[1..] && t == [t[0]] + t[1..];
    } else if |s| > 1 {
      AscentUnique(adj, score, s[0], s[1], s[1]);
    } else if |t| > 1 {
      AscentUnique(adj, score, t[0], t[1], t[1]);
    }
  }

  /** A climb has one end. */
  lemma ClimbUnique(adj: Adj, score: seq<real>, a: int, b: int, c: int)
    requires Climbs(adj, score, a, b) && Climbs(adj, score, a, c)
    ensures b == c
  {
    var s :| IsTrail(adj, score, s) && s[0] == a && s[|s| - 1] == b;
    var t :| IsTrail(adj, score, t) && t[0] == a && t[|t| - 1] == c;
    TrailUnique(adj, score, s, t);
  }

  lemma {:induction false} TrailClimbs(adj: Adj, score: seq<real>, trail: seq<int>)
    requires IsTrail(adj, score, trail) && IsPeak(adj, score, trail[|trail| - 1])
    ensures 0 <= trail[0] < |adj| && Reachable(adj, trail[0], trail[|trail| - 1])
    ensures score[trail[|trail| - 1]] >= score[trail[0]]
  {
    if |trail| == 1 {
      ReachSelf(adj, trail[0]);
    } else {
      AscentUnique(adj, score, trail[0], trail[1], trail[1]);
      TrailClimbs(adj, score, trail[1..]);
      ReachSelf(adj, trail[0]);
      ReachStep(adj, trail[0], trail[0], trail[1]);
      ReachTrans(adj, trail[0], trail[1], trail[|trail| - 1]);
    }
  }

  /** A climb leads along links to a node no worse than its start and than any of its own links. */
  lemma ClimbFacts(adj: Adj, score: seq<real>, a: int, b: int)
    requires Climbs(adj, score, a, b)
    ensures |score| == |adj| && 0 <= a < |adj| && 0 <= b < |adj|
    ensures Reachable(adj, a, b) && score[b] >= score[a]
    ensures forall t :: t in adj[b] ==> 0 <= t < |adj| && score[t] <= score[b]
  {
    var trail :| IsTrail(adj, score, trail) && trail[0] == a && trail[|trail| - 1] == b;
    TrailClimbs(adj, score, trail);
    assert forall j :: 0 <= j < |adj[b]| ==> score[adj[b][j]] <= score[b];
  }

  lemma TrailStarts(adj: Adj, score: seq<real>, a: int)
    ensures IsTrail(adj, score, [a])
  {
  }

  lemma TrailSteps(adj: Adj, score: seq<real>, trail: seq<int>)
    requires IsTrail(adj, score, trail)
    ensures forall i :: 0 <= i < |trail| - 1 ==> Ascends(adj, score, trail[i], trail[i + 1])
  {
  }

  lemma TrailEnds(adj: Adj, score: seq<real>, trail: seq<int>, b: int)
    requires IsTrail(adj, score, trail) && b == trail[|trail| - 1] && LinksInRange(adj, score, b)
    requires forall j :: 0 <= j < |adj[b]| ==> score[adj[b][j]] <= score[b]
    ensures Climbs(adj, score, trail[0], b)
    ensures forall t :: t in adj[b] ==> 0 <= t < |adj| && score[t] <= score[b]
  {
  }

  lemma TrailGrows(adj: Adj, score: seq<real>, trail: seq<int>, i: int)
    requires IsTrail(adj, score, trail) && LinksInRange(adj, score, trail[|trail| - 1])
    requires 0 <= i < |adj[trail[|trail| - 1]]|
    requires LeadsAmong(adj, score, trail[|trail| - 1], i, |adj[trail[|trail| - 1]]|)
    ensures IsTrail(adj, score, trail + [adj[trail[|trail| - 1]][i]])
  {
  }

  /** One climb on every layer from `top` down to `low`. */
  ghost predicate Descends(nodes: seq<Node>, score: seq<real>, top: int, low: nat, a: int, b: int)
    decreases top - low
  {
    if top < low then a == b
    else exists mid :: Descends(nodes, score, top, low + 1, a, mid) && Climbs(LayerAdj(nodes, low), score, mid, b)
  }

  lemma DescentShort(nodes: seq<Node>, score: seq<real>, top: int, low: nat, low': nat, a: int, b: int)
    requires Descends(nodes, score, top, low, a, b)
    requires low == low' || (top < low && top < low')
    ensures Descends(nodes, score, top, low', a, b)
  {
  }

  lemma ClimbStaysInLayer(adj: Adj, members: set<int>, cap: int, score: seq<real>, a: int, b: int)
    requires LayerOk(adj, members, cap) && a in members && Climbs(adj, score, a, b)
    ensures b in members
  {
    ClimbFacts(adj, score, a, b);
    ReachMember(adj, members, cap, a, b);
  }

  lemma {:induction false} DescentClimbs(nodes: seq<Node>, score: seq<real>, top: int, low: nat, a: int, b: int)
    requires Descends(nodes, score, top, low, a, b) && 0 <= a < |score|
    ensures 0 <= b < |score| && score[b] >= score[a]
    decreases top - low
  {
    if top >= low {
      var mid :| Descends(nodes, score, top, low + 1, a, mid) && Climbs(LayerAdj(nodes, low), score, mid, b);
      DescentClimbs(nodes, score, top, low + 1, a, mid);
      ClimbFacts(LayerAdj(nodes, low), score, mid, b);
    }
  }

  /** A descent ends at a node none of whose links on the last layer is better. */
  lemma DescentPeak(nodes: seq<Node>, score: seq<real>, top: int, low: nat, a: int, b: int)
    requires Descends(nodes, score, top, low, a, b) && top >= low
    ensures |score| == |nodes| && 0 <= b < |nodes|
    ensures forall t :: t in LayerAdj(nodes, low)[b] ==> 0 <= t < |nodes| && score[t] <= score[b]
  {
    hide Climbs;
    var mid :| Descends(nodes, score, top, low + 1, a, mid) && Climbs(LayerAdj(nodes, low), score, mid, b);
    ClimbFacts(LayerAdj(nodes, low), score, mid, b);
  }

  /** The nodes at which a descent stops: the one it starts from and then, layer by layer, the end of a climb. */
  ghost predicate IsDescent(nodes: seq<Node>, score: seq<real>, top: int, low: nat, stops: seq<int>) {
    && |stops| == (if top < low then 1 else top - low + 2)
    && forall i :: 0 <= i < |stops| - 1 ==> Climbs(LayerAdj(nodes, top - i), score, stops[i], stops[i + 1])
  }

  /** A descent has one end. */
  lemma {:induction false} DescentUnique(nodes: seq<Node>, score: seq<real>, top: int, low: nat, a: int, b: int, c: int)
    requires Descends(nodes, score, top, low, a, b) && Descends(nodes, score, top, low, a, c)
    ensures b == c
    decreases top - low
  {
    hide Climbs;
    if top >= low {
      var p :| Descends(nodes, score, top, low + 1, a, p) && Climbs(LayerAdj(nodes, low), score, p, b);
      var q :| Descends(nodes, score, top, low + 1, a, q) && Climbs(LayerAdj(nodes, low), score, q, c);
      DescentUnique(nodes, score, top, low + 1, a, p, q);
      ClimbUnique(LayerAdj(nodes, low), score, p, b, c);
    }
  }

  /** A descent from `top` to `low` is one climb on each of those layers, in that order. */
  lemma {:induction false} DescentExactly(nodes: seq<Node>, score: seq<real>, top: int, low: nat, a: int, b: int)
    ensures Descends(nodes, score, top, low, a, b) <==>
            exists stops: seq<int> ::
              && |stops| == (if top < low then 1 else top - low + 2)
              && stops[0] == a && stops[|stops| - 1] == b
              && forall i :: 0 <= i < |stops| - 1 ==> Climbs(LayerAdj(nodes, top - i), score, stops[i], stops[i + 1])
    decreases top - low
  {
    hide Climbs;
    if Descends(nodes, score, top, low, a, b) {
      var stops := StopsOf(nodes, score, top, low, a, b);
      assert IsDescent(nodes, score, top, low, stops);
    }
    if stops: seq<int> :| IsDescent(nodes, score, top, low, stops) && stops[0] == a && stops[|stops| - 1] == b {
      FromStops(nodes, score, top, low, stops);
    }
  }

  lemma {:induction false} StopsOf(nodes: seq<Node>, score: seq<real>, top: int, low: nat, a: int, b: int)
    returns (stops: seq<int>)
    requires Descends(nodes, score, top, low, a, b)
    ensures IsDescent(nodes, score, top, low, stops) && stops[0] == a && stops[|stops| - 1] == b
    decreases top - low
  {
    hide Climbs;
    if top < low {
      return [a];
    }
    var mid :| Descends(nodes, score, top, low + 1, a, mid) && Climbs(LayerAdj(nodes, low), score, mid, b);
    var front := StopsOf(nodes, score, top, low + 1, a, mid);
    return front + [b];
  }

  lemma {:induction false} FromStops(nodes: seq<Node>, score: seq<real>, top: int, low: nat, stops: seq<int>)
    requires IsDescent(nodes, score, top, low, stops)
    ensures Descends(nodes, score, top, low, stops[0], stops[|stops| - 1])
    decreases top - low
  {
    hide Climbs;
    if top >= low {
      var n := |stops| - 1;
      var front := stops[..n];
      assert IsDescent(nodes, score, top, low + 1, front);
      FromStops(nodes, score, top, low + 1, front);
      assert Climbs(LayerAdj(nodes, top - (n - 1)), score, stops[n - 1], stops[n]);
    }
  }

  /** The whole effect of inserting the last node of `after` into the graph `before`: a descent to the
      node's level, then one linking round per layer; layers above stay as they were. */
  ghost predicate Placed(before: seq<Node>, after: seq<Node>, entryPoint: int, maxLevel: int, efConst: int, m: int)
    requires |after| == |before| + 1
  {
    var n := |before|;
    var level := after[n].level;
    var top := if level > maxLevel then maxLevel else level;
    var start := before + [Fresh(after[n])];
    var score := QueryScores(start, after[n].record.vector, after[n].norm);
    && (exists ep, last :: Descends(start, score, maxLevel, level + 1, entryPoint, ep)
                        && LinkedDown(score, start, after, n, top, 0, ep, last, efConst, m))
    && (forall layer: nat :: layer > top ==> LayerAdj(after, layer) == LayerAdj(start, layer))
  }

  /** One round on each layer from `top` down to 0, each entered where the one before it left off. */
  ghost predicate AreRounds(score: seq<real>, before: seq<Node>, after: seq<Node>, n: int, top: int, efConst: int,
                            m: int, entries: seq<int>)
  {
    && |entries| == (if top < 0 then 1 else top + 2)
    && forall i :: 0 <= i < |entries| - 1 ==>
         IsRound(Points(before), score, LayerAdj(before, top - i), LayerAdj(after, top - i), n, entries[i],
                 entries[i + 1], efConst, m, if i == top then 2 * m else m)
  }

  lemma EntriesAreRounds(score: seq<real>, before: seq<Node>, after: seq<Node>, n: int, top: int, efConst: int, m: int,
                         entries: seq<int>)
    requires m >= 0
    ensures IsEntries(score, before, after, n, top, 0, efConst, m, entries)
            <==> AreRounds(score, before, after, n, top, efConst, m, entries)
  {
    hide LayerLinked;
    hide IsRound;
    if |entries| == (if top < 0 then 1 else top + 2) {
      forall i | 0 <= i < |entries| - 1
        ensures LayerLinked(Points(before), score, LayerAdj(before, top - i), LayerAdj(after, top - i), n, entries[i],
                            entries[i + 1], efConst, m, Cap(m, top - i))
           <==> IsRound(Points(before), score, LayerAdj(before, top - i), LayerAdj(after, top - i), n, entries[i],
                        entries[i + 1], efConst, m, if i == top then 2 * m else m)
      {
        LayerLinkedExactly(Points(before), score, LayerAdj(before, top - i), LayerAdj(after, top - i), n, entries[i],
                           entries[i + 1], efConst, m, Cap(m, top - i));
      }
    }
  }

  lemma PlacedBy(before: seq<Node>, after: seq<Node>, entryPoint: int, maxLevel: int, efConst: int, m: int, ep: int,
                 last: int)
    requires |after| == |before| + 1
    requires var n, level := |before|, after[|before|].level;
             var top := if level > maxLevel then maxLevel else level;
             var start := before + [Fresh(after[n])];
             var score := QueryScores(start, after[n].record.vector, after[n].norm);
             && Descends(start, score, maxLevel, level + 1, entryPoint, ep)
             && LinkedDown(score, start, after, n, top, 0, ep, last, efConst, m)
             && (forall layer: nat :: layer > top ==> LayerAdj(after, layer) == LayerAdj(start, layer))
    ensures Placed(before, after, entryPoint, maxLevel, efConst, m)
  {
  }

  /** An insertion in terms of its climbs and rounds: from the entry point one climb on each layer above the node's
      level, then one round on each layer from there down to 0. */
  lemma PlacedExactly(before: seq<Node>, after: seq<Node>, entryPoint: int, maxLevel: int, efConst: int, m: int)
    requires |after| == |before| + 1 && m >= 0
    ensures var n, level := |before|, after[|before|].level;
            var top := if level > maxLevel then maxLevel else level;
            var start := before + [Fresh(after[n])];
            var score := QueryScores(start, after[n].record.vector, after[n].norm);
            Placed(before, after, entryPoint, maxLevel, efConst, m) <==>
              && (exists stops: seq<int>, entries: seq<int> ::
                    && IsDescent(start, score, maxLevel, level + 1, stops)
                    && AreRounds(score, start, after, n, top, efConst, m, entries)
                    && stops[0] == entryPoint && entries[0] == stops[|stops| - 1])
              && (forall layer: nat :: layer > top ==> LayerAdj(after, layer) == LayerAdj(start, layer))
  {
    hide Climbs;
    hide IsRound;
    hide LayerLinked;
    var n, level := |before|, after[|before|].level;
    var top := if level > maxLevel then maxLevel else level;
    var start := before + [Fresh(after[n])];
    var score := QueryScores(start, after[n].record.vector, after[n].norm);
    if Placed(before, after, entryPoint, maxLevel, efConst, m) {
      var ep, last :| Descends(start, score, maxLevel, level + 1, entryPoint, ep)
                      && LinkedDown(score, start, after, n, top, 0, ep, last, efConst, m);
      var stops := StopsOf(start, score, maxLevel, level + 1, entryPoint, ep);
      var entries := EntriesOf(score, start, after, n, top, 0, ep, last, efConst, m);
      EntriesAreRounds(score, start, after, n, top, efConst, m, entries);
    }
    if stops: seq<int>, entries: seq<int> :|
      && IsDescent(start, score, maxLevel, level + 1, stops)
      && AreRounds(score, start, after, n, top, efConst, m, entries)
      && stops[0] == entryPoint && entries[0] == stops[|stops| - 1] {
      FromStops(start, score, maxLevel, level + 1, stops);
      EntriesAreRounds(score, start, after, n, top, efConst, m, entries);
      FromEntries(score, start, after, n, top, 0, efConst, m, entries);
      if forall layer: nat :: layer > top ==> LayerAdj(after, layer) == LayerAdj(start, layer) {
        PlacedBy(before, after, entryPoint, maxLevel, efConst, m, entries[0], entries[|entries| - 1]);
      }
    }
  }

  /** The node before it is linked anywhere. */
  function Fresh(node: Node): (r: Node)
    ensures Unlinked(r) && r.(connections := []) == node.(connections := [])
  {
    node.(connections := seq(node.level + 1, _ => []))
  }

  /** What a beam search from a member of a layer hands to the selection: distinct members, never
      node n, which nothing on the layer links to yet. */
  lemma BeamStaysInLayer(adj: Adj, members: set<int>, cap: int, score: seq<real>, ep: int, ef: int,
                         cands: seq<Candidate>, visited: set<int>, points: seq<Point>, m: int)
    requires LayerOk(adj, members, cap) && ep in members && ef >= 1 && m >= 1
    requires IsBeam(adj, score, ep, ef, cands, visited) && |points| == |adj|
    ensures InRange(points, cands) && cands != [] && cands[0].similarity >= score[ep]
    ensures forall c :: c in cands ==> c.id in members
    ensures var chosen := Ids(Selected(points, cands, m));
            1 <= |chosen| <= m && NoDup(chosen) && forall s :: s in chosen ==> s in members
  {
    BeamLeadsAhead(adj, score, ep, ef, cands, visited);
    forall c | c in cands
      ensures c.id in members
    {
      ReachMember(adj, members, cap, ep, c.id);
    }
    SelectedFacts(points, cands, m);
    var chosen := Selected(points, cands, m);
    forall s | s in Ids(chosen)
      ensures s in members
    {
      var i :| 0 <= i < |chosen| && Ids(chosen)[i] == s;
      assert chosen[i] in chosen;
    }
  }

  lemma LayerTargets(adj: Adj, members: set<int>, cap: int)
    requires LayerOk(adj, members, cap)
    ensures TargetsInRange(adj)
  {
    forall i, t | 0 <= i < |adj| && t in adj[i]
      ensures 0 <= t < |adj|
    {
      assert ListOk(adj[i], i, members, cap);
    }
  }

  /** Linking node n into one more layer keeps the invariant of all layers. */
  lemma LinkingKeepsInv(before: seq<Node>, after: seq<Node>, m: int, overflowed: set<int>, n: int, layer: nat,
                        chosen: seq<int>)
    requires GraphInvDuring(before, m, overflowed, n, layer + 1) && m >= 1
    requires 0 <= n < |before| && layer <= before[n].level
    requires Shaped(after) && Skeleton(after) == Skeleton(before)
    requires NoDup(chosen) && 1 <= |chosen| <= m
    requires forall s :: s in chosen ==> s in Members(before, layer) - {n}
    requires LinkedExactly(Points(before), LayerAdj(before, layer), LayerAdj(after, layer), n, chosen, |chosen|,
                           Cap(m, layer))
    requires forall other: nat :: other != layer ==> LayerAdj(after, other) == LayerAdj(before, other)
    ensures var more := if Overflows(LayerAdj(before, layer), chosen, Cap(m, layer)) then overflowed + {layer}
              else overflowed;
            GraphInvDuring(after, m, more, n, layer)
  {
    var more := if Overflows(LayerAdj(before, layer), chosen, Cap(m, layer)) then overflowed + {layer} else overflowed;
    SkeletonDetermines(before, after);
    forall l: nat
      ensures LayerInv(LayerAdj(after, l), Joined(after, n, layer, l), Cap(m, l), l in more)
    {
      if l == layer {
        LinkingKeepsLayer(before, after, m, overflowed, n, layer, chosen);
      } else {
        assert LayerInv(LayerAdj(before, l), Joined(before, n, layer + 1, l), Cap(m, l), l in overflowed);
        assert Joined(after, n, layer, l) == Joined(before, n, layer + 1, l);
      }
    }
  }

  lemma LinkingKeepsLayer(before: seq<Node>, after: seq<Node>, m: int, overflowed: set<int>, n: int, layer: nat,
                          chosen: seq<int>)
    requires GraphInvDuring(before, m, overflowed, n, layer + 1) && m >= 1
    requires 0 <= n < |before| && layer <= before[n].level
    requires Members(before, layer) == Members(after, layer)
    requires NoDup(chosen) && 1 <= |chosen| <= m
    requires forall s :: s in chosen ==> s in Members(before, layer) - {n}
    requires LinkedExactly(Points(before), LayerAdj(before, layer), LayerAdj(after, layer), n, chosen, |chosen|,
                           Cap(m, layer))
    ensures LayerInv(LayerAdj(after, layer), Members(after, layer), Cap(m, layer),
                     layer in overflowed || Overflows(LayerAdj(before, layer), chosen, Cap(m, layer)))
  {
    hide LayerInv;
    hide LinkedExactly;
    var adj, cap, members := LayerAdj(before, layer), Cap(m, layer), Members(before, layer) - {n};
    assert LayerInv(adj, Joined(before, n, layer + 1, layer), cap, layer in overflowed);
    InvGivesLayer(before, m, overflowed, n, layer);
    LinkedExactlyIsLinked(Points(before), adj, LayerAdj(after, layer), n, members, chosen, cap);
    LinkedKeepsInv(adj, LayerAdj(after, layer), n, members, chosen, cap, layer in overflowed);
    assert members + {n} == Members(after, layer);
  }

  lemma InvGivesLayer(nodes: seq<Node>, m: int, overflowed: set<int>, n: int, layer: nat)
    requires GraphInvDuring(nodes, m, overflowed, n, layer + 1)
    ensures LayerOk(LayerAdj(nodes, layer), Members(nodes, layer) - {n}, Cap(m, layer))
  {
    assert LayerInv(LayerAdj(nodes, layer), Joined(nodes, n, layer + 1, layer), Cap(m, layer), layer in overflowed);
  }

  /** Above the new node's level, and on the layers it is not linked into yet, a search among the
      members does not meet it. */
  lemma HiddenAbove(nodes: seq<Node>, m: int, overflowed: set<int>, n: int, from: int, level: nat)
    requires GraphInvDuring(nodes, m, overflowed, n, from)
    requires 0 <= n < |nodes| && nodes[n].level == level
    ensures forall layer: nat :: layer >= level + 1 ==>
              LayerOk(LayerAdj(nodes, layer), Members(nodes, layer) - {n}, Cap(m, layer))
  {
    forall layer: nat | layer >= level + 1
      ensures LayerOk(LayerAdj(nodes, layer), Members(nodes, layer) - {n}, Cap(m, layer))
    {
      assert LayerInv(LayerAdj(nodes, layer), Joined(nodes, n, from, layer), Cap(m, layer), layer in overflowed);
      assert Joined(nodes, n, from, layer) == Members(nodes, layer) - {n};
    }
  }

  /** The state after a node has been appended to a non-empty graph and before it is linked. */
  lemma ReadyToLink(nodes: seq<Node>, n: int, m: int, overflowed: set<int>, entryPoint: int, maxLevel: int)
    requires m >= 1 && 0 < n == |nodes| - 1 && Unlinked(nodes[n])
    requires GraphInv(nodes[..n], m, overflowed) && EntryOk(nodes[..n], entryPoint, maxLevel)
    ensures var top := if nodes[n].level > maxLevel then maxLevel else nodes[n].level;
            && maxLevel >= top >= 0
            && GraphInvDuring(nodes, m, overflowed, n, top + 1)
    ensures entryPoint in Members(nodes, maxLevel) - {n}
    ensures forall layer: nat :: layer >= nodes[n].level + 1 ==>
              LayerOk(LayerAdj(nodes, layer), Members(nodes, layer) - {n}, Cap(m, layer))
  {
    var top := if nodes[n].level > maxLevel then maxLevel else nodes[n].level;
    var before := nodes[..n];
    assert nodes == before + [nodes[n]];
    AppendKeepsInv(before, nodes[n], m, overflowed, top + 1);
    HiddenAbove(nodes, m, overflowed, n, top + 1, nodes[n].level);
    assert nodes[entryPoint] == before[entryPoint];
  }

  /** A chain of linking rounds from a descent amounts to the placement of the new node. */
  lemma MakePlaced(start: seq<Node>, after: seq<Node>, n: int, entryPoint: int, maxLevel: int, efConst: int, m: int,
                   score: seq<real>, top: int, ep: int, last: int)
    requires |start| == n + 1 && n >= 0 && Unlinked(start[n]) && Skeleton(after) == Skeleton(start)
    requires score == QueryScores(start, start[n].record.vector, start[n].norm)
    requires top == (if start[n].level > maxLevel then maxLevel else start[n].level)
    requires Descends(start, score, maxLevel, start[n].level + 1, entryPoint, ep)
    requires LinkedDown(score, start, after, n, top, 0, ep, last, efConst, m)
    requires forall layer: nat :: layer > top ==> LayerAdj(after, layer) == LayerAdj(start, layer)
    ensures |after| == n + 1 && Placed(start[..n], after, entryPoint, maxLevel, efConst, m)
  {
    assert |Skeleton(after)| == |Skeleton(start)|;
    assert Skeleton(after)[n] == Skeleton(start)[n];
    assert Fresh(after[n]).connections == start[n].connections;
    assert Fresh(after[n]) == start[n];
    assert start[..n] + [start[n]] == start;
    assert after[n].record == start[n].record && after[n].norm == start[n].norm;
  }

  /** The history of overflows grows by exactly the layers on which linking node n overflowed a list. */
  ghost predicate OverflowsNoted(before: seq<Node>, after: seq<Node>, n: int, m: int, noted: set<int>,
                                 noted': set<int>) {
    forall layer: nat :: layer in noted' <==>
      layer in noted
        || (0 <= n < |after| && Overflows(LayerAdj(before, layer), LayerAdj(after, layer)[n], Cap(m, layer)))
  }

  lemma UnlinkedNotesNothing(nodes: seq<Node>, n: int, m: int, noted: set<int>)
    requires 0 <= n < |nodes| && Unlinked(nodes[n])
    ensures OverflowsNoted(nodes, nodes, n, m, noted, noted)
  {
    forall layer: nat
      ensures LayerAdj(nodes, layer)[n] == []
    {
    }
  }

  /** A layer step notes its own layer and leaves the others' entries as they were. */
  lemma NoteOneMore(start: seq<Node>, mid: seq<Node>, after: seq<Node>, n: int, m: int, layer: nat,
                    noted: set<int>, noted': set<int>, noted'': set<int>)
    requires 0 <= n < |mid| == |after|
    requires OverflowsNoted(start, mid, n, m, noted, noted') && LayerAdj(mid, layer)[n] == []
    requires LayerAdj(mid, layer) == LayerAdj(start, layer)
    requires forall other: nat :: other != layer ==> LayerAdj(after, other) == LayerAdj(mid, other)
    requires noted'' == if Overflows(LayerAdj(mid, layer), LayerAdj(after, layer)[n], Cap(m, layer))
                        then noted' + {layer} else noted'
    ensures OverflowsNoted(start, after, n, m, noted, noted'')
  {
    assert layer in noted' <==> layer in noted;
  }

  lemma NotedWithoutFresh(before: seq<Node>, node: Node, after: seq<Node>, n: int, m: int, noted: set<int>,
                          noted': set<int>)
    requires n == |before| && OverflowsNoted(before + [node], after, n, m, noted, noted') && Unlinked(node)
    requires forall layer: nat, s :: n < |after| && s in LayerAdj(after, layer)[n] ==> s != n
    ensures OverflowsNoted(before, after, n, m, noted, noted')
  {
    forall layer: nat | n < |after|
      ensures Overflows(LayerAdj(before, layer), LayerAdj(after, layer)[n], Cap(m, layer))
         <==> Overflows(LayerAdj(before + [node], layer), LayerAdj(after, layer)[n], Cap(m, layer))
    {
      AppendLayer(before, node, layer);
      var adj, wide := LayerAdj(before, layer), LayerAdj(before + [node], layer);
      assert forall s :: 0 <= s < |adj| ==> wide[s] == adj[s];
    }
  }

  lemma NoSelfLinks(nodes: seq<Node>, m: int, overflowed: set<int>, n: int)
    requires GraphInv(nodes, m, overflowed) && 0 <= n < |nodes|
    ensures forall layer: nat, s :: s in LayerAdj(nodes, layer)[n] ==> s != n
  {
    forall layer: nat, s | s in LayerAdj(nodes, layer)[n]
      ensures s != n
    {
      assert LayerInv(LayerAdj(nodes, layer), Members(nodes, layer), Cap(m, layer), layer in overflowed);
      assert ListOk(LayerAdj(nodes, layer)[n], n, Members(nodes, layer), Cap(m, layer));
    }
  }

  lemma LinkedNothing(score: seq<real>, nodes: seq<Node>, n: int, top: nat, ep: int, efConst: int, m: int)
    ensures LinkedDown(score, nodes, nodes, n, top, top + 1, ep, ep, efConst, m)
  {
  }

  lemma LinkOneMore(score: seq<real>, before: seq<Node>, mid: seq<Node>, after: seq<Node>, n: int, top: int, layer: nat,
                    ep: int, prev: int, last: int, efConst: int, m: int)
    requires layer <= top
    requires LinkedDown(score, before, mid, n, top, layer + 1, ep, prev, efConst, m)
    requires LayerAdj(mid, layer) == LayerAdj(before, layer)
    requires LayerLinked(Points(before), score, LayerAdj(mid, layer), LayerAdj(after, layer), n, prev, last, efConst, m,
                         Cap(m, layer))
    requires forall other: nat :: other != layer ==> LayerAdj(after, other) == LayerAdj(mid, other)
    ensures LinkedDown(score, before, after, n, top, layer, ep, last, efConst, m)
  {
    hide LayerLinked;
    LinkedDownFrame(score, before, mid, after, n, top, layer + 1, ep, prev, efConst, m);
  }

  /** The first node makes a graph of lone layers. */
  lemma FirstNode(node: Node, m: int, overflowed: set<int>)
    requires GraphInv([], m, overflowed) && Unlinked(node) && m >= 1
    ensures GraphInv([node], m, overflowed)
  {
    AppendKeepsInv([], node, m, overflowed, 0);
    assert [] + [node] == [node];
    DuringToDone([node], m, overflowed, 0, 0);
  }

  lemma LiveAfterAppend(before: seq<Node>, after: seq<Node>, node: Node)
    requires Skeleton(after) == Skeleton(before + [node]) && !node.deleted
    ensures LiveRecords(after) == LiveRecords(before) + [node.record]
  {
    LiveRecordsOfSkeleton(after, before + [node]);
    assert (before + [node])[..|before|] == before;
  }

  lemma SameSkeleton(before: seq<Node>, a: Node, b: Node)
    requires a.(connections := []) == b.(connections := [])
    ensures Skeleton(before + [a]) == Skeleton(before + [b])
  {
  }

  lemma AppendVectors(before: seq<Node>, node: Node, dimension: nat)
    requires VectorsOk(before, dimension) && |node.record.vector| == dimension && node.norm > 0.0
    ensures VectorsOk(before + [node], dimension)
  {
  }

  lemma SkeletonNode(a: seq<Node>, b: seq<Node>, i: nat)
    requires Skeleton(a) == Skeleton(b) && i < |b|
    ensures |a| == |b| && a[i].(connections := []) == b[i].(connections := [])
  {
    assert |Skeleton(a)| == |Skeleton(b)|;
    assert Skeleton(a)[i] == Skeleton(b)[i];
  }

  lemma EntryFacts(nodes: seq<Node>, entryPoint: int, maxLevel: int)
    requires EntryOk(nodes, entryPoint, maxLevel)
    ensures entryPoint == -1 <==> nodes == []
    ensures nodes == [] ==> maxLevel == -1
  {
  }

  lemma FirstEntry(node: Node)
    ensures EntryOk([node], 0, node.level)
  {
  }

  lemma EntryAfterAppend(before: seq<Node>, after: seq<Node>, node: Node, entryPoint: int, maxLevel: int)
    requires before != [] && EntryOk(before, entryPoint, maxLevel)
    requires Skeleton(after) == Skeleton(before + [node])
    ensures node.level <= maxLevel ==> EntryOk(after, entryPoint, maxLevel)
    ensures node.level > maxLevel ==> EntryOk(after, |before|, node.level)
  {
    SkeletonNode(after, before + [node], 0);
    forall i | 0 <= i < |after|
      ensures after[i].level == (before + [node])[i].level
    {
      SkeletonNode(after, before + [node], i);
    }
  }

  /** Marking a node as deleted leaves the layers alone. */
  lemma TombstoneKeeps(nodes: seq<Node>, k: nat, m: int, overflowed: set<int>)
    requires k < |nodes|
    ensures var after := nodes[k := nodes[k].(deleted := true)];
            && (forall layer: nat ::
                  LayerAdj(after, layer) == LayerAdj(nodes, layer) && Members(after, layer) == Members(nodes, layer))
            && (GraphInv(nodes, m, overflowed) ==> GraphInv(after, m, overflowed))
  {
    hide LayerInv;
    var after := nodes[k := nodes[k].(deleted := true)];
    forall layer: nat
      ensures LayerAdj(after, layer) == LayerAdj(nodes, layer) && Members(after, layer) == Members(nodes, layer)
    {
      assert forall i :: 0 <= i < |nodes| ==> LinksOf(after, i, layer) == LinksOf(nodes, i, layer);
    }
    if GraphInv(nodes, m, overflowed) {
      forall layer: nat
        ensures LayerInv(LayerAdj(after, layer), Members(after, layer), Cap(m, layer), layer in overflowed)
      {
        assert LayerInv(LayerAdj(nodes, layer), Members(nodes, layer), Cap(m, layer), layer in overflowed);
      }
    }
  }
}
