/** What a beam search over one layer returns, and the steps of the search on sets of nodes. */
module Beams {
  import opened Heaps
  import opened Layers
  import opened Permutations

  function Ids(cs: seq<Candidate>): (r: seq<int>)
    ensures |r| == |cs| && forall i :: 0 <= i < |cs| ==> r[i] == cs[i].id
  {
    seq(|cs|, i requires 0 <= i < |cs| => cs[i].id)
  }

  ghost predicate BestFirst(cs: seq<Candidate>) {
    forall i, j :: 0 <= i < j < |cs| ==> cs[i].similarity >= cs[j].similarity
  }

  lemma NothingRanked()
    ensures BestFirst([])
  {
  }

  lemma WorseBehind(cs: seq<Candidate>, c: Candidate)
    requires BestFirst(cs) && forall i :: 0 <= i < |cs| ==> c.similarity >= cs[i].similarity
    ensures BestFirst([c] + cs) && multiset([c] + cs) == multiset{c} + multiset(cs)
  {
  }

  /** Every candidate carries the score of its node. */
  ghost predicate Scored(cs: seq<Candidate>, score: seq<real>) {
    forall c :: c in cs ==> 0 <= c.id < |score| && c.similarity == score[c.id]
  }

  /** The nodes visited before position j that score at least as well as the one there. */
  ghost function Rivals(score: seq<real>, order: seq<int>, j: nat): set<int>
    requires j < |order|
  {
    set v | v in order[..j] && AtLeast(score, v, order[j])
  }

  ghost predicate AtLeast(score: seq<real>, v: int, w: int) {
    0 <= v < |score| && 0 <= w < |score| && score[v] >= score[w]
  }

  /** A visiting order: it begins at ep, and every later node is linked from an earlier one that, when it was
      visited, was among the best ef so far; only such nodes are ever expanded. */
  ghost predicate IsVisit(adj: Adj, score: seq<real>, ep: int, ef: int, order: seq<int>) {
    && |order| > 0 && order[0] == ep && NoDup(order)
    && forall i :: 0 < i < |order| ==> Found(adj, score, ef, order, i)
  }

  ghost predicate Found(adj: Adj, score: seq<real>, ef: int, order: seq<int>, i: nat)
    requires i < |order|
  {
    exists j :: 0 <= j < i && Leads(adj, score, ef, order, j, i)
  }

  ghost predicate Leads(adj: Adj, score: seq<real>, ef: int, order: seq<int>, j: nat, i: nat)
    requires j < |order| && i < |order|
  {
    Edge(adj, order[j], order[i]) && |Rivals(score, order, j)| < ef
  }

  ghost predicate VisitedInOrder(adj: Adj, score: seq<real>, ep: int, ef: int, visited: set<int>) {
    exists order :: IsVisit(adj, score, ep, ef, order) && forall v :: v in visited <==> v in order
  }

  /** The exact account of a beam of width ef from ep: the answers are the best
      min(ef, |visited|) of the visited nodes, in order; everything visited can be reached from
      ep, and was found from a node worth expanding; and every link of an answer was followed. */
  ghost predicate IsBeam(adj: Adj, score: seq<real>, ep: int, ef: int, out: seq<Candidate>, visited: set<int>) {
    && |score| == |adj|
    && ep in visited
    && (forall v :: v in visited ==> 0 <= v < |adj| && Reachable(adj, ep, v))
    && Scored(out, score) && BestFirst(out) && NoDup(Ids(out))
    && (forall c :: c in out ==> c.id in visited)
    && |out| == Min(ef, |visited|)
    && (forall v, c :: v in visited && v !in Ids(out) && c in out ==> score[v] <= c.similarity)
    && (forall c, t :: c in out && Edge(adj, c.id, t) ==> t in visited)
    && VisitedInOrder(adj, score, ep, ef, visited)
  }

  // ---------- Consequences ----------

  lemma VisitedNotEmpty(visited: set<int>, ep: int)
    requires ep in visited
    ensures |visited| >= 1
  {
    assert visited == {ep} + (visited - {ep});
  }

  /** A beam is never empty, and its best answer is no worse than the entry point. */
  lemma BeamLeadsAhead(adj: Adj, score: seq<real>, ep: int, ef: int, out: seq<Candidate>, visited: set<int>)
    requires IsBeam(adj, score, ep, ef, out, visited) && ef >= 1
    ensures out != [] && 0 <= ep < |score| && out[0].similarity >= score[ep]
  {
    VisitedNotEmpty(visited, ep);
    assert out[0] in out;
    if ep in Ids(out) {
      var i :| 0 <= i < |out| && Ids(out)[i] == ep;
      assert out[i] in out;
    }
  }

  /** What the answers say of the layer, with no mention of the nodes visited on the way. */
  ghost predicate IsLocalOptimum(adj: Adj, score: seq<real>, ep: int, ef: int, out: seq<Candidate>) {
    && 0 <= ep < |score| && 1 <= |out| <= ef
    && Scored(out, score) && BestFirst(out) && NoDup(Ids(out))
    && out[0].similarity >= score[ep]
    && (forall c :: c in out ==> Reachable(adj, ep, c.id))
    && (forall i, t :: 0 <= i < |out| && Edge(adj, out[i].id, t) ==> t in Ids(out) || IsLeftOut(score, ef, out, t))
  }

  ghost predicate IsLeftOut(score: seq<real>, ef: int, out: seq<Candidate>, t: int) {
    |out| == ef && out != [] && 0 <= t < |score| && score[t] <= out[|out| - 1].similarity
  }

  lemma BeamSettles(adj: Adj, score: seq<real>, ep: int, ef: int, out: seq<Candidate>, visited: set<int>)
    requires IsBeam(adj, score, ep, ef, out, visited) && ef >= 1
    ensures IsLocalOptimum(adj, score, ep, ef, out)
  {
    BeamLeadsAhead(adj, score, ep, ef, out, visited);
    forall i, t | 0 <= i < |out| && Edge(adj, out[i].id, t) && t !in Ids(out)
      ensures IsLeftOut(score, ef, out, t)
    {
      BeamIsLocalOptimum(adj, score, ep, ef, out, visited, i, t);
    }
  }

  /** The answers form a closed local optimum: a link out of the beam leads to another answer, or the
      beam is full and the link leads to a node no better than the worst answer. */
  lemma BeamIsLocalOptimum(adj: Adj, score: seq<real>, ep: int, ef: int, out: seq<Candidate>, visited: set<int>,
                           i: int, t: int)
    requires IsBeam(adj, score, ep, ef, out, visited) && ef >= 1
    requires 0 <= i < |out| && Edge(adj, out[i].id, t) && t !in Ids(out)
    ensures |out| == ef && 0 <= t < |score| && score[t] <= out[|out| - 1].similarity
  {
    assert out[i] in out && out[|out| - 1] in out;
    assert t in visited;
    if |out| < ef {
      BeamOfAllVisited(adj, score, ep, ef, out, visited);
      assert false;
    }
  }

  lemma BeamScores(adj: Adj, score: seq<real>, ep: int, ef: int, out: seq<Candidate>, visited: set<int>)
    requires IsBeam(adj, score, ep, ef, out, visited)
    ensures Scored(out, score)
  {
  }

  lemma NoDupSet(s: seq<int>)
    requires NoDup(s)
    ensures |set x | x in s| == |s|
    decreases |s|
  {
    if |s| > 0 {
      var n := |s| - 1;
      NoDupSet(s[..n]);
      assert s == s[..n] + [s[n]];
      assert (set x | x in s) == (set x | x in s[..n]) + {s[n]};
      assert s[n] !in s[..n];
    }
  }

  lemma SubsetSize(a: set<int>, b: set<int>)
    requires a <= b
    ensures |a| <= |b|
  {
    assert b == a + (b - a);
  }

  lemma FullSubset(a: set<int>, b: set<int>)
    requires a <= b && |a| >= |b|
    ensures a == b
  {
    assert b == a + (b - a);
    assert |b - a| == 0;
    assert b - a == {};
  }

  /** A beam that is not full holds everything it visited. */
  lemma BeamOfAllVisited(adj: Adj, score: seq<real>, ep: int, ef: int, out: seq<Candidate>, visited: set<int>)
    requires IsBeam(adj, score, ep, ef, out, visited) && ef >= 1
    requires |out| < ef || |visited| <= ef
    ensures (set x | x in Ids(out)) == visited
  {
    var ids := set x | x in Ids(out);
    NoDupSet(Ids(out));
    forall x | x in ids
      ensures x in visited
    {
      var i :| 0 <= i < |out| && Ids(out)[i] == x;
      assert out[i] in out;
    }
    FullSubset(ids, visited);
  }

  /** A beam wide enough for all that can be reached, or for all that was visited, returns exactly what can be
      reached. */
  lemma BeamIsComplete(adj: Adj, score: seq<real>, ep: int, ef: int, out: seq<Candidate>, visited: set<int>,
                       all: set<int>)
    requires IsBeam(adj, score, ep, ef, out, visited) && ef >= 1
    requires forall x :: x in all <==> 0 <= x < |adj| && Reachable(adj, ep, x)
    requires |all| <= ef || |visited| <= ef
    ensures visited == all && (set x | x in Ids(out)) == all && |out| == |all|
  {
    forall v | v in visited
      ensures v in all
    {
      assert Reachable(adj, ep, v);
    }
    SubsetSize(visited, all);
    BeamOfAllVisited(adj, score, ep, ef, out, visited);
    forall a, b | a in visited && Edge(adj, a, b)
      ensures b in visited
    {
      var i :| 0 <= i < |out| && Ids(out)[i] == a;
      assert out[i] in out;
    }
    forall x | x in all
      ensures x in visited
    {
      ReachClosed(adj, visited, ep, x);
    }
  }

  // ---------- The search on sets of nodes ----------

  /** The state of a search: the nodes `seen`, in the order of their visits, the `results` among them, those
      `open` for expansion and those `done`. */
  datatype Scan = Scan(adj: Adj, score: seq<real>, ep: int, ef: int,
                       order: seq<int>, seen: set<int>, results: set<int>, open: set<int>, done: set<int>)
  {
    ghost predicate Inv() {
      Account() && Traced()
    }

    /** What is known of the sets of nodes. */
    ghost predicate Account() {
      && |score| == |adj| && ef >= 1
      && ep in seen
      && (forall v :: v in seen ==> 0 <= v < |adj| && Reachable(adj, ep, v))
      && results <= seen && open <= seen && done <= seen
      && |results| == Min(ef, |seen|)
      && (forall v, r :: v in seen && v !in results && r in results ==> score[v] <= score[r])
      && results <= open + done
      && (forall x, t :: x in done && Edge(adj, x, t) ==> t in seen)
    }

    /** The seen nodes were visited in that order, and those to be expanded are worth it. */
    ghost predicate Traced() {
      && IsVisit(adj, score, ep, ef, order)
      && (forall v :: v in seen <==> v in order)
      && (forall x :: x in open ==> Worthy(x))
    }

    ghost predicate Worthy(x: int) {
      exists j :: 0 <= j < |order| && order[j] == x && |Rivals(score, order, j)| < ef
    }

    ghost function RivalsOf(w: int): set<int> {
      set v | v in seen && AtLeast(score, v, w)
    }

    ghost predicate SameTask(other: Scan) {
      adj == other.adj && score == other.score && ep == other.ep && ef == other.ef
    }

    /** Node w can be visited next, from the open node c. */
    ghost predicate CanVisit(c: int, w: int) {
      c in open && Edge(adj, c, w) && w !in seen && 0 <= w < |adj|
    }

    ghost function Skip(w: int): Scan {
      this.(order := order + [w], seen := seen + {w})
    }

    ghost function Add(w: int): Scan {
      this.(order := order + [w], seen := seen + {w}, results := results + {w}, open := open + {w})
    }

    ghost function Replace(w: int, worst: int): Scan {
      this.(order := order + [w], seen := seen + {w}, results := results + {w} - {worst}, open := open + {w})
    }

    ghost function Finish(c: int): Scan {
      this.(open := open - {c}, done := done + {c})
    }
  }

  ghost function Start(adj: Adj, score: seq<real>, ep: int, ef: int): Scan {
    Scan(adj, score, ep, ef, [ep], {ep}, {ep}, {ep}, {})
  }

  lemma SearchStarts(adj: Adj, score: seq<real>, ep: int, ef: int)
    requires |score| == |adj| && 0 <= ep < |adj| && ef >= 1
    ensures Start(adj, score, ep, ef).Inv()
  {
    ReachSelf(adj, ep);
    assert Rivals(score, [ep], 0) == {};
    assert Start(adj, score, ep, ef).Traced();
  }

  /** What is known of earlier visits stays. */
  lemma VisitsStay(adj: Adj, score: seq<real>, ef: int, order: seq<int>, w: int, j: nat)
    requires j < |order|
    ensures (order + [w])[j] == order[j] && Rivals(score, order + [w], j) == Rivals(score, order, j)
    ensures Found(adj, score, ef, order, j) ==> Found(adj, score, ef, order + [w], j)
  {
    assert (order + [w])[..j] == order[..j];
    if Found(adj, score, ef, order, j) {
      var k :| 0 <= k < j && Leads(adj, score, ef, order, k, j);
      assert (order + [w])[..k] == order[..k];
      assert Leads(adj, score, ef, order + [w], k, j);
    }
  }

  lemma VisitGrows(s: Scan, c: int, w: int)
    requires s.Traced() && s.CanVisit(c, w)
    ensures IsVisit(s.adj, s.score, s.ep, s.ef, s.order + [w])
  {
    var n, order := |s.order|, s.order + [w];
    assert s.Worthy(c);
    var k :| 0 <= k < n && s.order[k] == c && |Rivals(s.score, s.order, k)| < s.ef;
    hide Rivals;
    hide Reachable;
    assert NoDup(order);
    forall i | 0 < i <= n
      ensures Found(s.adj, s.score, s.ef, order, i)
    {
      if i < n {
        VisitsStay(s.adj, s.score, s.ef, s.order, w, i);
      } else {
        VisitsStay(s.adj, s.score, s.ef, s.order, w, k);
        assert Leads(s.adj, s.score, s.ef, order, k, n);
      }
    }
  }

  lemma WorthStays(s: Scan, w: int, t: Scan, x: int)
    requires s.Worthy(x) && t.order == s.order + [w] && t.score == s.score && t.ef == s.ef
    ensures t.Worthy(x)
  {
    var j :| 0 <= j < |s.order| && s.order[j] == x && |Rivals(s.score, s.order, j)| < s.ef;
    VisitsStay(s.adj, s.score, s.ef, s.order, w, j);
    assert t.order[j] == x;
  }

  lemma NewIsWorthy(s: Scan, w: int, t: Scan)
    requires (forall v :: v in s.seen <==> v in s.order) && |s.RivalsOf(w)| < s.ef
    requires t.order == s.order + [w] && t.score == s.score && t.ef == s.ef
    ensures t.Worthy(w)
  {
    var n := |s.order|;
    assert t.order[n] == w && t.order[..n] == s.order;
    assert Rivals(s.score, t.order, n) == s.RivalsOf(w);
  }

  /** Visiting one more node, from an open one, keeps the trace if the node is opened only when it is worth it. */
  lemma TraceVisit(s: Scan, c: int, w: int, t: Scan)
    requires s.Traced() && s.CanVisit(c, w) && t.SameTask(s)
    requires t.order == s.order + [w] && t.seen == s.seen + {w} && t.open <= s.open + {w}
    requires w in t.open ==> |s.RivalsOf(w)| < s.ef
    ensures t.Traced()
  {
    VisitGrows(s, c, w);
    hide IsVisit;
    forall x | x in t.open
      ensures t.Worthy(x)
    {
      if x in s.open {
        WorthStays(s, w, t, x);
      } else {
        NewIsWorthy(s, w, t);
      }
    }
  }

  lemma SearchSizes(s: Scan)
    requires s.Inv()
    ensures 1 <= |s.results| <= s.ef && 1 <= |s.seen| <= |s.adj|
    ensures |s.score| == |s.adj|
    ensures Indexed(s.seen, s.score) && Indexed(s.results, s.score) && Indexed(s.open, s.score)
  {
    VisitedNotEmpty(s.seen, s.ep);
    UptoFacts(|s.adj|);
    forall v | v in s.seen
      ensures v in Upto(|s.adj|)
    {
    }
    SubsetSize(s.seen, Upto(|s.adj|));
  }

  ghost function Upto(n: nat): set<int> {
    if n == 0 then {} else Upto(n - 1) + {n - 1}
  }

  lemma UptoFacts(n: nat)
    ensures |Upto(n)| == n && forall i :: i in Upto(n) <==> 0 <= i < n
  {
  }

  lemma NotSeen(s: Scan, w: int)
    requires s.Inv() && w !in s.seen
    ensures w !in s.results && w !in s.open && w !in s.done
  {
  }

  lemma NothingOpen(s: Scan)
    requires s.Inv() && |Bag(s.open, s.score)| == 0
    ensures forall r :: r in s.results ==> r !in s.open
  {
    BagFacts(s.open, s.score);
    assert s.open == {};
  }

  /** A visited node that is not a result is only possible once the results are full. */
  lemma LeftOutMeansFull(s: Scan, c: int)
    requires s.Inv() && c in s.seen && c !in s.results
    ensures |s.seen| > s.ef
  {
    SubsetSize(s.results, s.seen - {c});
  }

  lemma SkipAccount(s: Scan, c: int, w: int)
    requires s.Account() && s.CanVisit(c, w)
    requires |s.results| >= s.ef && forall r :: r in s.results ==> 0 <= r < |s.score| && s.score[w] <= s.score[r]
    ensures s.Skip(w).Account()
  {
    ReachStep(s.adj, s.ep, c, w);
    assert |s.seen + {w}| == |s.seen| + 1;
  }

  lemma AddAccount(s: Scan, c: int, w: int)
    requires s.Account() && s.CanVisit(c, w) && |s.results| < s.ef
    ensures s.Add(w).Account() && |s.RivalsOf(w)| < s.ef
  {
    ReachStep(s.adj, s.ep, c, w);
    FullSubset(s.results, s.seen);
    SubsetSize(s.RivalsOf(w), s.seen);
    assert |s.seen + {w}| == |s.seen| + 1;
  }

  lemma ReplaceAccount(s: Scan, c: int, w: int, worst: int)
    requires s.Account() && s.CanVisit(c, w)
    requires |s.results| == s.ef && exists r :: r in s.results && 0 <= r < |s.score| && s.score[r] < s.score[w]
    requires worst in s.results + {w}
    requires forall r :: r in s.results + {w} ==> 0 <= r < |s.score| && s.score[worst] <= s.score[r]
    ensures s.Replace(w, worst).Account()
  {
    ReachStep(s.adj, s.ep, c, w);
    assert |s.seen + {w}| == |s.seen| + 1;
    assert |s.results + {w}| == |s.results| + 1;
    assert |s.results + {w} - {worst}| == |s.results|;
  }

  /** A node that beats some result of full ones has fewer than ef rivals. */
  lemma FewRivals(s: Scan, w: int)
    requires s.Account() && 0 <= w < |s.score|
    requires |s.results| == s.ef && exists r :: r in s.results && 0 <= r < |s.score| && s.score[r] < s.score[w]
    ensures |s.RivalsOf(w)| < s.ef
  {
    var r :| r in s.results && 0 <= r < |s.score| && s.score[r] < s.score[w];
    forall v | v in s.RivalsOf(w)
      ensures v in s.results - {r}
    {
    }
    SubsetSize(s.RivalsOf(w), s.results - {r});
  }

  /** A new neighbour that does not enter the results. */
  lemma VisitSkips(s: Scan, c: int, w: int)
    requires s.Inv() && s.CanVisit(c, w)
    requires |s.results| >= s.ef && forall r :: r in s.results ==> 0 <= r < |s.score| && s.score[w] <= s.score[r]
    ensures s.Skip(w).Inv()
  {
    SkipAccount(s, c, w);
    assert w !in s.open by {
      NotSeen(s, w);
    }
    hide Scan.Account;
    hide Scan.Traced;
    TraceVisit(s, c, w, s.Skip(w));
  }

  /** A new neighbour while the results are not full: so far nothing was left out. */
  lemma VisitAdds(s: Scan, c: int, w: int)
    requires s.Inv() && s.CanVisit(c, w)
    requires |s.results| < s.ef
    ensures s.Add(w).Inv()
  {
    hide Scan.Account;
    hide Scan.Traced;
    AddAccount(s, c, w);
    TraceVisit(s, c, w, s.Add(w));
  }

  /** A new neighbour that displaces a worst result. */
  lemma VisitReplaces(s: Scan, c: int, w: int, worst: int)
    requires s.Inv() && s.CanVisit(c, w)
    requires |s.results| == s.ef && exists r :: r in s.results && 0 <= r < |s.score| && s.score[r] < s.score[w]
    requires worst in s.results + {w}
    requires forall r :: r in s.results + {w} ==> 0 <= r < |s.score| && s.score[worst] <= s.score[r]
    ensures s.Replace(w, worst).Inv()
  {
    hide Scan.Account;
    hide Scan.Traced;
    ReplaceAccount(s, c, w, worst);
    FewRivals(s, w) by {
      InRangeOf(s, c, w);
    }
    TraceVisit(s, c, w, s.Replace(w, worst));
  }

  lemma InRangeOf(s: Scan, c: int, w: int)
    requires s.Account() && s.CanVisit(c, w)
    ensures 0 <= w < |s.score|
  {
  }

  lemma ExpandDone(s: Scan, c: int)
    requires s.Inv() && c in s.open && forall t :: Edge(s.adj, c, t) ==> t in s.seen
    ensures s.Finish(c).Inv()
  {
  }

  /** When no open node is a result, the results are a beam. */
  lemma SearchEnds(s: Scan, out: seq<Candidate>)
    requires s.Inv() && forall r :: r in s.results ==> r !in s.open
    requires BestFirst(out) && multiset(out) == Bag(s.results, s.score)
    ensures IsBeam(s.adj, s.score, s.ep, s.ef, out, s.seen)
  {
    BagFacts(s.results, s.score);
    forall c | c in out
      ensures c.id in s.results && c.similarity == s.score[c.id]
    {
      assert c in multiset(out);
    }
    forall i, j | 0 <= i < j < |out|
      ensures Ids(out)[i] != Ids(out)[j]
    {
      BagIsDistinct(out, s.results, s.score, i, j);
    }
    forall v | v in s.results
      ensures v in Ids(out)
    {
      assert Candidate(v, s.score[v]) in multiset(out);
      var i :| 0 <= i < |out| && out[i] == Candidate(v, s.score[v]);
      assert Ids(out)[i] == v;
    }
    assert |out| == |multiset(out)|;
  }

  // ---------- Bags of candidates ----------

  /** The heap contents that stand for a set of nodes. */
  ghost function Bag(ids: set<int>, score: seq<real>): multiset<Candidate> {
    multiset(set i | i in ids && 0 <= i < |score| :: Candidate(i, score[i]))
  }

  ghost predicate Indexed(ids: set<int>, score: seq<real>) {
    forall i :: i in ids ==> 0 <= i < |score|
  }

  lemma BagFacts(ids: set<int>, score: seq<real>)
    requires Indexed(ids, score)
    ensures |Bag(ids, score)| == |ids|
    ensures forall c :: c in Bag(ids, score) <==> c.id in ids && c.similarity == score[c.id]
    decreases |ids|
  {
    var cs := set i | i in ids && 0 <= i < |score| :: Candidate(i, score[i]);
    if x :| x in ids {
      BagFacts(ids - {x}, score);
      var rest := set i | i in ids - {x} && 0 <= i < |score| :: Candidate(i, score[i]);
      assert cs == rest + {Candidate(x, score[x])};
      assert Candidate(x, score[x]) !in rest;
      assert |cs| == |rest| + 1;
      assert |rest| == |ids - {x}|;
    } else {
      assert forall i :: i !in ids;
      assert |ids| == 0 by {
        assert ids == {};
      }
      assert cs == {};
    }
    forall c: Candidate | c.id in ids && c.similarity == score[c.id]
      ensures c in cs
    {
      assert c == Candidate(c.id, score[c.id]);
    }
  }

  lemma BagAdd(ids: set<int>, score: seq<real>, w: int)
    requires 0 <= w < |score| && w !in ids
    ensures Bag(ids + {w}, score) == Bag(ids, score) + multiset{Candidate(w, score[w])}
  {
    var cs := set i | i in ids && 0 <= i < |score| :: Candidate(i, score[i]);
    var more := set i | i in ids + {w} && 0 <= i < |score| :: Candidate(i, score[i]);
    assert more == cs + {Candidate(w, score[w])};
    assert Candidate(w, score[w]) !in cs;
  }

  lemma BagRemove(ids: set<int>, score: seq<real>, w: int)
    requires w in ids && 0 <= w < |score|
    ensures Bag(ids - {w}, score) == Bag(ids, score) - multiset{Candidate(w, score[w])}
  {
    BagAdd(ids - {w}, score, w);
    assert ids - {w} + {w} == ids;
  }

  lemma BagIsDistinct(out: seq<Candidate>, ids: set<int>, score: seq<real>, i: nat, j: nat)
    requires Indexed(ids, score)
    requires multiset(out) == Bag(ids, score) && i < j < |out|
    ensures out[i].id != out[j].id
  {
    BagFacts(ids, score);
    assert out[i] in multiset(out) && out[j] in multiset(out);
    CountsTwice(out, i, j);
  }

  lemma BagOfOne(score: seq<real>, i: int)
    requires 0 <= i < |score|
    ensures Bag({i}, score) == multiset{Candidate(i, score[i])}
  {
    BagAdd({}, score, i);
    assert {} + {i} == {i};
  }

  /** An extremal element of a bag stands for an extremal node. */
  lemma BagMinimum(ids: set<int>, score: seq<real>, c: Candidate)
    requires Indexed(ids, score)
    requires c in Bag(ids, score) && forall x :: x in Bag(ids, score) ==> x.similarity >= c.similarity
    ensures c.id in ids && c.similarity == score[c.id] && forall r :: r in ids ==> score[c.id] <= score[r]
  {
    BagFacts(ids, score);
    forall r | r in ids
      ensures score[c.id] <= score[r]
    {
      assert Candidate(r, score[r]) in Bag(ids, score);
    }
  }

  lemma BagMaximum(ids: set<int>, score: seq<real>, c: Candidate)
    requires Indexed(ids, score)
    requires c in Bag(ids, score) && forall x :: x in Bag(ids, score) ==> x.similarity <= c.similarity
    ensures c.id in ids && c.similarity == score[c.id] && forall r :: r in ids ==> score[c.id] >= score[r]
  {
    BagFacts(ids, score);
    forall r | r in ids
      ensures score[c.id] >= score[r]
    {
      assert Candidate(r, score[r]) in Bag(ids, score);
    }
  }

  // ---------- Hill climbing ----------

  /** How many nodes score better than x. */
  ghost function Above(score: seq<real>, x: real): nat {
    |set i | 0 <= i < |score| && score[i] > x|
  }

  lemma AboveShrinks(score: seq<real>, x: real, i: int)
    requires 0 <= i < |score| && score[i] > x
    ensures Above(score, score[i]) < Above(score, x)
  {
    var more := set j | 0 <= j < |score| && score[j] > x;
    var fewer := set j | 0 <= j < |score| && score[j] > score[i];
    assert fewer <= more - {i};
    SubsetSize(fewer, more - {i});
  }
}
