/** One layer of the graph, seen as the list of every node's links on that layer, together with
    the set of the nodes that belong to the layer. */
module Layers {
  type Adj = seq<seq<int>>

  // ---------- Links and paths ----------

  ghost predicate NoDup(s: seq<int>) {
    forall i, j :: 0 <= i < j < |s| ==> s[i] != s[j]
  }

  ghost predicate Edge(adj: Adj, a: int, b: int) {
    0 <= a < |adj| && b in adj[a]
  }

  ghost predicate IsPath(adj: Adj, p: seq<int>) {
    |p| > 0 && forall i :: 0 <= i < |p| - 1 ==> Edge(adj, p[i], p[i + 1])
  }

  ghost predicate Joins(adj: Adj, p: seq<int>, a: int, b: int) {
    IsPath(adj, p) && p[0] == a && p[|p| - 1] == b
  }

  ghost predicate Reachable(adj: Adj, a: int, b: int) {
    exists p :: Joins(adj, p, a, b)
  }

  lemma ReachSelf(adj: Adj, a: int)
    ensures Reachable(adj, a, a)
  {
    assert Joins(adj, [a], a, a);
  }

  lemma ReachTrans(adj: Adj, a: int, b: int, c: int)
    requires Reachable(adj, a, b) && Reachable(adj, b, c)
    ensures Reachable(adj, a, c)
  {
    var p :| Joins(adj, p, a, b);
    var q :| Joins(adj, q, b, c);
    var r := p + q[1..];
    forall i | 0 <= i < |r| - 1
      ensures Edge(adj, r[i], r[i + 1])
    {
      if i < |p| - 1 {
        assert Edge(adj, p[i], p[i + 1]);
      } else {
        assert r[i] == q[i - (|p| - 1)];
        assert Edge(adj, q[i - (|p| - 1)], q[i - (|p| - 1) + 1]);
      }
    }
    assert Joins(adj, r, a, c);
  }

  lemma ReachStep(adj: Adj, a: int, b: int, c: int)
    requires Reachable(adj, a, b) && Edge(adj, b, c)
    ensures Reachable(adj, a, c)
  {
    assert Joins(adj, [b, c], b, c);
    ReachTrans(adj, a, b, c);
  }

  ghost predicate Closed(adj: Adj, s: set<int>) {
    forall a, b :: a in s && Edge(adj, a, b) ==> b in s
  }

  /** A path that starts in a set closed under links ends in it. */
  lemma {:induction false} ClosedPath(adj: Adj, s: set<int>, p: seq<int>)
    requires Closed(adj, s) && IsPath(adj, p) && p[0] in s
    ensures p[|p| - 1] in s
    decreases |p|
  {
    if |p| > 1 {
      assert Edge(adj, p[0], p[1]);
      var q := p[1..];
      forall i | 0 <= i < |q| - 1
        ensures Edge(adj, q[i], q[i + 1])
      {
        assert Edge(adj, p[i + 1], p[i + 2]);
      }
      ClosedPath(adj, s, q);
    }
  }

  lemma ReachClosed(adj: Adj, s: set<int>, a: int, b: int)
    requires Closed(adj, s) && a in s && Reachable(adj, a, b)
    ensures b in s
  {
    var p :| Joins(adj, p, a, b);
    ClosedPath(adj, s, p);
  }

  /** Every link of `before` is still there in `after`. */
  ghost predicate Grown(before: Adj, after: Adj) {
    forall a, b :: Edge(before, a, b) ==> Edge(after, a, b)
  }

  lemma ReachGrown(before: Adj, after: Adj, a: int, b: int)
    requires Grown(before, after) && Reachable(before, a, b)
    ensures Reachable(after, a, b)
  {
    var p :| Joins(before, p, a, b);
    assert Joins(after, p, a, b);
  }

  // ---------- What a layer always satisfies ----------

  /** The links of node i: distinct, to other members, within the cap; none for a non-member. */
  ghost predicate ListOk(links: seq<int>, i: int, members: set<int>, cap: int) {
    && |links| <= cap
    && NoDup(links)
    && (forall t :: t in links ==> t in members && t != i)
    && (i !in members ==> links == [])
  }

  ghost predicate LayerOk(adj: Adj, members: set<int>, cap: int) {
    && (forall i :: i in members ==> 0 <= i < |adj|)
    && (forall i :: 0 <= i < |adj| ==> ListOk(adj[i], i, members, cap))
  }

  /** In a layer of two or more nodes every node has a link to follow. */
  ghost predicate NoDeadEnds(adj: Adj, members: set<int>)
    requires forall i :: i in members ==> 0 <= i < |adj|
  {
    forall i, j :: i in members && j in members && i != j ==> adj[i] != []
  }

  ghost predicate Symmetric(adj: Adj) {
    forall a, b :: Edge(adj, a, b) ==> Edge(adj, b, a)
  }

  ghost predicate Connected(adj: Adj, members: set<int>) {
    forall a, b :: a in members && b in members ==> Reachable(adj, a, b)
  }

  /** The invariant of a layer. `overflowed` records that some list of it was once pruned: until
      then the links are symmetric and join all members, and it takes more than cap + 1 members. */
  ghost predicate LayerInv(adj: Adj, members: set<int>, cap: int, overflowed: bool) {
    && LayerOk(adj, members, cap)
    && NoDeadEnds(adj, members)
    && (!overflowed ==> Symmetric(adj) && Connected(adj, members))
    && (overflowed ==> |members| > cap + 1)
  }

  lemma ReachMember(adj: Adj, members: set<int>, cap: int, a: int, b: int)
    requires LayerOk(adj, members, cap) && a in members && Reachable(adj, a, b)
    ensures b in members
  {
    ReachClosed(adj, members, a, b);
  }

  /** Appending a node that is not yet on the layer changes nothing for it. */
  lemma ExtendLayer(adj: Adj, members: set<int>, cap: int, overflowed: bool)
    requires LayerInv(adj, members, cap, overflowed) && cap >= 0
    ensures LayerInv(adj + [[]], members, cap, overflowed)
  {
    var wider := adj + [[]];
    forall i | 0 <= i < |wider|
      ensures ListOk(wider[i], i, members, cap)
    {
      assert i < |adj| ==> wider[i] == adj[i];
    }
    assert Grown(adj, wider);
    if !overflowed {
      forall a, b | a in members && b in members
        ensures Reachable(wider, a, b)
      {
        ReachGrown(adj, wider, a, b);
      }
      forall a, b | Edge(wider, a, b)
        ensures Edge(wider, b, a)
      {
        assert Edge(adj, a, b);
      }
    }
  }

  /** A layer without links and with at most one member. */
  lemma LoneLayer(adj: Adj, members: set<int>, cap: int, n: int)
    requires forall i :: 0 <= i < |adj| ==> adj[i] == []
    requires cap >= 0 && 0 <= n < |adj| && members <= {n}
    ensures LayerInv(adj, members, cap, false)
  {
    ReachSelf(adj, n);
  }

  // ---------- Linking a new node into a layer ----------

  /** What becomes of a list that must take one more link: kept whole while it fits the cap, else
      cut to a duplicate-free, non-empty part of it. */
  ghost predicate Regrown(full: seq<int>, links: seq<int>, cap: int) {
    if |full| <= cap then links == full
    else links != [] && |links| <= cap && NoDup(links) && forall t :: t in links ==> t in full
  }

  /** The effect on one layer of linking node n both ways to the first k nodes of `chosen`. */
  ghost predicate Linked(before: Adj, after: Adj, n: int, chosen: seq<int>, k: int, cap: int)
    requires 0 <= k <= |chosen|
  {
    && |after| == |before|
    && 0 <= n < |before|
    && after[n] == chosen
    && (forall i :: 0 <= i < |before| && i in chosen[..k] ==> Regrown(before[i] + [n], after[i], cap))
    && (forall i :: 0 <= i < |before| && i != n && i !in chosen[..k] ==> after[i] == before[i])
  }

  /** The list of some chosen node had to be pruned. */
  ghost predicate Overflows(before: Adj, chosen: seq<int>, cap: int) {
    exists s :: s in chosen && 0 <= s < |before| && |before[s]| + 1 > cap
  }

  lemma RegrownOk(links: seq<int>, grown: seq<int>, i: int, n: int, members: set<int>, cap: int)
    requires ListOk(links, i, members, cap) && n !in members && i in members && cap >= 1
    requires Regrown(links + [n], grown, cap)
    ensures ListOk(grown, i, members + {n}, cap) && grown != []
  {
  }

  lemma LinkedOk(before: Adj, after: Adj, n: int, members: set<int>, chosen: seq<int>, cap: int)
    requires LayerOk(before, members, cap) && n !in members && 0 <= n < |before|
    requires NoDup(chosen) && 1 <= |chosen| <= cap && forall s :: s in chosen ==> s in members
    requires Linked(before, after, n, chosen, |chosen|, cap)
    ensures LayerOk(after, members + {n}, cap)
  {
    assert chosen[..|chosen|] == chosen;
    forall i | 0 <= i < |after|
      ensures ListOk(after[i], i, members + {n}, cap)
    {
      assert ListOk(before[i], i, members, cap);
      if i != n && i in chosen {
        RegrownOk(before[i], after[i], i, n, members, cap);
      }
    }
  }

  lemma LinkedHasNoDeadEnds(before: Adj, after: Adj, n: int, members: set<int>, chosen: seq<int>, cap: int)
    requires LayerOk(before, members, cap) && NoDeadEnds(before, members) && n !in members && 0 <= n < |before|
    requires 1 <= |chosen| <= cap && forall s :: s in chosen ==> s in members
    requires Linked(before, after, n, chosen, |chosen|, cap)
    ensures NoDeadEnds(after, members + {n})
  {
    assert chosen[..|chosen|] == chosen;
    var s := chosen[0];
    assert s in chosen;
    forall i, j | i in members + {n} && j in members + {n} && i != j
      ensures after[i] != []
    {
      if i in chosen {
        RegrownOk(before[i], after[i], i, n, members, cap);
      } else if i != n {
        assert i in members && s in members && s != i;
      }
    }
  }

  lemma LinkedGrows(before: Adj, after: Adj, n: int, members: set<int>, chosen: seq<int>, cap: int)
    requires LayerOk(before, members, cap) && n !in members && 0 <= n < |before|
    requires forall s :: s in chosen ==> s in members
    requires Linked(before, after, n, chosen, |chosen|, cap)
    requires !Overflows(before, chosen, cap)
    ensures Grown(before, after)
    ensures forall s :: s in chosen ==> Edge(after, n, s) && Edge(after, s, n)
    ensures Symmetric(before) ==> Symmetric(after)
  {
    assert chosen[..|chosen|] == chosen;
    forall i | 0 <= i < |before| && i != n
      ensures after[i] == if i in chosen then before[i] + [n] else before[i]
    {
      if i in chosen {
        assert Regrown(before[i] + [n], after[i], cap);
      }
    }
    assert before[n] == [] by {
      assert ListOk(before[n], n, members, cap);
    }
    if Symmetric(before) {
      forall a, b | Edge(after, a, b)
        ensures Edge(after, b, a)
      {
        if a != n && b != n {
          assert Edge(before, a, b);
          assert Edge(before, b, a);
        } else if b == n && a != n {
          assert n !in before[a] by {
            assert ListOk(before[a], a, members, cap);
          }
        }
      }
    }
  }

  lemma LinkedConnects(before: Adj, after: Adj, n: int, members: set<int>, chosen: seq<int>, cap: int)
    requires LayerOk(before, members, cap) && n !in members && 0 <= n < |before|
    requires Connected(before, members)
    requires |chosen| >= 1 && forall s :: s in chosen ==> s in members
    requires Linked(before, after, n, chosen, |chosen|, cap)
    requires !Overflows(before, chosen, cap)
    ensures Connected(after, members + {n})
  {
    LinkedGrows(before, after, n, members, chosen, cap);
    var s := chosen[0];
    ReachSelf(after, n);
    forall a | a in members
      ensures Reachable(after, a, n) && Reachable(after, n, a)
    {
      ReachGrown(before, after, a, s);
      ReachStep(after, a, s, n);
      ReachStep(after, n, n, s);
      ReachGrown(before, after, s, a);
      ReachTrans(after, n, s, a);
    }
    forall a, b | a in members + {n} && b in members + {n}
      ensures Reachable(after, a, b)
    {
      if a != n && b != n {
        ReachGrown(before, after, a, b);
      }
    }
  }

  lemma NoDupSize(s: seq<int>, t: set<int>)
    requires NoDup(s) && forall x :: x in s ==> x in t
    ensures |s| <= |t|
    decreases |s|
  {
    if |s| > 0 {
      var x := s[|s| - 1];
      forall y | y in s[..|s| - 1]
        ensures y in t - {x}
      {
        var i :| 0 <= i < |s| - 1 && s[i] == y;
      }
      NoDupSize(s[..|s| - 1], t - {x});
    }
  }

  /** A list can only overflow on a layer of more than cap + 1 members, the new one included. */
  lemma OverflowNeedsMembers(before: Adj, n: int, members: set<int>, chosen: seq<int>, cap: int)
    requires LayerOk(before, members, cap) && n !in members
    requires forall s :: s in chosen ==> s in members
    requires Overflows(before, chosen, cap)
    ensures |members + {n}| > cap + 1
  {
    var s :| s in chosen && 0 <= s < |before| && |before[s]| + 1 > cap;
    assert ListOk(before[s], s, members, cap);
    NoDupSize(before[s], members - {s});
    assert |members - {s}| == |members| - 1;
    assert |members + {n}| == |members| + 1;
  }

  /** Linking a new node to some members keeps the invariant of the layer. */
  lemma LinkedKeepsInv(before: Adj, after: Adj, n: int, members: set<int>, chosen: seq<int>, cap: int, overflowed: bool)
    requires LayerInv(before, members, cap, overflowed) && n !in members && 0 <= n < |before|
    requires NoDup(chosen) && 1 <= |chosen| <= cap && forall s :: s in chosen ==> s in members
    requires Linked(before, after, n, chosen, |chosen|, cap)
    ensures LayerInv(after, members + {n}, cap, overflowed || Overflows(before, chosen, cap))
  {
    LinkedOk(before, after, n, members, chosen, cap);
    LinkedHasNoDeadEnds(before, after, n, members, chosen, cap);
    if Overflows(before, chosen, cap) {
      OverflowNeedsMembers(before, n, members, chosen, cap);
    } else if overflowed {
      assert |members + {n}| == |members| + 1;
    } else {
      LinkedGrows(before, after, n, members, chosen, cap);
      LinkedConnects(before, after, n, members, chosen, cap);
    }
  }
}
