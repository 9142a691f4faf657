/** The neighbour-selection heuristic (Malkov and Yashunin, Algorithm 4) and the pruning of a list
    of links by the same rule. */
module Selection {
  import opened Beams
  import opened Heaps
  import opened Layers
  import opened Vectors

  /** A stored vector with its norm. */
  datatype Point = Point(vector: Vector, norm: real)

  ghost function Similarity(a: Point, b: Point): real {
    Cosine(a.vector, a.norm, b.vector, b.norm)
  }

  ghost predicate InRange(points: seq<Point>, cands: seq<Candidate>) {
    forall c :: c in cands ==> 0 <= c.id < |points|
  }

  /** The candidate is more similar to r than to the query. */
  ghost predicate IsCloser(points: seq<Point>, e: Candidate, r: Candidate) {
    && 0 <= e.id < |points| && 0 <= r.id < |points|
    && Similarity(points[e.id], points[r.id]) > e.similarity
  }

  /** Candidate p is more similar to candidate r than to the query. */
  ghost predicate Crowds(points: seq<Point>, cands: seq<Candidate>, r: int, p: int)
    requires 0 <= r < |cands| && 0 <= p < |cands|
  {
    IsCloser(points, cands[p], cands[r])
  }

  /** The declarative reading of the heuristic, on positions: at most m are kept, no kept candidate
      is crowded by an earlier kept one, and a candidate is dropped only because an earlier kept one
      crowds it or because m were kept before it. */
  ghost predicate IsDiverse(points: seq<Point>, cands: seq<Candidate>, m: int, kept: set<int>)
    requires InRange(points, cands)
  {
    && |kept| <= m
    && (forall p :: p in kept ==> 0 <= p < |cands|)
    && (forall r, p :: r in kept && p in kept && r < p ==> !Crowds(points, cands, r, p))
    && (forall p :: 0 <= p < |cands| && p !in kept ==>
          (exists r :: r in kept && r < p && Crowds(points, cands, r, p))
          || (|kept| == m && forall r :: r in kept ==> r < p))
  }

  lemma {:induction false} DiverseAgree(points: seq<Point>, cands: seq<Candidate>, m: int, a: set<int>, b: set<int>,
                                        n: nat)
    requires InRange(points, cands) && n <= |cands|
    requires IsDiverse(points, cands, m, a) && IsDiverse(points, cands, m, b)
    ensures forall p :: 0 <= p < n ==> (p in a <==> p in b)
  {
    hide IsDiverse;
    if n > 0 {
      DiverseAgree(points, cands, m, a, b, n - 1);
      DropIsShared(points, cands, m, a, b, n - 1);
      DropIsShared(points, cands, m, b, a, n - 1);
    }
  }

  lemma DropIsShared(points: seq<Point>, cands: seq<Candidate>, m: int, a: set<int>, b: set<int>, p: nat)
    requires InRange(points, cands) && p < |cands|
    requires IsDiverse(points, cands, m, a) && IsDiverse(points, cands, m, b)
    requires forall q :: 0 <= q < p ==> (q in a <==> q in b)
    ensures p in a ==> p in b
  {
    if p in a && p !in b && forall r :: r in b && r < p ==> !Crowds(points, cands, r, p) {
      forall q | q in b + {p}
        ensures q in a
      {
      }
      SubsetSize(b + {p}, a);
      assert false;
    }
  }

  /** The declarative reading determines the selection. */
  lemma DiverseUnique(points: seq<Point>, cands: seq<Candidate>, m: int, a: set<int>, b: set<int>)
    requires InRange(points, cands)
    requires IsDiverse(points, cands, m, a) && IsDiverse(points, cands, m, b)
    ensures a == b
  {
    DiverseAgree(points, cands, m, a, b, |cands|);
    assert forall p :: p in a <==> p in b;
  }

  /** The positions kept among the first n candidates, scanning from the best. */
  ghost function Kept(points: seq<Point>, cands: seq<Candidate>, m: int, n: nat): (kept: seq<int>)
    requires InRange(points, cands) && n <= |cands|
    ensures |kept| <= n && forall i :: 0 <= i < |kept| ==> 0 <= kept[i] < n
  {
    if n == 0 then []
    else
      var kept := Kept(points, cands, m, n - 1);
      if |kept| >= m || exists r :: r in kept && Crowds(points, cands, r, n - 1) then kept else kept + [n - 1]
  }

  /** Once m are kept the scan changes nothing. */
  lemma {:induction false} KeptStops(points: seq<Point>, cands: seq<Candidate>, m: int, i: nat, n: nat)
    requires InRange(points, cands) && i <= n <= |cands|
    requires |Kept(points, cands, m, i)| >= m
    ensures Kept(points, cands, m, n) == Kept(points, cands, m, i)
  {
    if i < n {
      KeptStops(points, cands, m, i, n - 1);
    }
  }

  ghost function Pick(cands: seq<Candidate>, positions: seq<int>): (r: seq<Candidate>)
    requires forall i :: 0 <= i < |positions| ==> 0 <= positions[i] < |cands|
    ensures |r| == |positions| && forall i :: 0 <= i < |r| ==> r[i] == cands[positions[i]]
  {
    seq(|positions|, i requires 0 <= i < |positions| => cands[positions[i]])
  }

  /** The selection itself: the kept candidates, best first. */
  ghost function Selected(points: seq<Point>, cands: seq<Candidate>, m: int): seq<Candidate>
    requires InRange(points, cands)
  {
    Pick(cands, Kept(points, cands, m, |cands|))
  }

  lemma {:induction false} KeptFacts(points: seq<Point>, cands: seq<Candidate>, m: int, n: nat)
    requires InRange(points, cands) && n <= |cands| && m >= 0
    ensures var kept := Kept(points, cands, m, n);
            && |kept| <= m
            && (forall i, j :: 0 <= i < j < |kept| ==> kept[i] < kept[j])
            && (forall i, j :: 0 <= i < j < |kept| ==> !Crowds(points, cands, kept[i], kept[j]))
            && (n > 0 && m > 0 ==> kept != [] && kept[0] == 0)
  {
    if n > 0 {
      KeptFacts(points, cands, m, n - 1);
      var before, kept := Kept(points, cands, m, n - 1), Kept(points, cands, m, n);
      forall i, j | 0 <= i < j < |kept|
        ensures !Crowds(points, cands, kept[i], kept[j])
      {
        if j == |before| {
          assert before[i] in before;
        }
      }
    }
  }

  lemma {:induction false} DroppedFacts(points: seq<Point>, cands: seq<Candidate>, m: int, n: nat, p: nat)
    requires InRange(points, cands) && p < n <= |cands| && m >= 0
    requires p !in Kept(points, cands, m, n)
    ensures var kept := Kept(points, cands, m, n);
            || (exists r :: r in kept && r < p && Crowds(points, cands, r, p))
            || (|kept| == m && forall r :: r in kept ==> r < p)
  {
    KeptFacts(points, cands, m, n);
    KeptFacts(points, cands, m, n - 1);
    if p < n - 1 {
      DroppedFacts(points, cands, m, n - 1, p);
    }
  }

  ghost function KeptSet(points: seq<Point>, cands: seq<Candidate>, m: int): set<int>
    requires InRange(points, cands)
  {
    set p | p in Kept(points, cands, m, |cands|)
  }

  lemma KeptSetSize(points: seq<Point>, cands: seq<Candidate>, m: int)
    requires InRange(points, cands) && m >= 0
    ensures |KeptSet(points, cands, m)| == |Kept(points, cands, m, |cands|)|
  {
    var kept := Kept(points, cands, m, |cands|);
    KeptFacts(points, cands, m, |cands|);
    assert NoDup(kept);
    NoDupSet(kept);
  }

  lemma KeptNotCrowded(points: seq<Point>, cands: seq<Candidate>, m: int, r: int, p: int)
    requires InRange(points, cands) && m >= 0
    requires r in KeptSet(points, cands, m) && p in KeptSet(points, cands, m) && r < p
    ensures 0 <= r && p < |cands| && !Crowds(points, cands, r, p)
  {
    var kept := Kept(points, cands, m, |cands|);
    KeptFacts(points, cands, m, |cands|);
    var i :| 0 <= i < |kept| && kept[i] == r;
    var j :| 0 <= j < |kept| && kept[j] == p;
    assert i < j;
  }

  /** The scan meets the declarative reading. */
  lemma KeptIsDiverse(points: seq<Point>, cands: seq<Candidate>, m: int)
    requires InRange(points, cands) && m >= 0
    ensures IsDiverse(points, cands, m, KeptSet(points, cands, m))
  {
    var ks := KeptSet(points, cands, m);
    KeptSetSize(points, cands, m);
    KeptFacts(points, cands, m, |cands|);
    forall r, p | r in ks && p in ks && r < p
      ensures !Crowds(points, cands, r, p)
    {
      KeptNotCrowded(points, cands, m, r, p);
    }
    forall p | 0 <= p < |cands| && p !in ks
      ensures (exists r :: r in ks && r < p && Crowds(points, cands, r, p))
              || (|ks| == m && forall r :: r in ks ==> r < p)
    {
      DroppedFacts(points, cands, m, |cands|, p);
    }
  }

  /** The selection is a duplicate-free part of the candidates and leads with the first of them. */
  lemma SelectedFacts(points: seq<Point>, cands: seq<Candidate>, m: int)
    requires InRange(points, cands) && m >= 1
    requires NoDup(Ids(cands))
    ensures var chosen := Selected(points, cands, m);
            && |chosen| <= m
            && (forall c :: c in chosen ==> c in cands)
            && NoDup(Ids(chosen))
            && (cands != [] ==> chosen != [] && chosen[0] == cands[0])
  {
    var kept := Kept(points, cands, m, |cands|);
    var chosen := Selected(points, cands, m);
    KeptFacts(points, cands, m, |cands|);
    forall c | c in chosen
      ensures c in cands
    {
      var i :| 0 <= i < |chosen| && chosen[i] == c;
      assert c == cands[kept[i]];
    }
    forall i, j | 0 <= i < j < |chosen|
      ensures Ids(chosen)[i] != Ids(chosen)[j]
    {
      assert Ids(cands)[kept[i]] != Ids(cands)[kept[j]];
    }
  }

  // ---------- The selection, declared ----------

  /** Positions in a list of n, one after the other. */
  ghost predicate Rising(ps: seq<int>, n: nat) {
    && (forall i :: 0 <= i < |ps| ==> 0 <= ps[i] < n)
    && (forall i, j :: 0 <= i < j < |ps| ==> ps[i] < ps[j])
  }

  ghost predicate StandsAt(cands: seq<Candidate>, ps: seq<int>, chosen: seq<Candidate>)
    requires Rising(ps, |cands|)
  {
    |chosen| == |ps| && forall i :: 0 <= i < |ps| ==> chosen[i] == cands[ps[i]]
  }

  /** `chosen` stands at some positions of the candidates that make a diverse set. */
  ghost predicate IsDiverseChoice(points: seq<Point>, cands: seq<Candidate>, m: int, chosen: seq<Candidate>)
    requires InRange(points, cands)
  {
    exists ps :: Rising(ps, |cands|) && StandsAt(cands, ps, chosen) && IsDiverse(points, cands, m, set p | p in ps)
  }

  lemma CrowdsMeans(points: seq<Point>, cands: seq<Candidate>)
    requires InRange(points, cands)
    ensures forall p :: 0 <= p < |cands| ==> 0 <= cands[p].id < |points|
    ensures forall r, p :: 0 <= r < |cands| && 0 <= p < |cands| ==>
              var x, y := points[cands[p].id], points[cands[r].id];
              Crowds(points, cands, r, p) <==> Cosine(x.vector, x.norm, y.vector, y.norm) > cands[p].similarity
  {
    assert forall p :: 0 <= p < |cands| ==> cands[p] in cands;
    hide Cosine;
  }

  /** What a diverse set is, in terms of similarities alone. */
  lemma DiverseMeans(points: seq<Point>, cands: seq<Candidate>, m: int, kept: set<int>)
    requires InRange(points, cands)
    ensures forall p :: 0 <= p < |cands| ==> 0 <= cands[p].id < |points|
    ensures IsDiverse(points, cands, m, kept) <==>
              && |kept| <= m
              && (forall p :: p in kept ==> 0 <= p < |cands|)
              && (forall r, p :: r in kept && p in kept && r < p ==>
                    var x, y := points[cands[p].id], points[cands[r].id];
                    Cosine(x.vector, x.norm, y.vector, y.norm) <= cands[p].similarity)
              && (forall p :: 0 <= p < |cands| && p !in kept ==>
                    || (exists r :: r in kept && r < p &&
                          var x, y := points[cands[p].id], points[cands[r].id];
                          Cosine(x.vector, x.norm, y.vector, y.norm) > cands[p].similarity)
                    || (|kept| == m && forall r :: r in kept ==> r < p))
  {
    CrowdsMeans(points, cands);
    hide Crowds;
    hide Cosine;
    hide InRange;
  }

  lemma {:induction false} RisingUnique(ps: seq<int>, qs: seq<int>, n: nat)
    requires Rising(ps, n) && Rising(qs, n) && forall x :: x in ps <==> x in qs
    ensures ps == qs
    decreases |ps|
  {
    NoneMissing(ps, qs);
    NoneMissing(qs, ps);
    if ps != [] && qs != [] {
      var p, q := ps[|ps| - 1], qs[|qs| - 1];
      LastIsLargest(ps, n, q);
      LastIsLargest(qs, n, p);
      WithoutLast(ps, n);
      WithoutLast(qs, n);
      RisingUnique(ps[..|ps| - 1], qs[..|qs| - 1], n);
      assert ps == ps[..|ps| - 1] + [p] && qs == qs[..|qs| - 1] + [q];
    }
  }

  lemma NoneMissing(ps: seq<int>, qs: seq<int>)
    requires forall x :: x in qs ==> x in ps
    ensures qs != [] ==> ps != []
  {
    if qs != [] {
      var x := qs[0];
      assert x in qs;
      assert x in ps;
    }
  }

  lemma LastIsLargest(ps: seq<int>, n: nat, x: int)
    requires Rising(ps, n) && x in ps
    ensures ps != [] && x <= ps[|ps| - 1]
  {
  }

  lemma WithoutLast(ps: seq<int>, n: nat)
    requires Rising(ps, n) && ps != []
    ensures var front := ps[..|ps| - 1]; Rising(front, n) && forall x :: x in front <==> x in ps && x != ps[|ps| - 1]
  {
    var front := ps[..|ps| - 1];
    assert ps == front + [ps[|ps| - 1]];
  }

  /** The selection is the diverse choice: it is one, and there is no other. */
  lemma SelectedExactly(points: seq<Point>, cands: seq<Candidate>, m: int, chosen: seq<Candidate>)
    requires InRange(points, cands) && m >= 0
    ensures IsDiverseChoice(points, cands, m, chosen) <==> chosen == Selected(points, cands, m)
  {
    var kept := Kept(points, cands, m, |cands|);
    KeptFacts(points, cands, m, |cands|);
    KeptIsDiverse(points, cands, m);
    assert Rising(kept, |cands|) && KeptSet(points, cands, m) == set p | p in kept;
    hide IsDiverse;
    if chosen == Selected(points, cands, m) {
      assert StandsAt(cands, kept, chosen);
    }
    if IsDiverseChoice(points, cands, m, chosen) {
      var ps :| Rising(ps, |cands|) && StandsAt(cands, ps, chosen) && IsDiverse(points, cands, m, set p | p in ps);
      DiverseUnique(points, cands, m, (set p | p in ps), KeptSet(points, cands, m));
      SameMembers(ps, kept);
      RisingUnique(ps, kept, |cands|);
    }
  }

  lemma SameMembers(ps: seq<int>, qs: seq<int>)
    requires (set p | p in ps) == set q | q in qs
    ensures forall x :: x in ps <==> x in qs
  {
    forall x
      ensures x in ps <==> x in qs
    {
      var a, b := set p | p in ps, set q | q in qs;
      assert x in a <==> x in b;
    }
  }

  /** Where a cap is not positive nothing is selected. */
  lemma {:induction false} NothingSelected(points: seq<Point>, cands: seq<Candidate>, m: int, n: nat)
    requires InRange(points, cands) && m <= 0 && n <= |cands|
    ensures Kept(points, cands, m, n) == []
  {
    if n > 0 {
      NothingSelected(points, cands, m, n - 1);
    }
  }

  /** The positions that a selection stands at. */
  lemma ChoicePositions(points: seq<Point>, cands: seq<Candidate>, m: int)
    requires InRange(points, cands)
    ensures m <= 0 ==> Selected(points, cands, m) == []
    ensures m >= 0 ==> exists ps ::
              && Rising(ps, |cands|) && StandsAt(cands, ps, Selected(points, cands, m))
              && IsDiverse(points, cands, m, set p | p in ps)
  {
    hide IsDiverse;
    if m <= 0 {
      NothingSelected(points, cands, m, |cands|);
    }
    if m >= 0 {
      SelectedExactly(points, cands, m, Selected(points, cands, m));
    }
  }

  // ---------- Pruning ----------

  /** `cands` lists the links of a node with their similarity to it, best first. */
  ghost predicate Ranks(points: seq<Point>, node: int, links: seq<int>, cands: seq<Candidate>) {
    && 0 <= node < |points|
    && InRange(points, cands)
    && BestFirst(cands)
    && multiset(Ids(cands)) == multiset(links)
    && forall c :: c in cands ==> c.similarity == Similarity(points[node], points[c.id])
  }

  /** `pruned` is the diverse selection from some ranking of the node's own links. */
  ghost predicate IsPruned(points: seq<Point>, node: int, links: seq<int>, cap: int, pruned: seq<int>) {
    exists cands :: Ranks(points, node, links, cands) && pruned == Ids(Selected(points, cands, cap))
  }

  lemma NoDupMultiset(a: seq<int>, b: seq<int>)
    requires multiset(a) == multiset(b) && NoDup(a)
    ensures NoDup(b)
    ensures forall x :: x in a <==> x in b
  {
    forall x | x in a || x in b
      ensures x in a && x in b
    {
      assert x in multiset(a) && x in multiset(b);
    }
    NoDupSet(a);
    assert (set x | x in a) == (set x | x in b);
    assert |a| == |multiset(a)| && |b| == |multiset(b)|;
    SetNoDup(b);
  }

  lemma SetNoDup(s: seq<int>)
    requires |set x | x in s| == |s|
    ensures NoDup(s)
    decreases |s|
  {
    if |s| > 0 {
      var n := |s| - 1;
      var front := set x | x in s[..n];
      assert s == s[..n] + [s[n]];
      assert (set x | x in s) == front + {s[n]};
      SetSizeBound(s[..n]);
      SetNoDup(s[..n]);
    }
  }

  lemma SetSizeBound(s: seq<int>)
    ensures |set x | x in s| <= |s|
    decreases |s|
  {
    if |s| > 0 {
      var n := |s| - 1;
      SetSizeBound(s[..n]);
      assert s == s[..n] + [s[n]];
      assert (set x | x in s) == (set x | x in s[..n]) + {s[n]};
    }
  }

  /** Pruning keeps a duplicate-free part of the links, within the cap, and among them one that no
      other link beats: a node never loses its nearest neighbour. */
  lemma PrunedFacts(points: seq<Point>, node: int, links: seq<int>, cap: int, pruned: seq<int>)
    requires IsPruned(points, node, links, cap, pruned)
    requires NoDup(links) && links != [] && cap >= 1
    ensures pruned != [] && |pruned| <= cap && NoDup(pruned)
    ensures pruned[0] in links && forall t :: t in pruned ==> t in links
    ensures 0 <= node < |points| && forall t :: t in links ==> 0 <= t < |points|
    ensures forall t :: t in links ==>
              Similarity(points[node], points[t]) <= Similarity(points[node], points[pruned[0]])
  {
    var cands :| Ranks(points, node, links, cands) && pruned == Ids(Selected(points, cands, cap));
    NoDupMultiset(links, Ids(cands));
    assert |cands| == |links| by {
      assert |multiset(Ids(cands))| == |multiset(links)|;
    }
    SelectedFacts(points, cands, cap);
    forall t | t in links
      ensures 0 <= t < |points|
      ensures Similarity(points[node], points[t]) <= Similarity(points[node], points[pruned[0]])
    {
      var i :| 0 <= i < |cands| && Ids(cands)[i] == t;
      assert cands[i] in cands && cands[0] in cands;
    }
    forall t | t in pruned
      ensures t in links
    {
      var chosen := Selected(points, cands, cap);
      var i :| 0 <= i < |chosen| && Ids(chosen)[i] == t;
      assert chosen[i] in cands;
      var j :| 0 <= j < |cands| && cands[j] == chosen[i];
      assert Ids(cands)[j] == t;
    }
  }

  /** Some ranking of the links by similarity to the node, and the diverse choice from it. */
  ghost predicate IsPrunedDiversely(points: seq<Point>, node: int, links: seq<int>, cap: int, pruned: seq<int>) {
    exists cands, chosen ::
      && InRange(points, cands) && IsRankingOf(points, node, links, cands)
      && IsDiverseChoice(points, cands, cap, chosen) && pruned == Ids(chosen)
  }

  /** The links, each once for each time it stands in the list, with their similarities to the node, falling. */
  ghost predicate IsRankingOf(points: seq<Point>, node: int, links: seq<int>, cands: seq<Candidate>) {
    && 0 <= node < |points| && InRange(points, cands)
    && multiset(Ids(cands)) == multiset(links)
    && (forall i :: 0 <= i < |cands| ==>
          && 0 <= cands[i].id < |points|
          && cands[i].similarity == Cosine(points[node].vector, points[node].norm,
                                           points[cands[i].id].vector, points[cands[i].id].norm))
    && (forall i, j :: 0 <= i < j < |cands| ==> cands[i].similarity >= cands[j].similarity)
  }

  lemma RanksExactly(points: seq<Point>, node: int, links: seq<int>, cands: seq<Candidate>)
    ensures Ranks(points, node, links, cands) <==> IsRankingOf(points, node, links, cands)
  {
    assert forall i :: 0 <= i < |cands| ==> cands[i] in cands;
  }

  /** Pruning is the diverse choice from a ranking of the links. */
  lemma PrunedExactly(points: seq<Point>, node: int, links: seq<int>, cap: int, pruned: seq<int>)
    requires cap >= 0
    ensures IsPruned(points, node, links, cap, pruned) <==> IsPrunedDiversely(points, node, links, cap, pruned)
  {
    hide IsDiverseChoice;
    hide Selected;
    if IsPruned(points, node, links, cap, pruned) {
      var cands :| Ranks(points, node, links, cands) && pruned == Ids(Selected(points, cands, cap));
      RanksExactly(points, node, links, cands);
      SelectedExactly(points, cands, cap, Selected(points, cands, cap));
    }
    if IsPrunedDiversely(points, node, links, cap, pruned) {
      var cands, chosen :|
        && InRange(points, cands) && IsRankingOf(points, node, links, cands)
        && IsDiverseChoice(points, cands, cap, chosen) && pruned == Ids(chosen);
      RanksExactly(points, node, links, cands);
      SelectedExactly(points, cands, cap, chosen);
    }
  }
}
