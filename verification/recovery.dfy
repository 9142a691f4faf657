/** What can still be written after failures, over runs of replicated writes. */
module Recovery {
  import opened NodeSpec
  import opened Replication
  import opened Results
  import opened Storage
  import opened Vectors
  import opened WriteProtocol

  ghost function PairOf(c: Cluster): Pair {
    Pair(c.primary, c.replica)
  }

  lemma {:induction false} RunConcat(c: Cluster, a: seq<Event>, b: seq<Event>)
    ensures RunAll(c, a + b) == RunAll(RunAll(c, a), b)
    decreases |b|
  {
    if b == [] {
      assert a + b == a;
    } else {
      var n := |b| - 1;
      assert (a + b)[..|a| + n] == a + b[..n];
      RunConcat(c, a, b[..n]);
    }
  }

  lemma RunOne(c: Cluster, e: Event)
    ensures RunAll(c, [e]) == Step(c, e)
  {
    assert [e][..0] == [];
    assert RunAll(c, []) == c;
  }

  // ---------- Dimensions that part ----------

  /** Two articles that any new node would take, of different dimensions. */
  ghost predicate Mismatched(x: Article, y: Article) {
    && x.id != "" && VectorFault(x.vector).None?
    && y.id != "" && VectorFault(y.vector).None?
    && |x.vector| != |y.vector|
  }

  /** An article comes and goes, the primary restarts, and an article of another dimension is tried. */
  ghost function PartingEvents(x: Article, y: Article): seq<Event> {
    InsertEvents(x, Delivered) + DeleteEvents(x.id, Delivered) + [RestartPrimary] + InsertEvents(y, Delivered)
  }

  lemma ComesAndGoes(c: Cluster, x: Article)
    requires c == EMPTY_CLUSTER && x.id != "" && VectorFault(x.vector).None?
    ensures var d := RunAll(c, InsertEvents(x, Delivered) + DeleteEvents(x.id, Delivered));
            && d.primary == d.replica == NodeState(|x.vector|, map[])
            && d.inFlight == map[] && d.log == [Put(x), Remove(x.id)]
  {
    RunConcat(c, InsertEvents(x, Delivered), DeleteEvents(x.id, Delivered));
    RunKeepsInv(c, InsertEvents(x, Delivered));
    InsertIsItsSteps(c, x, Delivered);
    var mid := RunAll(c, InsertEvents(x, Delivered));
    assert mid.primary == mid.replica == NodeState(|x.vector|, map[x.id := x]);
    DeleteIsItsSteps(mid, x.id, Delivered);
    assert map[x.id := x] - {x.id} == map[];
  }

  lemma RestartForgets(c: Cluster, dimension: nat)
    requires c.primary == c.replica == NodeState(dimension, map[]) && c.inFlight == map[]
    ensures RunAll(c, [RestartPrimary]) == c.(primary := NodeState(0, map[]))
  {
    RunOne(c, RestartPrimary);
  }

  /** The insertion that settles a dimension on the primary alone. */
  lemma TriedInVain(c: Cluster, dimension: nat, y: Article)
    requires Inv(c) && c.primary == NodeState(0, map[]) && c.replica == NodeState(dimension, map[])
    requires c.inFlight == map[]
    requires dimension != 0 && y.id != "" && VectorFault(y.vector).None? && |y.vector| != dimension
    ensures var d := RunAll(c, InsertEvents(y, Delivered));
            && d.primary == NodeState(|y.vector|, map[]) && d.replica == c.replica
            && d.inFlight == map[] && d.log == c.log
  {
    InsertIsItsSteps(c, y, Delivered);
    DeleteUndoesInsert(c.primary, y);
  }

  lemma NothingIsAcknowledged(p: Pair)
    requires !DimensionsMeet(p)
    ensures forall z, fate :: PrimaryInsert(p, z, fate).1.Some?
  {
  }

  /** Without a single lost reply two empty nodes end up on different dimensions, and then no insertion is
      acknowledged, whatever the article and whatever the network does. */
  lemma DimensionsPart(x: Article, y: Article)
    requires Mismatched(x, y)
    ensures NoReplyLost(PartingEvents(x, y))
    ensures var c := RunAll(EMPTY_CLUSTER, PartingEvents(x, y));
            && c.primary == NodeState(|y.vector|, map[]) && c.replica == NodeState(|x.vector|, map[])
            && c.inFlight == map[] && c.log == [Put(x), Remove(x.id)]
            && !DimensionsMeet(PairOf(c))
            && forall z, fate :: PrimaryInsert(PairOf(c), z, fate).1.Some?
  {
    var first := InsertEvents(x, Delivered) + DeleteEvents(x.id, Delivered);
    var middle := first + [RestartPrimary];
    ComesAndGoes(EMPTY_CLUSTER, x);
    RunConcat(EMPTY_CLUSTER, first, [RestartPrimary]);
    RunConcat(EMPTY_CLUSTER, middle, InsertEvents(y, Delivered));
    RunKeepsInv(EMPTY_CLUSTER, middle);
    hide RunAll;
    hide Inv;
    RestartForgets(RunAll(EMPTY_CLUSTER, first), |x.vector|);
    TriedInVain(RunAll(EMPTY_CLUSTER, middle), |x.vector|, y);
    NothingIsAcknowledged(PairOf(RunAll(EMPTY_CLUSTER, PartingEvents(x, y))));
    hide PrimaryInsert;
  }

  // ---------- Which ids can still be written ----------

  /** The longer history goes on with a write on the id, sooner or later. */
  ghost predicate WritesAgain(log: seq<Write>, longer: seq<Write>, id: string) {
    log <= longer && exists i :: |log| <= i < |longer| && WriteId(longer[i]) == id
  }

  ghost predicate HeldByNeither(c: Cluster, id: string) {
    id !in c.primary.articles && id !in c.replica.articles
  }

  /** A state at rest in which an article with the id could be inserted. */
  ghost predicate Ready(c: Cluster, d: Cluster, id: string) {
    Inv(d) && Quiescent(d) && HeldByNeither(d, id) && DimensionsMeet(PairOf(d)) && c.log <= d.log
  }

  lemma RestartedReplicaIsReady(c: Cluster, id: string)
    requires Inv(c) && Quiescent(c) && HeldByNeither(c, id) && c.replica.articles == map[]
    ensures Ready(c, RunAll(c, [RestartReplica]), id)
  {
    RunOne(c, RestartReplica);
    RunKeepsInv(c, [RestartReplica]);
  }

  lemma RestartedPrimaryIsReady(c: Cluster, id: string)
    requires Inv(c) && Quiescent(c) && HeldByNeither(c, id) && c.primary.articles == map[]
    ensures Ready(c, RunAll(c, [RestartPrimary]), id)
  {
    RunOne(c, RestartPrimary);
    RunKeepsInv(c, [RestartPrimary]);
  }

  lemma DeleteOther(c: Cluster, id: string, other: string)
    requires Inv(c) && Quiescent(c) && HeldByNeither(c, id) && other in c.primary.articles
    ensures var d := RunAll(c, DeleteEvents(other, Delivered));
            && Inv(d) && Quiescent(d) && HeldByNeither(d, id)
            && d.primary.articles == c.primary.articles - {other} && d.log == c.log + [Remove(other)]
  {
    RunKeepsInv(c, DeleteEvents(other, Delivered));
    DeleteIsItsSteps(c, other, Delivered);
  }

  /** Nodes whose dimensions do not meet can be brought together again: an empty node forgets its dimension when
      it restarts, and the primary can be emptied. */
  lemma {:induction false} Reconcile(c: Cluster, id: string) returns (events: seq<Event>)
    requires Inv(c) && Quiescent(c) && HeldByNeither(c, id)
    ensures Ready(c, RunAll(c, events), id)
    decreases |c.primary.articles|
  {
    hide Inv;
    if DimensionsMeet(PairOf(c)) {
      events := [];
    } else if c.replica.articles == map[] {
      RestartedReplicaIsReady(c, id);
      events := [RestartReplica];
    } else if c.primary.articles == map[] {
      RestartedPrimaryIsReady(c, id);
      events := [RestartPrimary];
    } else {
      var other :| other in c.primary.articles;
      var d := RunAll(c, DeleteEvents(other, Delivered));
      DeleteOther(c, id, other);
      assert c.primary.articles.Keys == (c.primary.articles - {other}).Keys + {other};
      var rest := Reconcile(d, id);
      events := DeleteEvents(other, Delivered) + rest;
      RunConcat(c, DeleteEvents(other, Delivered), rest);
    }
  }

  lemma InsertWhenReady(c: Cluster, d: Cluster, id: string) returns (events: seq<Event>)
    requires Ready(c, d, id) && id != ""
    ensures WritesAgain(c.log, RunAll(d, events).log, id)
  {
    var p := PairOf(d);
    InsertableIfDimensionsMeet(p, id);
    var a := Plain(id, if p.primary.dimension == 0 then p.replica.dimension else p.primary.dimension);
    events := InsertEvents(a, Delivered);
    InsertIsItsSteps(d, a, Delivered);
    var longer := RunAll(d, events).log;
    assert longer == d.log + [Put(a)];
    assert WriteId(longer[|d.log|]) == id;
  }

  lemma DeleteAgain(c: Cluster, id: string)
    requires Inv(c) && Quiescent(c) && id in c.primary.articles
    ensures WritesAgain(c.log, RunAll(c, DeleteEvents(id, Delivered)).log, id)
  {
    DeleteIsItsSteps(c, id, Delivered);
    var longer := RunAll(c, DeleteEvents(id, Delivered)).log;
    assert IdInv(c, id);
    assert WriteId(longer[|c.log|]) == id;
  }

  lemma StrandedNeverAgain(c: Cluster, id: string, events: seq<Event>)
    requires Inv(c) && Quiescent(c) && id in c.replica.articles && id !in c.primary.articles
    ensures !WritesAgain(c.log, RunAll(c, events).log, id)
  {
    assert IdInv(c, id);
    StrandedForever(c, events, id, c.replica.articles[id]);
  }

  /** From any state at rest some continuation acknowledges a write on the id, unless the replica alone holds it;
      then none does. */
  lemma WritableUnlessStranded(c: Cluster, id: string)
    requires Inv(c) && Quiescent(c) && id != ""
    ensures (exists events :: WritesAgain(c.log, RunAll(c, events).log, id))
       <==> !(id in c.replica.articles && id !in c.primary.articles)
  {
    hide WritesAgain;
    hide RunAll;
    hide Inv;
    if id in c.primary.articles {
      DeleteAgain(c, id);
      var events := DeleteEvents(id, Delivered);
      assert WritesAgain(c.log, RunAll(c, events).log, id);
    } else if id in c.replica.articles {
      forall events
        ensures !WritesAgain(c.log, RunAll(c, events).log, id)
      {
        StrandedNeverAgain(c, id, events);
      }
    } else {
      var first := Reconcile(c, id);
      var next := InsertWhenReady(c, RunAll(c, first), id);
      RunConcat(c, first, next);
      var events := first + next;
      assert WritesAgain(c.log, RunAll(c, events).log, id);
    }
  }
}
