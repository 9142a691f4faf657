/** Runs of replicated writes. A write is three steps on the primary's side (apply, call the replica,
    finish); writes on different ids interleave freely, on one id they follow each other. */
module Replication {
  import opened NodeSpec
  import opened Results
  import opened Storage
  import opened Vectors
  import opened WriteProtocol

  /** Where a write in flight stands; `Heard` phases carry the outcome of the replica call. */
  datatype Phase =
    | Inserting(a: Article)
    | InsertHeard(a: Article, heard: Reply)
    | Deleting(existing: Article)
    | DeleteHeard(existing: Article, heard: Reply)

  /** An acknowledged write. */
  datatype Write = Put(a: Article) | Remove(id: string)

  datatype Event =
    | StartInsert(a: Article)
    | StartDelete(id: string)
    | CallReplica(id: string, fate: Fate)
    | Finish(id: string)
    | RestartPrimary
    | RestartReplica

  /** `log` is the history of acknowledged writes; `unheard` the ids whose copy on the replica was changed by
      a call with a lost reply since the last acknowledged write on them. */
  datatype Cluster = Cluster(primary: NodeState, replica: NodeState, inFlight: map<string, Phase>,
                             log: seq<Write>, unheard: set<string>)

  /** The id a write is about. */
  function WriteId(w: Write): string {
    match w
    case Put(a) => a.id
    case Remove(id) => id
  }

  ghost function Applied(rows: Rows, w: Write): Rows {
    match w
    case Put(a) => rows[a.id := a]
    case Remove(id) => rows - {id}
  }

  /** The articles an acknowledged history leaves. */
  ghost function Fold(log: seq<Write>): Rows {
    if log == [] then map[] else Applied(Fold(log[..|log| - 1]), log[|log| - 1])
  }

  lemma FoldOne(log: seq<Write>, w: Write)
    ensures Fold(log + [w]) == Applied(Fold(log), w)
  {
    assert (log + [w])[..|log|] == log;
  }

  ghost predicate IsLastWrite(log: seq<Write>, i: int, id: string) {
    0 <= i < |log| && WriteId(log[i]) == id && forall j :: i < j < |log| ==> WriteId(log[j]) != id
  }

  /** What a history leaves under an id is decided by the last write on it. */
  lemma {:induction false} FoldIsLastWrite(log: seq<Write>, id: string)
    ensures (forall i :: 0 <= i < |log| ==> WriteId(log[i]) != id) ==> id !in Fold(log)
    ensures forall i :: IsLastWrite(log, i, id) ==>
              if log[i].Put? then id in Fold(log) && Fold(log)[id] == log[i].a else id !in Fold(log)
    decreases |log|
  {
    if log != [] {
      var n := |log| - 1;
      FoldIsLastWrite(log[..n], id);
      forall i | IsLastWrite(log, i, id) && i < n
        ensures IsLastWrite(log[..n], i, id)
      {
      }
    }
  }

  ghost const EMPTY_CLUSTER: Cluster := Cluster(NodeState(0, map[]), NodeState(0, map[]), map[], [], {})

  // ---------- Steps ----------

  /** Applies the call in flight on the replica's side. */
  ghost function Called(c: Cluster, id: string, fate: Fate): Cluster
    requires id in c.inFlight
  {
    match c.inFlight[id]
    case Inserting(a) =>
      var after := if ReachesReplica(fate) then Inserted(c.replica, a) else c.replica;
      c.(replica := after, inFlight := c.inFlight[id := InsertHeard(a, Heard(InsertReply(c.replica, a), fate))],
         unheard := WithUnheard(c, after, id, fate))
    case Deleting(x) =>
      var after := if ReachesReplica(fate) then AfterDelete(c.replica, id) else c.replica;
      c.(replica := after, inFlight := c.inFlight[id := DeleteHeard(x, Heard(DeleteReply(c.replica, id), fate))],
         unheard := WithUnheard(c, after, id, fate))
    case _ => c
  }

  /** The primary does not hear of a change that the call made. */
  ghost function WithUnheard(c: Cluster, after: NodeState, id: string, fate: Fate): set<string> {
    if fate.ReplyLost? && Lookup(after.articles, id) != Lookup(c.replica.articles, id)
    then c.unheard + {id}
    else c.unheard
  }

  /** Acknowledges, or undoes the primary's half. */
  ghost function Finished(c: Cluster, id: string): Cluster
    requires id in c.inFlight
  {
    var rest := c.inFlight - {id};
    match c.inFlight[id]
    case InsertHeard(a, heard) =>
      if heard.None? then c.(inFlight := rest, log := c.log + [Put(a)], unheard := c.unheard - {id})
      else c.(primary := Deleted(c.primary, id), inFlight := rest)
    case DeleteHeard(x, heard) =>
      if heard.None? || heard == Some(NotFound)
      then c.(inFlight := rest, log := c.log + [Remove(id)], unheard := c.unheard - {id})
      else c.(primary := Inserted(c.primary, x), inFlight := rest)
    case _ => c
  }

  /** One step; an event that is not possible changes nothing, nor does a write the primary refuses. The
      replica may restart at any time, the primary when no write is in flight. */
  ghost function Step(c: Cluster, e: Event): Cluster {
    match e
    case StartInsert(a) =>
      if a.id in c.inFlight || InsertReply(c.primary, a).Some? then c
      else c.(primary := Inserted(c.primary, a), inFlight := c.inFlight[a.id := Inserting(a)])
    case StartDelete(id) =>
      if id in c.inFlight || DeleteReply(c.primary, id).Some? then c
      else c.(primary := Deleted(c.primary, id), inFlight := c.inFlight[id := Deleting(c.primary.articles[id])])
    case CallReplica(id, fate) => if id in c.inFlight then Called(c, id, fate) else c
    case Finish(id) => if id in c.inFlight then Finished(c, id) else c
    case RestartPrimary => if c.inFlight == map[] then c.(primary := Restarted(c.primary)) else c
    case RestartReplica => c.(replica := Restarted(c.replica))
  }

  ghost function RunAll(c: Cluster, events: seq<Event>): Cluster {
    if events == [] then c else Step(RunAll(c, events[..|events| - 1]), events[|events| - 1])
  }

  predicate IsRestart(e: Event) {
    e.RestartPrimary? || e.RestartReplica?
  }

  function IdOf(e: Event): string
    requires !IsRestart(e)
  {
    match e
    case StartInsert(a) => a.id
    case StartDelete(id) => id
    case CallReplica(id, _) => id
    case Finish(id) => id
  }

  // ---------- The invariant ----------

  /** The node would take the article back. */
  ghost predicate Restorable(s: NodeState, x: Article) {
    x.id != "" && VectorFault(x.vector).None? && |x.vector| == s.dimension
  }

  /** What holds of one id, given its copy on the primary, on the replica and in the acknowledged history. */
  ghost predicate IdInv(c: Cluster, id: string) {
    var p, r, f := Lookup(c.primary.articles, id), Lookup(c.replica.articles, id), Lookup(Fold(c.log), id);
    var trusted := id !in c.unheard;
    if id !in c.inFlight then
      p == f && (trusted <==> r == p) && (p.Some? && r.Some? ==> r == p)
    else match c.inFlight[id]
      case Inserting(a) => a.id == id && p == Some(a) && f == None && (trusted <==> r == None)
      case InsertHeard(a, heard) =>
        && a.id == id && p == Some(a) && f == None
        && (if heard.None? then r == Some(a) else trusted <==> r == None)
      case Deleting(x) =>
        && x.id == id && p == None && f == Some(x) && Restorable(c.primary, x)
        && (trusted <==> r == Some(x)) && (r.Some? ==> r == Some(x))
      case DeleteHeard(x, heard) =>
        && x.id == id && p == None && f == Some(x) && Restorable(c.primary, x)
        && (if heard.None? || heard == Some(NotFound) then r == None
            else (trusted <==> r == Some(x)) && (r.Some? ==> r == Some(x)))
  }

  ghost predicate Inv(c: Cluster) {
    NodeOk(c.primary) && NodeOk(c.replica) && forall id :: IdInv(c, id)
  }

  /** A step on one id leaves the others alone. */
  ghost predicate Elsewhere(c: Cluster, d: Cluster, id: string) {
    && (forall other :: other != id ==>
          && Lookup(d.primary.articles, other) == Lookup(c.primary.articles, other)
          && Lookup(d.replica.articles, other) == Lookup(c.replica.articles, other)
          && Lookup(Fold(d.log), other) == Lookup(Fold(c.log), other)
          && (other in d.unheard <==> other in c.unheard)
          && (other in d.inFlight <==> other in c.inFlight)
          && (other in c.inFlight ==> d.inFlight[other] == c.inFlight[other]))
    && (c.primary.dimension != 0 ==> d.primary.dimension == c.primary.dimension)
  }

  lemma ElsewhereKeeps(c: Cluster, d: Cluster, id: string)
    requires Inv(c) && Elsewhere(c, d, id) && NodeOk(d.primary) && NodeOk(d.replica) && IdInv(d, id)
    ensures Inv(d)
  {
    forall other | other != id
      ensures IdInv(d, other)
    {
      assert IdInv(c, other);
    }
  }

  lemma StartInsertKeeps(c: Cluster, a: Article)
    requires Inv(c)
    ensures Inv(Step(c, StartInsert(a)))
  {
    hide Fold;
    assert IdInv(c, a.id);
    ElsewhereKeeps(c, Step(c, StartInsert(a)), a.id);
  }

  lemma StartDeleteKeeps(c: Cluster, id: string)
    requires Inv(c)
    ensures Inv(Step(c, StartDelete(id)))
  {
    hide Fold;
    assert IdInv(c, id);
    ElsewhereKeeps(c, Step(c, StartDelete(id)), id);
  }

  lemma CallElsewhere(c: Cluster, id: string, fate: Fate)
    requires IdInv(c, id)
    ensures Elsewhere(c, Step(c, CallReplica(id, fate)), id)
  {
    hide Fold;
    hide NodeOk;
    hide Restorable;
  }

  lemma CallKeepsNodesOk(c: Cluster, id: string, fate: Fate)
    requires NodeOk(c.primary) && NodeOk(c.replica)
    ensures var d := Step(c, CallReplica(id, fate)); NodeOk(d.primary) && NodeOk(d.replica)
  {
    hide NodeOk;
    hide Inserted;
    hide Deleted;
    if id in c.inFlight {
      match c.inFlight[id] {
        case Inserting(a) => InsertedOk(c.replica, a);
        case Deleting(_) => DeletedOk(c.replica, id);
        case _ =>
      }
    }
  }

  lemma FinishKeepsNodesOk(c: Cluster, id: string)
    requires NodeOk(c.primary) && NodeOk(c.replica)
    ensures var d := Step(c, Finish(id)); NodeOk(d.primary) && NodeOk(d.replica)
  {
    hide NodeOk;
    hide Inserted;
    hide Deleted;
    if id in c.inFlight {
      match c.inFlight[id] {
        case InsertHeard(_, _) => DeletedOk(c.primary, id);
        case DeleteHeard(x, _) => InsertedOk(c.primary, x);
        case _ =>
      }
    }
  }

  lemma CallHere(c: Cluster, id: string, fate: Fate)
    requires IdInv(c, id)
    ensures IdInv(Step(c, CallReplica(id, fate)), id)
  {
    hide Fold;
  }

  lemma CallKeeps(c: Cluster, id: string, fate: Fate)
    requires Inv(c)
    ensures Inv(Step(c, CallReplica(id, fate)))
  {
    assert IdInv(c, id);
    CallElsewhere(c, id, fate);
    CallHere(c, id, fate);
    CallKeepsNodesOk(c, id, fate);
    hide IdInv;
    hide NodeOk;
    hide Called;
    hide Elsewhere;
    ElsewhereKeeps(c, Step(c, CallReplica(id, fate)), id);
  }

  lemma FoldElsewhere(log: seq<Write>, w: Write)
    ensures forall other :: other != WriteId(w) ==> Lookup(Fold(log + [w]), other) == Lookup(Fold(log), other)
  {
    FoldOne(log, w);
  }

  lemma FinishElsewhere(c: Cluster, id: string)
    requires IdInv(c, id)
    ensures Elsewhere(c, Step(c, Finish(id)), id)
  {
    hide Fold;
    hide NodeOk;
    hide Restorable;
    if id in c.inFlight {
      match c.inFlight[id] {
        case InsertHeard(a, _) => FoldElsewhere(c.log, Put(a));
        case DeleteHeard(_, _) => FoldElsewhere(c.log, Remove(id));
        case _ =>
      }
    }
  }

  lemma FoldHere(log: seq<Write>, w: Write)
    ensures Lookup(Fold(log + [w]), WriteId(w)) == match w case Put(a) => Some(a) case Remove(_) => None
  {
    FoldOne(log, w);
  }

  lemma FinishHere(c: Cluster, id: string)
    requires IdInv(c, id)
    ensures IdInv(Step(c, Finish(id)), id)
  {
    hide Fold;
    hide NodeOk;
    if id in c.inFlight {
      match c.inFlight[id] {
        case InsertHeard(a, _) => FoldHere(c.log, Put(a));
        case DeleteHeard(_, _) => FoldHere(c.log, Remove(id));
        case _ =>
      }
    }
  }

  lemma FinishKeeps(c: Cluster, id: string)
    requires Inv(c)
    ensures Inv(Step(c, Finish(id)))
  {
    assert IdInv(c, id);
    FinishElsewhere(c, id);
    FinishHere(c, id);
    FinishKeepsNodesOk(c, id);
    hide IdInv;
    hide NodeOk;
    hide Finished;
    hide Elsewhere;
    ElsewhereKeeps(c, Step(c, Finish(id)), id);
  }

  /** Restarts change no article, and the primary's only when nothing waits to be put back. */
  lemma RestartKeeps(c: Cluster, e: Event)
    requires Inv(c) && IsRestart(e)
    ensures Inv(Step(c, e))
  {
    forall id
      ensures IdInv(Step(c, e), id)
    {
      assert IdInv(c, id);
    }
  }

  /** The invariant of every reachable state. */
  lemma {:induction false} RunKeepsInv(c: Cluster, events: seq<Event>)
    requires Inv(c)
    ensures Inv(RunAll(c, events))
    decreases |events|
  {
    if events != [] {
      var n := |events| - 1;
      RunKeepsInv(c, events[..n]);
      var before := RunAll(c, events[..n]);
      match events[n] {
        case StartInsert(a) => StartInsertKeeps(before, a);
        case StartDelete(id) => StartDeleteKeeps(before, id);
        case CallReplica(id, fate) => CallKeeps(before, id, fate);
        case Finish(id) => FinishKeeps(before, id);
        case RestartPrimary => RestartKeeps(before, events[n]);
        case RestartReplica => RestartKeeps(before, events[n]);
      }
    }
  }

  // ---------- What runs guarantee ----------

  ghost predicate Quiescent(c: Cluster) {
    c.inFlight == map[]
  }

  /** Whatever the network does, between writes the primary holds exactly what the acknowledged writes
      amount to. */
  lemma PrimaryIsAcknowledgedHistory(events: seq<Event>)
    requires Quiescent(RunAll(EMPTY_CLUSTER, events))
    ensures RunAll(EMPTY_CLUSTER, events).primary.articles == Fold(RunAll(EMPTY_CLUSTER, events).log)
  {
    var c := RunAll(EMPTY_CLUSTER, events);
    RunKeepsInv(EMPTY_CLUSTER, events);
    forall id
      ensures Lookup(c.primary.articles, id) == Lookup(Fold(c.log), id)
    {
      assert IdInv(c, id);
    }
    SameLookups(c.primary.articles, Fold(c.log));
  }

  lemma SameLookups(a: Rows, b: Rows)
    requires forall id :: Lookup(a, id) == Lookup(b, id)
    ensures a == b
  {
    forall id
      ensures id in a <==> id in b
      ensures id in a ==> a[id] == b[id]
    {
      assert Lookup(a, id) == Lookup(b, id);
    }
  }

  /** Every rollback is accepted: an insert that failed at the replica can be deleted again, a delete that
      failed there can be inserted again, and either leaves the id as the acknowledged history has it. */
  lemma RollbackSucceeds(c: Cluster, id: string)
    requires Inv(c) && id in c.inFlight
    ensures c.inFlight[id].InsertHeard? && c.inFlight[id].heard.Some? ==> DeleteRefusal(c.primary, id).None?
    ensures c.inFlight[id].DeleteHeard? ==> InsertRefusal(c.primary, c.inFlight[id].existing).None?
    ensures (c.inFlight[id].InsertHeard? || c.inFlight[id].DeleteHeard?) ==>
              var d := Step(c, Finish(id));
              id !in d.inFlight && Lookup(d.primary.articles, id) == Lookup(Fold(d.log), id)
  {
    assert IdInv(c, id);
    FinishKeeps(c, id);
    assert IdInv(Step(c, Finish(id)), id);
  }

  /** An acknowledged insert leaves the same article on both nodes, an acknowledged delete leaves it on
      neither. */
  lemma AcknowledgedOnBoth(c: Cluster, e: Event)
    requires Inv(c) && Step(c, e).log != c.log
    ensures var d := Step(c, e);
            && e.Finish? && |d.log| == |c.log| + 1 && d.log[..|c.log|] == c.log
            && match d.log[|c.log|]
               case Put(a) => Lookup(d.primary.articles, a.id) == Lookup(d.replica.articles, a.id) == Some(a)
               case Remove(id) => Lookup(d.primary.articles, id) == Lookup(d.replica.articles, id) == None
  {
    assert IdInv(c, IdOf(e));
  }

  ghost predicate NoReplyLost(events: seq<Event>) {
    forall i :: 0 <= i < |events| && events[i].CallReplica? ==> !events[i].fate.ReplyLost?
  }

  lemma {:induction false} NothingUnheard(events: seq<Event>)
    requires NoReplyLost(events)
    ensures RunAll(EMPTY_CLUSTER, events).unheard == {}
    decreases |events|
  {
    if events != [] {
      var n := |events| - 1;
      assert forall i :: 0 <= i < n ==> events[..n][i] == events[i];
      NothingUnheard(events[..n]);
    }
  }

  /** At an id that is not being written the two nodes differ if and only if a call changed the replica's copy
      and its reply was lost since the last acknowledged write; one of them then lacks it. */
  lemma NodesAgree(events: seq<Event>, id: string)
    requires id !in RunAll(EMPTY_CLUSTER, events).inFlight
    ensures var c := RunAll(EMPTY_CLUSTER, events);
            var p, r := Lookup(c.primary.articles, id), Lookup(c.replica.articles, id);
            && (p != r <==> id in c.unheard)
            && (p != r ==> p == None || r == None)
  {
    RunKeepsInv(EMPTY_CLUSTER, events);
    assert IdInv(RunAll(EMPTY_CLUSTER, events), id);
  }

  /** Event i of a run is a call about the id that changed the replica and whose reply was lost. */
  ghost predicate LostChange(events: seq<Event>, i: nat, id: string)
    requires i < |events|
  {
    && events[i].CallReplica? && events[i].id == id && events[i].fate.ReplyLost?
    && Lookup(RunAll(EMPTY_CLUSTER, events[..i + 1]).replica.articles, id)
       != Lookup(RunAll(EMPTY_CLUSTER, events[..i]).replica.articles, id)
  }

  /** Event i of a run acknowledges a write on the id. */
  ghost predicate Acknowledges(events: seq<Event>, i: nat, id: string)
    requires i < |events|
  {
    var before, after := RunAll(EMPTY_CLUSTER, events[..i]).log, RunAll(EMPTY_CLUSTER, events[..i + 1]).log;
    |after| == |before| + 1 && WriteId(after[|before|]) == id
  }

  /** Some lost change of the id has not been followed by an acknowledged write on it. */
  ghost predicate Outstanding(events: seq<Event>, id: string) {
    exists i ::
      && 0 <= i < |events| && LostChange(events, i, id)
      && forall j :: i < j < |events| ==> !Acknowledges(events, j, id)
  }

  /** The same condition read off the run itself. */
  lemma {:induction false} OutstandingIsUnheard(events: seq<Event>, id: string)
    ensures id in RunAll(EMPTY_CLUSTER, events).unheard <==> Outstanding(events, id)
    ensures id !in RunAll(EMPTY_CLUSTER, events).inFlight ==>
              var c := RunAll(EMPTY_CLUSTER, events);
              Lookup(c.primary.articles, id) != Lookup(c.replica.articles, id) <==> Outstanding(events, id)
    decreases |events|
  {
    if events != [] {
      var n := |events| - 1;
      OutstandingIsUnheard(events[..n], id);
      RunKeepsInv(EMPTY_CLUSTER, events[..n]);
      UnheardStep(RunAll(EMPTY_CLUSTER, events[..n]), events[n], id);
      assert events[..n + 1] == events;
      OutstandingStep(events, id);
    }
    if id !in RunAll(EMPTY_CLUSTER, events).inFlight {
      NodesAgree(events, id);
    }
  }

  lemma PastIsPast(events: seq<Event>, i: nat, id: string)
    requires i < |events| - 1
    ensures var front := events[..|events| - 1];
            LostChange(front, i, id) == LostChange(events, i, id)
              && Acknowledges(front, i, id) == Acknowledges(events, i, id)
  {
    hide RunAll;
    var front := events[..|events| - 1];
    assert front[i] == events[i] && front[..i] == events[..i] && front[..i + 1] == events[..i + 1];
  }

  lemma OutstandingStep(events: seq<Event>, id: string)
    requires events != []
    ensures var n := |events| - 1;
            Outstanding(events, id) <==>
              LostChange(events, n, id) || (Outstanding(events[..n], id) && !Acknowledges(events, n, id))
  {
    hide LostChange;
    hide Acknowledges;
    var n := |events| - 1;
    var front := events[..n];
    forall i: nat | i < n
      ensures LostChange(front, i, id) == LostChange(events, i, id)
      ensures Acknowledges(front, i, id) == Acknowledges(events, i, id)
    {
      PastIsPast(events, i, id);
    }
    if Outstanding(front, id) && !Acknowledges(events, n, id) {
      var i :| 0 <= i < n && LostChange(front, i, id) && forall j :: i < j < n ==> !Acknowledges(front, j, id);
      assert LostChange(events, i, id);
    }
    if Outstanding(events, id) && !LostChange(events, n, id) {
      var i :| 0 <= i <= n && LostChange(events, i, id) && forall j :: i < j <= n ==> !Acknowledges(events, j, id);
      assert i < n && LostChange(front, i, id);
    }
  }

  /** How one step changes the ledger of unheard changes. */
  lemma UnheardStep(c: Cluster, e: Event, id: string)
    requires Inv(c)
    ensures var d := Step(c, e);
            var lost := e.CallReplica? && e.id == id && e.fate.ReplyLost?
                        && Lookup(d.replica.articles, id) != Lookup(c.replica.articles, id);
            var acked := |d.log| == |c.log| + 1 && WriteId(d.log[|c.log|]) == id;
            id in d.unheard <==> lost || (id in c.unheard && !acked)
  {
    if !IsRestart(e) {
      assert IdInv(c, IdOf(e));
    }
  }

  /** If every replica call that failed had no effect, the nodes are equal at rest. */
  lemma ReplicasEqualAtRest(events: seq<Event>)
    requires NoReplyLost(events) && Quiescent(RunAll(EMPTY_CLUSTER, events))
    ensures var c := RunAll(EMPTY_CLUSTER, events);
            c.replica.articles == c.primary.articles == Fold(c.log)
  {
    var c := RunAll(EMPTY_CLUSTER, events);
    PrimaryIsAcknowledgedHistory(events);
    NothingUnheard(events);
    forall id
      ensures Lookup(c.replica.articles, id) == Lookup(c.primary.articles, id)
    {
      NodesAgree(events, id);
    }
    SameLookups(c.replica.articles, c.primary.articles);
  }

  // ---------- Lost replies ----------

  /** The three steps of one write, nothing in between. */
  ghost function InsertEvents(a: Article, fate: Fate): seq<Event> {
    [StartInsert(a), CallReplica(a.id, fate), Finish(a.id)]
  }

  ghost function DeleteEvents(id: string, fate: Fate): seq<Event> {
    [StartDelete(id), CallReplica(id, fate), Finish(id)]
  }

  lemma RunThree(c: Cluster, x: Event, y: Event, z: Event)
    ensures RunAll(c, [x, y, z]) == Step(Step(Step(c, x), y), z)
  {
    assert [x, y, z][..2] == [x, y] && [x, y][..1] == [x] && [x][..0] == [];
    assert RunAll(c, []) == c;
    assert RunAll(c, [x]) == Step(c, x);
    assert RunAll(c, [x, y]) == Step(Step(c, x), y);
  }

  /** Run without interruption, the three steps are the handler's Insert. */
  lemma InsertIsItsSteps(c: Cluster, a: Article, fate: Fate)
    requires Inv(c) && a.id !in c.inFlight
    ensures var d := RunAll(c, InsertEvents(a, fate));
            var (after, reply) := PrimaryInsert(Pair(c.primary, c.replica), a, fate);
            && Pair(d.primary, d.replica) == after
            && d.log == (if reply.None? then c.log + [Put(a)] else c.log)
            && d.inFlight == c.inFlight
  {
    RunThree(c, StartInsert(a), CallReplica(a.id, fate), Finish(a.id));
    if InsertReply(c.primary, a).None? {
      assert c.inFlight[a.id := Inserting(a)] - {a.id} == c.inFlight;
      var heard := Heard(InsertReply(c.replica, a), fate);
      assert c.inFlight[a.id := Inserting(a)][a.id := InsertHeard(a, heard)] - {a.id} == c.inFlight;
    }
  }

  /** And likewise for Delete. */
  lemma DeleteIsItsSteps(c: Cluster, id: string, fate: Fate)
    requires Inv(c) && id !in c.inFlight
    ensures var d := RunAll(c, DeleteEvents(id, fate));
            var (after, reply) := PrimaryDelete(Pair(c.primary, c.replica), id, fate);
            && Pair(d.primary, d.replica) == after
            && d.log == (if reply.None? then c.log + [Remove(id)] else c.log)
            && d.inFlight == c.inFlight
  {
    RunThree(c, StartDelete(id), CallReplica(id, fate), Finish(id));
    if DeleteReply(c.primary, id).None? {
      var x := c.primary.articles[id];
      var heard := Heard(DeleteReply(c.replica, id), fate);
      assert c.inFlight[id := Deleting(x)][id := DeleteHeard(x, heard)] - {id} == c.inFlight;
    }
  }

  /** An acknowledged delete of an article that only the primary still holds removes the difference. */
  lemma DeleteRepairs(c: Cluster, id: string)
    requires Inv(c) && id !in c.inFlight
    requires id in c.primary.articles && id !in c.replica.articles
    ensures var d := RunAll(c, DeleteEvents(id, Delivered));
            && d.log == c.log + [Remove(id)]
            && id !in d.primary.articles && id !in d.replica.articles && id !in d.unheard
  {
    assert IdInv(c, id);
    RunThree(c, StartDelete(id), CallReplica(id, Delivered), Finish(id));
  }

  /** Only the replica holds the id, and no write on it is about to be acknowledged. */
  ghost predicate Stranded(c: Cluster, id: string, a: Article) {
    && Lookup(c.replica.articles, id) == Some(a)
    && Lookup(Fold(c.log), id) == None
    && (id !in c.inFlight ==> Lookup(c.primary.articles, id) == None)
    && (id in c.inFlight ==> c.inFlight[id].Inserting? || (c.inFlight[id].InsertHeard? && c.inFlight[id].heard.Some?))
  }

  /** A step that acknowledges nothing, or a write on another id. */
  ghost predicate LeavesHistoryOf(c: Cluster, d: Cluster, id: string) {
    d.log == c.log || (|d.log| == |c.log| + 1 && d.log[..|c.log|] == c.log && WriteId(d.log[|c.log|]) != id)
  }

  lemma StrandedFinish(c: Cluster, e: Event, id: string, a: Article)
    requires Inv(c) && Stranded(c, id, a) && e.Finish?
    ensures Stranded(Step(c, e), id, a) && LeavesHistoryOf(c, Step(c, e), id)
  {
    assert IdInv(c, id) && IdInv(c, e.id);
    if e.id in c.inFlight {
      match c.inFlight[e.id] {
        case InsertHeard(b, _) => FoldOne(c.log, Put(b));
        case DeleteHeard(_, _) => FoldOne(c.log, Remove(e.id));
        case _ =>
      }
    }
  }

  lemma StrandedStep(c: Cluster, e: Event, id: string, a: Article)
    requires Inv(c) && Stranded(c, id, a)
    ensures Stranded(Step(c, e), id, a) && LeavesHistoryOf(c, Step(c, e), id)
  {
    if e.Finish? {
      StrandedFinish(c, e, id, a);
    } else {
      assert IdInv(c, id) && (IsRestart(e) || IdInv(c, IdOf(e)));
    }
  }

  /** The history of a cluster extended by writes on other ids only. */
  ghost predicate NoWriteOn(log: seq<Write>, longer: seq<Write>, id: string) {
    && |log| <= |longer| && longer[..|log|] == log
    && forall i :: |log| <= i < |longer| ==> WriteId(longer[i]) != id
  }

  lemma HistoryGrowsElsewhere(log: seq<Write>, c: Cluster, d: Cluster, id: string)
    requires NoWriteOn(log, c.log, id) && LeavesHistoryOf(c, d, id)
    ensures NoWriteOn(log, d.log, id)
  {
    forall i | |log| <= i < |d.log|
      ensures WriteId(d.log[i]) != id
    {
      assert i < |c.log| ==> d.log[i] == c.log[i];
    }
    assert d.log[..|log|] == c.log[..|log|];
  }

  /** Once a lost reply has left an article on the replica alone, its id is stuck: no later write on it is
      ever acknowledged, whatever the network does, and the replica keeps the article. */
  lemma {:induction false} StrandedForever(c: Cluster, events: seq<Event>, id: string, a: Article)
    requires Inv(c) && Stranded(c, id, a)
    ensures Stranded(RunAll(c, events), id, a) && NoWriteOn(c.log, RunAll(c, events).log, id)
    decreases |events|
  {
    if events != [] {
      var n := |events| - 1;
      StrandedForever(c, events[..n], id, a);
      RunKeepsInv(c, events[..n]);
      hide Inv;
      hide Stranded;
      hide Step;
      hide NoWriteOn;
      hide LeavesHistoryOf;
      StrandedStep(RunAll(c, events[..n]), events[n], id, a);
      HistoryGrowsElsewhere(c.log, RunAll(c, events[..n]), RunAll(c, events), id);
    }
  }

  /** That state is reached by one insertion whose reply is lost. */
  lemma LostReplyStrands(c: Cluster, a: Article, code: NetCode)
    requires Inv(c) && a.id !in c.inFlight
    requires InsertReply(c.primary, a).None? && InsertReply(c.replica, a).None?
    ensures Stranded(RunAll(c, InsertEvents(a, ReplyLost(code))), a.id, a)
  {
    assert IdInv(c, a.id);
    InsertIsItsSteps(c, a, ReplyLost(code));
  }
}
