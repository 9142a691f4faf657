/** The replicated writes of internal/shardpb/server.go as functions on the states of a primary and its
    replica, under a network that may fail a call before or after its effect. */
module WriteProtocol {
  import opened NodeSpec
  import opened Results
  import opened Storage
  import opened Vectors

  datatype Code = InvalidArgument | NotFound | Internal | Unavailable | DeadlineExceeded | OtherCode

  /** The codes a transport makes up for a call that failed on the way; NotFound comes from a handler only. */
  type NetCode = c: Code | c != NotFound witness Unavailable

  /** What the network does to the call to the replica. */
  datatype Fate =
    | DialFailed
    | RequestLost(code: NetCode)  // the replica never sees the call
    | ReplyLost(code: NetCode)    // the replica acts, the primary sees an error
    | Delivered

  /** A handler's outcome: None is an acknowledgement. */
  type Reply = Option<Code>

  datatype Pair = Pair(primary: NodeState, replica: NodeState)

  // ---------- One node ----------

  ghost function InsertReply(s: NodeState, a: Article): Reply {
    if InsertRefusal(s, a).Some? then Some(Internal) else None
  }

  ghost function DeleteReply(s: NodeState, id: string): Reply {
    if id == "" then Some(InvalidArgument) else if id in s.articles then None else Some(NotFound)
  }

  /** The handler's answer to a get. */
  function ServerGet(s: NodeState, id: string): Result<Article, Code> {
    if id == "" then Err(InvalidArgument) else if id in s.articles then Ok(s.articles[id]) else Err(NotFound)
  }

  ghost function AfterDelete(s: NodeState, id: string): NodeState {
    if DeleteReply(s, id).None? then Deleted(s, id) else s
  }

  // ---------- The call to the replica ----------

  ghost function ReachesReplica(fate: Fate): bool {
    fate.Delivered? || fate.ReplyLost?
  }

  /** What the primary hears, given what the replica would answer. */
  ghost function Heard(answer: Reply, fate: Fate): Reply {
    match fate
    case DialFailed => Some(Unavailable)
    case RequestLost(code) => Some(code)
    case ReplyLost(code) => Some(code)
    case Delivered => answer
  }

  // ---------- A whole write ----------

  /** Insert on the primary, then on the replica; any error from there takes the first insert back. */
  ghost function PrimaryInsert(p: Pair, a: Article, fate: Fate): (Pair, Reply) {
    if InsertReply(p.primary, a).Some? then (p, Some(Internal))
    else
      var primary := Inserted(p.primary, a);
      var replica := if ReachesReplica(fate) then Inserted(p.replica, a) else p.replica;
      var heard := Heard(InsertReply(p.replica, a), fate);
      if heard.None? then (Pair(primary, replica), None) else (Pair(Deleted(primary, a.id), replica), heard)
  }

  /** Delete on the primary, then on the replica, where a missing article counts as deleted; any other
      error puts the primary's article back. */
  ghost function PrimaryDelete(p: Pair, id: string, fate: Fate): (Pair, Reply) {
    if DeleteReply(p.primary, id).Some? then (p, DeleteReply(p.primary, id))
    else
      var existing := p.primary.articles[id];
      var primary := Deleted(p.primary, id);
      var replica := if ReachesReplica(fate) then AfterDelete(p.replica, id) else p.replica;
      var heard := Heard(DeleteReply(p.replica, id), fate);
      if heard.None? || heard == Some(NotFound) then (Pair(primary, replica), None)
      else (Pair(Inserted(primary, existing), replica), heard)
  }

  // ---------- Writes, case by case ----------

  /** A node takes no second article under an id, no empty id, no zero vector and, once it has settled on a
      dimension, no other; an empty vector counts as zero. */
  ghost predicate Refuses(s: NodeState, a: Article) {
    || a.id in s.articles
    || |a.id| == 0
    || (forall i :: 0 <= i < |a.vector| ==> a.vector[i] == 0.0)
    || (s.dimension > 0 && |a.vector| != s.dimension)
  }

  /** What an insertion leaves on each node and replies, in every case: a refusal of either node is an internal
      error, a call that fails is reported with its own code, and then the primary gives the article up again. */
  lemma InsertCaseByCase(p: Pair, a: Article, fate: Fate)
    ensures var (after, reply) := PrimaryInsert(p, a, fate);
            if Refuses(p.primary, a) then after == p && reply == Some(Internal)
            else
              && (reply == match fate
                           case DialFailed => Some(Unavailable)
                           case RequestLost(code) => Some(code)
                           case ReplyLost(code) => Some(code)
                           case Delivered => if Refuses(p.replica, a) then Some(Internal) else None)
              && after.primary.dimension == |a.vector|
              && after.primary.articles == (if reply == None then p.primary.articles[a.id := a] else p.primary.articles)
              && after.replica == (if (fate == Delivered || fate.ReplyLost?) && !Refuses(p.replica, a)
                                   then NodeState(|a.vector|, p.replica.articles[a.id := a]) else p.replica)
  {
    if !Refuses(p.primary, a) {
      assert p.primary.articles[a.id := a] - {a.id} == p.primary.articles;
    }
  }

  /** Likewise a deletion: a replica that has no such article counts as done, and when the call fails the primary
      takes the article back. */
  lemma DeleteCaseByCase(p: Pair, id: string, fate: Fate)
    requires PairOk(p)
    ensures var (after, reply) := PrimaryDelete(p, id, fate);
            if |id| == 0 then after == p && reply == Some(InvalidArgument)
            else if id !in p.primary.articles then after == p && reply == Some(NotFound)
            else
              && (reply == match fate
                           case DialFailed => Some(Unavailable)
                           case RequestLost(code) => Some(code)
                           case ReplyLost(code) => Some(code)
                           case Delivered => None)
              && after.primary.dimension == p.primary.dimension && after.replica.dimension == p.replica.dimension
              && after.primary.articles == (if reply == None then p.primary.articles - {id} else p.primary.articles)
              && after.replica.articles == (if fate == Delivered || fate.ReplyLost? then p.replica.articles - {id}
                                            else p.replica.articles)
  {
    if id in p.primary.articles {
      InsertUndoesDelete(p.primary, id);
    }
    assert id !in p.replica.articles ==> p.replica.articles - {id} == p.replica.articles;
  }

  // ---------- What one write does to one id ----------

  function Lookup(rows: Rows, id: string): Option<Article> {
    if id in rows then Some(rows[id]) else None
  }

  /** How the two copies of an id stand to each other between writes. */
  datatype Standing = Neither | Both(a: Article) | OnlyPrimary(a: Article) | OnlyReplica(a: Article) | Torn

  ghost function StandingOf(p: Pair, id: string): Standing {
    match (Lookup(p.primary.articles, id), Lookup(p.replica.articles, id))
    case (None, None) => Neither
    case (Some(a), None) => OnlyPrimary(a)
    case (None, Some(b)) => OnlyReplica(b)
    case (Some(a), Some(b)) => if a == b then Both(a) else Torn
  }

  ghost predicate PairOk(p: Pair) {
    NodeOk(p.primary) && NodeOk(p.replica)
  }

  /** An insertion that is not acknowledged leaves both nodes as they were, dimensions included, if and only if
      the primary refused it, or had settled a dimension before and no change on the replica went unheard. */
  ghost predicate LeavesNoTrace(p: Pair, a: Article, fate: Fate) {
    InsertReply(p.primary, a).Some?
      || (p.primary.dimension != 0 && (fate.ReplyLost? ==> InsertReply(p.replica, a).Some?))
  }

  lemma FailedInsertLeavesPair(p: Pair, a: Article, fate: Fate)
    requires PairOk(p) && PrimaryInsert(p, a, fate).1.Some?
    ensures PrimaryInsert(p, a, fate).0 == p <==> LeavesNoTrace(p, a, fate)
    ensures LeavesNoTrace(p, a, fate) || fate.ReplyLost? ||
              PrimaryInsert(p, a, fate).0 == p.(primary := p.primary.(dimension := |a.vector|))
  {
    if InsertReply(p.primary, a).None? {
      DeleteUndoesInsert(p.primary, a);
      assert |a.vector| > 0;
      if InsertReply(p.replica, a).None? {
        assert a.id in Inserted(p.replica, a).articles && a.id !in p.replica.articles;
      }
    }
  }

  /** The standing of an id after an insertion, case by case, exactly. An insertion that is not acknowledged
      changes which copies the nodes hold if and only if both would accept the article and the reply is lost;
      it leaves no trace at all, not even on the primary's dimension, exactly when LeavesNoTrace holds. */
  lemma InsertMovesStanding(p: Pair, a: Article, fate: Fate)
    requires PairOk(p)
    ensures var (after, reply) := PrimaryInsert(p, a, fate);
            var before, now := StandingOf(p, a.id), StandingOf(after, a.id);
            && PairOk(after)
            && (reply.None? <==> fate.Delivered? && InsertReply(p.primary, a).None? && InsertReply(p.replica, a).None?)
            && (reply.None? ==> before == Neither && now == Both(a))
            && (reply.Some? && now != before <==>
                  fate.ReplyLost? && InsertReply(p.primary, a).None? && InsertReply(p.replica, a).None?)
            && (reply.Some? && now != before ==> before == Neither && now == OnlyReplica(a))
            && (reply.Some? ==> (after == p <==> LeavesNoTrace(p, a, fate)))
            && (forall other :: other != a.id ==> StandingOf(after, other) == StandingOf(p, other))
  {
    InsertMovesCopies(p, a, fate);
    if PrimaryInsert(p, a, fate).1.Some? {
      FailedInsertLeavesPair(p, a, fate);
    }
  }

  lemma InsertMovesCopies(p: Pair, a: Article, fate: Fate)
    requires PairOk(p)
    ensures var (after, reply) := PrimaryInsert(p, a, fate);
            var before, now := StandingOf(p, a.id), StandingOf(after, a.id);
            && PairOk(after)
            && (reply.None? <==> fate.Delivered? && InsertReply(p.primary, a).None? && InsertReply(p.replica, a).None?)
            && (reply.None? ==> before == Neither && now == Both(a))
            && (reply.Some? && now != before <==>
                  fate.ReplyLost? && InsertReply(p.primary, a).None? && InsertReply(p.replica, a).None?)
            && (reply.Some? && now != before ==> before == Neither && now == OnlyReplica(a))
            && (forall other :: other != a.id ==> StandingOf(after, other) == StandingOf(p, other))
  {
    if InsertReply(p.primary, a).None? {
      InsertedOk(p.primary, a);
      InsertedOk(p.replica, a);
      DeletedOk(Inserted(p.primary, a), a.id);
    }
  }

  // ---------- The two dimensions ----------

  /** Some vector is of a dimension that both nodes take. */
  ghost predicate DimensionsMeet(p: Pair) {
    p.primary.dimension == 0 || p.replica.dimension == 0 || p.primary.dimension == p.replica.dimension
  }

  /** An article that both nodes accept if any such is. */
  ghost function Plain(id: string, dimension: nat): Article {
    Article(id, "", "", "", "", seq(if dimension == 0 then 1 else dimension, _ => 1.0), 0, 0)
  }

  lemma PlainIsSound(id: string, dimension: nat)
    ensures VectorFault(Plain(id, dimension).vector).None?
  {
    assert Plain(id, dimension).vector[0] == 1.0;
  }

  /** An id that neither node holds can be inserted, by some article and with the network's help, if and only if
      the nodes' dimensions meet. */
  lemma InsertableIfDimensionsMeet(p: Pair, id: string)
    requires PairOk(p) && id != "" && id !in p.primary.articles && id !in p.replica.articles
    ensures (exists a: Article, fate: Fate :: a.id == id && PrimaryInsert(p, a, fate).1.None?) <==> DimensionsMeet(p)
    ensures DimensionsMeet(p) ==>
              var a := Plain(id, if p.primary.dimension == 0 then p.replica.dimension else p.primary.dimension);
              a.id == id && PrimaryInsert(p, a, Delivered).1.None?
  {
    var d := if p.primary.dimension == 0 then p.replica.dimension else p.primary.dimension;
    PlainIsSound(id, d);
    if DimensionsMeet(p) {
      assert Plain(id, d).id == id && PrimaryInsert(p, Plain(id, d), Delivered).1.None?;
    }
  }

  /** The standing of an id after a deletion. An acknowledged one leaves the id on neither node; one that is
      not acknowledged changes its standing, or anything else, if and only if both nodes hold the id and the reply
      is lost. */
  lemma DeleteMovesStanding(p: Pair, id: string, fate: Fate)
    requires PairOk(p)
    ensures var (after, reply) := PrimaryDelete(p, id, fate);
            var before, now := StandingOf(p, id), StandingOf(after, id);
            && PairOk(after)
            && (reply.None? <==> fate.Delivered? && id in p.primary.articles)
            && (reply.None? ==> now == Neither)
            && (reply.Some? && now != before
                <==> fate.ReplyLost? && id in p.primary.articles && id in p.replica.articles)
            && (reply.Some? && now != before ==> now == OnlyPrimary(p.primary.articles[id]))
            && (reply.Some? ==> (after == p <==> now == before))
            && (forall other :: other != id ==> StandingOf(after, other) == StandingOf(p, other))
  {
    if id in p.primary.articles && id != "" {
      InsertUndoesDelete(p.primary, id);
    }
  }
}
