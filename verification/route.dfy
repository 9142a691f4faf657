/** Routed reads of internal/coordinator/route.go and the client's reading of a missing article
    (internal/coordinator/client.go), over the replicated pair of a shard. */
module Route {
  import opened NodeSpec
  import opened Replication
  import opened Results
  import opened Storage
  import opened WriteProtocol

  /** Only these errors send a read to the second endpoint. */
  predicate IsFailoverError(code: Code) {
    code == Unavailable || code == DeadlineExceeded
  }

  /** The second endpoint is asked. */
  predicate FailsOver<T>(first: Result<T, Code>, hasSecond: bool) {
    first.Err? && hasSecond && IsFailoverError(first.error)
  }

  /** The first endpoint's value, or the second endpoint's answer if the first failed over. */
  function ReadWithFailover<T>(first: Result<T, Code>, second: Option<Result<T, Code>>): Result<T, Code> {
    if FailsOver(first, second.Some?) then second.value else first
  }

  /** Whether an endpoint can be reached. */
  datatype Link = Up | Down(code: NetCode)

  /** The client turns "not found" into an absent value, which is no error. */
  function ClientGet(answer: Result<Article, Code>): Result<Option<Article>, Code> {
    match answer
    case Ok(a) => Ok(Some(a))
    case Err(code) => if code == NotFound then Ok(None) else Err(code)
  }

  function EndpointGet(s: NodeState, link: Link, id: string): Result<Option<Article>, Code> {
    if link.Down? then Err(link.code) else ClientGet(ServerGet(s, id))
  }

  /** A get routed to a shard of a primary and a replica. */
  function RoutedGet(c: Cluster, primary: Link, replica: Link, id: string): Result<Option<Article>, Code> {
    ReadWithFailover(EndpointGet(c.primary, primary, id), Some(EndpointGet(c.replica, replica, id)))
  }

  /** A list answer of an endpoint: some listing of its articles. */
  ghost predicate EndpointLists(s: NodeState, link: Link, answer: Result<seq<Article>, Code>) {
    if link.Down? then answer == Err(link.code) else answer.Ok? && IsListing(s.articles, answer.value)
  }

  /** The second endpoint is asked exactly after these two errors of the first; any other answer, an error or a
      missing article, is final. */
  lemma FailsOverExactly<T>(first: Result<T, Code>, second: Result<T, Code>)
    ensures FailsOver(first, true) <==> first == Err(Unavailable) || first == Err(DeadlineExceeded)
    ensures !FailsOver(first, false)
    ensures ReadWithFailover(first, None) == first
    ensures first == Err(Unavailable) || first == Err(DeadlineExceeded) ==>
              ReadWithFailover(first, Some(second)) == second
    ensures first != Err(Unavailable) && first != Err(DeadlineExceeded) ==>
              ReadWithFailover(first, Some(second)) == first
  {
  }

  /** What a routed get returns, case by case. The replica's answer is given exactly if the primary is down with an
      unavailable or a deadline error; an answer of the primary that the article does not exist is final. */
  lemma ReplicaOnlyOnOutage(c: Cluster, primary: Link, replica: Link, id: string)
    ensures FailsOver(EndpointGet(c.primary, primary, id), true) <==>
              primary == Down(Unavailable) || primary == Down(DeadlineExceeded)
    ensures var r := RoutedGet(c, primary, replica, id);
            && (primary == Up ==>
                  r == if |id| == 0 then Err(InvalidArgument)
                       else Ok(if id in c.primary.articles then Some(c.primary.articles[id]) else None))
            && (primary == Down(InvalidArgument) ==> r == Err(InvalidArgument))
            && (primary == Down(Internal) ==> r == Err(Internal))
            && (primary == Down(OtherCode) ==> r == Err(OtherCode))
            && (primary == Down(Unavailable) || primary == Down(DeadlineExceeded) ==>
                  && (replica.Down? ==> r == Err(replica.code))
                  && (replica == Up ==>
                        r == if |id| == 0 then Err(InvalidArgument)
                             else Ok(if id in c.replica.articles then Some(c.replica.articles[id]) else None)))
  {
  }

  /** What a routed get of an id that is not being written returns, exactly: it succeeds if and only if the
      primary is up, or its outage fails over and the replica is up; served by the primary it is always what the
      acknowledged writes amount to, and served by the replica it is so if and only if no change of the id went
      unheard since the last acknowledged write on it. */
  lemma GetSeesAcknowledgedWrites(events: seq<Event>, primary: Link, replica: Link, id: string)
    requires id != "" && id !in RunAll(EMPTY_CLUSTER, events).inFlight
    ensures var c := RunAll(EMPTY_CLUSTER, events);
            var r := RoutedGet(c, primary, replica, id);
            && (r.Ok? <==> primary.Up? || (primary.code in {Unavailable, DeadlineExceeded} && replica.Up?))
            && (r.Ok? ==> (r.value == Lookup(Fold(c.log), id) <==> primary.Up? || !Outstanding(events, id)))
  {
    var c := RunAll(EMPTY_CLUSTER, events);
    RunKeepsInv(EMPTY_CLUSTER, events);
    assert IdInv(c, id);
    OutstandingIsUnheard(events, id);
  }

  /** A list fixes the table it is a listing of. */
  lemma ListingDetermines(rows: Rows, rows': Rows, list: seq<Article>)
    requires IsListing(rows, list) && IsListing(rows', list)
    ensures rows == rows'
  {
    forall id
      ensures id in rows <==> id in rows'
      ensures id in rows ==> rows[id] == rows'[id]
    {
      if id in rows {
        var i :| 0 <= i < |list| && list[i].id == id;
      }
    }
  }

  /** The replica holds the acknowledged history at rest if and only if nothing is outstanding. */
  lemma ReplicaIsHistory(events: seq<Event>)
    requires Quiescent(RunAll(EMPTY_CLUSTER, events))
    ensures var c := RunAll(EMPTY_CLUSTER, events);
            c.replica.articles == Fold(c.log) <==> forall id :: !Outstanding(events, id)
  {
    var c := RunAll(EMPTY_CLUSTER, events);
    PrimaryIsAcknowledgedHistory(events);
    forall id
      ensures Lookup(c.replica.articles, id) == Lookup(Fold(c.log), id) <==> !Outstanding(events, id)
    {
      OutstandingIsUnheard(events, id);
    }
    if forall id :: !Outstanding(events, id) {
      SameLookups(c.replica.articles, Fold(c.log));
    }
  }

  /** Likewise a routed list at rest: from the replica it is a listing of the acknowledged history if and only
      if no change of any id went unheard. */
  lemma ListSeesAcknowledgedWrites(events: seq<Event>, primary: Link, replica: Link,
                                   first: Result<seq<Article>, Code>, second: Result<seq<Article>, Code>)
    requires Quiescent(RunAll(EMPTY_CLUSTER, events))
    requires EndpointLists(RunAll(EMPTY_CLUSTER, events).primary, primary, first)
    requires EndpointLists(RunAll(EMPTY_CLUSTER, events).replica, replica, second)
    ensures var r := ReadWithFailover(first, Some(second));
            && (r.Ok? <==> primary.Up? || (primary.code in {Unavailable, DeadlineExceeded} && replica.Up?))
            && (r.Ok? ==> (IsListing(Fold(RunAll(EMPTY_CLUSTER, events).log), r.value)
                           <==> primary.Up? || forall id :: !Outstanding(events, id)))
  {
    var c := RunAll(EMPTY_CLUSTER, events);
    PrimaryIsAcknowledgedHistory(events);
    ReplicaIsHistory(events);
    hide IsListing;
    if second.Ok? && IsListing(Fold(c.log), second.value) {
      ListingDetermines(Fold(c.log), c.replica.articles, second.value);
    }
  }

  /** When failed replica calls have no effect nothing is ever outstanding, and reads see through a failover. */
  lemma ReadsSeeThroughFailover(events: seq<Event>, primary: Link, replica: Link, id: string)
    requires NoReplyLost(events) && id != "" && id !in RunAll(EMPTY_CLUSTER, events).inFlight
    ensures !Outstanding(events, id)
    ensures var c := RunAll(EMPTY_CLUSTER, events);
            var r := RoutedGet(c, primary, replica, id);
            r.Ok? ==> r.value == Lookup(Fold(c.log), id)
  {
    NothingUnheard(events);
    OutstandingIsUnheard(events, id);
    GetSeesAcknowledgedWrites(events, primary, replica, id);
  }

  /** A lost insert shows: the primary rightly has nothing, and a read that fails over returns the article that
      was never acknowledged. */
  lemma LostReplyShowsOnFailover(c: Cluster, a: Article, code: NetCode, outage: NetCode)
    requires Inv(c) && a.id !in c.inFlight && outage in {Unavailable, DeadlineExceeded}
    requires InsertReply(c.primary, a).None? && InsertReply(c.replica, a).None?
    ensures var d := RunAll(c, InsertEvents(a, ReplyLost(code)));
            && RoutedGet(d, Up, Up, a.id) == Ok(None)
            && RoutedGet(d, Down(outage), Up, a.id) == Ok(Some(a))
            && Lookup(Fold(d.log), a.id) == None
  {
    assert IdInv(c, a.id);
    LostReplyStrands(c, a, code);
    InsertIsItsSteps(c, a, ReplyLost(code));
  }

  /** A lost delete hides: the primary rightly has the article back, and a read that fails over finds nothing
      although the acknowledged history holds it. */
  lemma LostReplyHidesOnFailover(c: Cluster, id: string, code: NetCode, outage: NetCode)
    requires Inv(c) && id !in c.inFlight && outage in {Unavailable, DeadlineExceeded}
    requires id in c.primary.articles && id in c.replica.articles
    ensures var d := RunAll(c, DeleteEvents(id, ReplyLost(code)));
            && RoutedGet(d, Up, Up, id) == Ok(Some(c.primary.articles[id]))
            && RoutedGet(d, Down(outage), Up, id) == Ok(None)
            && Lookup(Fold(d.log), id) == Some(c.primary.articles[id])
  {
    assert IdInv(c, id);
    DeleteIsItsSteps(c, id, ReplyLost(code));
    InsertUndoesDelete(c.primary, id);
  }
}
