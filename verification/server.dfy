/** The gRPC handlers of internal/shardpb/server.go. */
module ShardServer {
  import opened NodeSpec
  import opened Results
  import opened ShardNode
  import opened Storage
  import opened WriteProtocol

  class Server {
    const node: Node
    const replica: Server?  // the server at the replica address, if one is set

    constructor (node: Node, replica: Server?)
      ensures this.node == node && this.replica == replica
    {
      this.node := node;
      this.replica := replica;
    }

    /** Writes go on to the replica. */
    predicate Forwards() {
      node.isPrimary && replica != null
    }

    ghost function Footprint(): set<object> {
      {node.store, node.index} + if replica != null then {replica.node.store, replica.node.index} else {}
    }

    /** The two nodes are valid and share nothing; the replica's server does not forward. */
    ghost predicate Valid()
      reads Footprint()
    {
      && node.Valid()
      && (replica != null ==>
            && replica.node.Valid() && !replica.Forwards()
            && replica.node.store != node.store && replica.node.index != node.index)
    }

    ghost function States(): Pair
      requires replica != null
      reads Footprint()
    {
      Pair(node.State(), replica.node.State())
    }

    /** What any server does to its own node for an insert request. */
    method InsertHere(a: Article) returns (reply: Reply)
      requires node.Valid()
      modifies node.store, node.index
      ensures node.Valid()
      ensures node.State() == Inserted(old(node.State()), a)
      ensures reply == InsertReply(old(node.State()), a)
    {
      var err := node.InsertArticle(a);
      if err.Some? {
        return Some(Internal);
      }
      return None;
    }

    /** What any server does to its own node for a delete request with an id. */
    method DeleteHere(id: string) returns (reply: Reply)
      requires node.Valid() && id != ""
      modifies node.store, node.index
      ensures node.Valid()
      ensures node.State() == AfterDelete(old(node.State()), id)
      ensures reply == DeleteReply(old(node.State()), id)
    {
      var err := node.DeleteArticle(id);
      if err.Some? {
        return Some(if err.value.Missing? then NotFound else Internal);
      }
      return None;
    }

    /** The insert call over the network. */
    method CallReplicaInsert(a: Article, fate: Fate) returns (heard: Reply)
      requires replica != null && replica.node.Valid()
      modifies replica.node.store, replica.node.index
      ensures replica.node.Valid()
      ensures replica.node.State() ==
                if ReachesReplica(fate) then Inserted(old(replica.node.State()), a) else old(replica.node.State())
      ensures heard == Heard(InsertReply(old(replica.node.State()), a), fate)
    {
      match fate {
        case DialFailed => heard := Some(Unavailable);
        case RequestLost(code) => heard := Some(code);
        case ReplyLost(code) =>
          var answer := replica.InsertHere(a);
          heard := Some(code);
        case Delivered => heard := replica.InsertHere(a);
      }
    }

    /** The delete call over the network. */
    method CallReplicaDelete(id: string, fate: Fate) returns (heard: Reply)
      requires replica != null && replica.node.Valid() && id != ""
      modifies replica.node.store, replica.node.index
      ensures replica.node.Valid()
      ensures replica.node.State() ==
                if ReachesReplica(fate) then AfterDelete(old(replica.node.State()), id) else old(replica.node.State())
      ensures heard == Heard(DeleteReply(old(replica.node.State()), id), fate)
    {
      match fate {
        case DialFailed => heard := Some(Unavailable);
        case RequestLost(code) => heard := Some(code);
        case ReplyLost(code) =>
          var answer := replica.DeleteHere(id);
          heard := Some(code);
        case Delivered => heard := replica.DeleteHere(id);
      }
    }

    method Insert(req: Option<Article>, fate: Fate) returns (reply: Reply)
      requires Valid()
      modifies Footprint()
      ensures Valid()
      ensures req.None? ==> reply == Some(InvalidArgument) && node.State() == old(node.State())
      ensures req.None? && replica != null ==> replica.node.State() == old(replica.node.State())
      ensures req.Some? && node.isPrimary && replica != null ==>
                (States(), reply) == PrimaryInsert(old(States()), req.value, fate)
      ensures req.Some? && (!node.isPrimary || replica == null) ==>
                node.State() == Inserted(old(node.State()), req.value)
                  && reply == InsertReply(old(node.State()), req.value)
      ensures req.Some? && !node.isPrimary && replica != null ==> replica.node.State() == old(replica.node.State())
    {
      hide Node.Valid;
      hide Inserted;
      hide Deleted;
      if req.None? {
        return Some(InvalidArgument);
      }
      var a := req.value;
      ghost var before := node.State();
      reply := InsertHere(a);
      if reply.Some? {
        RefusedInsertChangesNothing(before, a);
        return;
      }
      if node.isPrimary && replica != null {
        var heard := CallReplicaInsert(a, fate);
        if heard.Some? {
          InsertCanBeTakenBack(before, a);
          var rollback := node.DeleteArticle(a.id);
          assert rollback.None?;
          return heard;
        }
      }
    }

    method Get(id: string) returns (r: Result<Article, Code>)
      ensures r == ServerGet(node.State(), id)
      ensures |id| == 0 ==> r == Err(InvalidArgument)
      ensures |id| > 0 && id !in node.State().articles ==> r == Err(NotFound)
      ensures |id| > 0 && id in node.State().articles ==> r == Ok(node.State().articles[id])
    {
      if id == "" {
        return Err(InvalidArgument);
      }
      var a := node.GetArticle(id);
      if a.None? {
        return Err(NotFound);
      }
      return Ok(a.value);
    }

    method Delete(id: string, fate: Fate) returns (reply: Reply)
      requires Valid()
      modifies Footprint()
      ensures Valid()
      ensures node.isPrimary && replica != null ==>
                (States(), reply) == PrimaryDelete(old(States()), id, fate)
      ensures !node.isPrimary || replica == null ==>
                node.State() == AfterDelete(old(node.State()), id) && reply == DeleteReply(old(node.State()), id)
      ensures !node.isPrimary && replica != null ==> replica.node.State() == old(replica.node.State())
    {
      hide Node.Valid;
      hide Inserted;
      hide Deleted;
      hide NodeOk;
      if id == "" {
        return Some(InvalidArgument);
      }
      ghost var before := node.State();
      ValidNodeOk(node);
      var existing: Option<Article> := None;
      if node.isPrimary && replica != null {
        existing := node.GetArticle(id);
        if existing.None? {
          return Some(NotFound);
        }
      }
      reply := DeleteHere(id);
      if reply.Some? {
        return;
      }
      if node.isPrimary && replica != null {
        var heard := CallReplicaDelete(id, fate);
        if heard.Some? && heard.value != NotFound {
          InsertUndoesDelete(before, id);
          var rollback := node.InsertArticle(existing.value);
          assert rollback.None?;
          return heard;
        }
      }
    }

    method ListArticles() returns (list: seq<Article>)
      requires Valid()
      ensures IsListing(node.State().articles, list)
    {
      list := node.ListArticles();
    }
  }

  lemma RefusedInsertChangesNothing(s: NodeState, a: Article)
    ensures InsertReply(s, a).Some? ==> Inserted(s, a) == s
  {
  }

  lemma InsertCanBeTakenBack(s: NodeState, a: Article)
    requires InsertReply(s, a).None?
    ensures DeleteRefusal(Inserted(s, a), a.id).None?
  {
  }
}
