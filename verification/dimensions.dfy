/** When shards that each settle their own vector dimension behave like one index. */
module Dimensions {
  import opened IndexSpec
  import opened NodeSpec
  import opened Sharding
  import opened Storage
  import opened Vectors

  /** No shard has settled on another dimension than d. */
  ghost predicate OneDimension(states: seq<NodeState>, d: nat) {
    forall i :: 0 <= i < |states| ==> states[i].dimension == 0 || states[i].dimension == d
  }

  ghost predicate AllAnswer(states: seq<NodeState>, query: Vector) {
    forall i :: 0 <= i < |states| ==> QueryRefusal(states[i], query).None?
  }

  /** Every shard answers exactly if the query is not all zeros and no shard has settled on another dimension. */
  lemma AllAnswerExactly(states: seq<NodeState>, query: Vector)
    requires states != []
    ensures AllAnswer(states, query) <==>
              && (exists i :: 0 <= i < |query| && query[i] != 0.0)
              && forall i :: 0 <= i < |states| ==> states[i].dimension == 0 || states[i].dimension == |query|
  {
    if AllAnswer(states, query) {
      assert QueryRefusal(states[0], query).None?;
      forall i | 0 <= i < |states|
        ensures states[i].dimension == 0 || states[i].dimension == |query|
      {
        assert QueryRefusal(states[i], query).None?;
      }
    }
  }

  /** The shards after an insertion on shard s. */
  ghost function AfterPut(states: seq<NodeState>, s: nat, a: Article): seq<NodeState>
    requires s < |states|
  {
    states[s := Inserted(states[s], a)]
  }

  /** While the shards agree on a dimension, a shard takes a well-formed article of that dimension exactly if it
      does not hold the id. */
  lemma AcceptsLikeOneMap(states: seq<NodeState>, d: nat, s: nat, a: Article)
    requires OneDimension(states, d) && s < |states|
    requires a.id != "" && VectorFault(a.vector).None? && |a.vector| == d
    ensures InsertRefusal(states[s], a).None? <==> a.id !in states[s].articles
  {
  }

  /** They go on agreeing after an accepted insertion if and only if it has that dimension. */
  lemma AgreementAfterPut(states: seq<NodeState>, d: nat, s: nat, a: Article)
    requires OneDimension(states, d) && d > 0 && s < |states|
    ensures InsertRefusal(states[s], a).None? ==> (OneDimension(AfterPut(states, s, a), d) <==> |a.vector| == d)
    ensures InsertRefusal(states[s], a).Some? ==> AfterPut(states, s, a) == states
  {
    var after := AfterPut(states, s, a);
    if InsertRefusal(states[s], a).None? {
      assert after[s].dimension == |a.vector| && a.vector != [];
    }
  }

  /** Some query is answered by all shards if and only if they agree on a dimension. */
  lemma AnsweredIffOneDimension(states: seq<NodeState>)
    ensures (exists query :: AllAnswer(states, query)) <==> (exists d: nat :: d > 0 && OneDimension(states, d))
  {
    if query :| AllAnswer(states, query) {
      if states == [] {
        assert OneDimension(states, 1);
      } else {
        assert QueryRefusal(states[0], query).None?;
        assert OneDimension(states, |query|);
      }
    }
    if d: nat :| d > 0 && OneDimension(states, d) {
      var query: Vector := seq(d, _ => 1.0);
      assert query[0] == 1.0;
      assert AllAnswer(states, query);
    }
  }

  /** Once some shard has settled on the common dimension, exactly the well-formed queries of that dimension are
      answered by all, as by one index. */
  lemma AnswersLikeOneIndex(states: seq<NodeState>, d: nat, query: Vector)
    requires OneDimension(states, d) && d > 0
    requires exists i :: 0 <= i < |states| && states[i].dimension == d
    ensures AllAnswer(states, query) <==> VectorFault(query).None? && |query| == d
  {
    var i :| 0 <= i < |states| && states[i].dimension == d;
    if AllAnswer(states, query) {
      assert QueryRefusal(states[i], query).None?;
    }
  }

  ghost const NEW_SHARD: NodeState := NodeState(0, map[])

  ghost function Short(id: string, vector: Vector): Article {
    Article(id, "", "", "", "", vector, ShardOf(id, 2), 0)
  }

  lemma ShardsOfTwoIds()
    ensures ShardOf("a", 2) == 1 && ShardOf("b", 2) == 0
  {
    assert "a"[..0] == "" && "b"[..0] == "";
    assert Poly("") == 0;
    assert Poly("a") == 97 && Poly("b") == 98;
  }

  /** Two new shards take one article of dimension 1 and one of dimension 2, which a single index would not,
      and from then on no query at all is answered by both. */
  lemma TwoDimensionsStopQueries(query: Vector)
    ensures var a, b := Short("a", [1.0]), Short("b", [1.0, 0.0]);
            var one := AfterPut([NEW_SHARD, NEW_SHARD], a.shardID, a);
            var two := AfterPut(one, b.shardID, b);
            && InsertRefusal(NEW_SHARD, a).None? && InsertRefusal(one[b.shardID], b).None?
            && InsertRefusal(Inserted(NEW_SHARD, a), b).Some?
            && !AllAnswer(two, query)
  {
    ShardsOfTwoIds();
    var a, b := Short("a", [1.0]), Short("b", [1.0, 0.0]);
    assert a.vector[0] == 1.0 && b.vector[0] == 1.0;
    var one := AfterPut([NEW_SHARD, NEW_SHARD], a.shardID, a);
    var two := AfterPut(one, b.shardID, b);
    assert two[0].dimension == 2 && two[1].dimension == 1;
  }
}
