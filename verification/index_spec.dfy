/** The contract behind internal/index/index.go's VectorIndex: a dimension and a list of records,
    and when each call fails. Both indexes are proved against it. */
module IndexSpec {
  import opened Results
  import opened Vectors

  datatype Record = Record(id: string, text: string, vector: Vector)

  datatype IndexError =
    | EmptyId
    | BadVector(fault: VectorError)
    | DimensionMismatch(got: nat, want: nat)
    | NotFound(id: string)

  /** The dimension is 0 until the first record is accepted and never changes after that. */
  datatype IndexState = IndexState(dimension: nat, records: seq<Record>)

  /** Why an insertion is refused, checks in the program's order. */
  ghost function InsertFault(s: IndexState, id: string, vector: Vector): Option<IndexError> {
    if id == "" then Some(EmptyId)
    else if VectorFault(vector).Some? then Some(BadVector(VectorFault(vector).value))
    else if s.dimension != 0 && |vector| != s.dimension then Some(DimensionMismatch(|vector|, s.dimension))
    else None
  }

  /** Which vectors and ids are refused, and with which error. */
  lemma InsertFaultExactly(s: IndexState, id: string, vector: Vector)
    ensures var fault, allZero := InsertFault(s, id, vector), forall i :: 0 <= i < |vector| ==> vector[i] == 0.0;
            && (fault == Some(EmptyId) <==> |id| == 0)
            && (fault == Some(BadVector(EmptyVector)) <==> |id| > 0 && |vector| == 0)
            && (fault == Some(BadVector(ZeroNorm)) <==> |id| > 0 && |vector| > 0 && allZero)
            && (fault == Some(DimensionMismatch(|vector|, s.dimension)) <==>
                  |id| > 0 && !allZero && s.dimension > 0 && |vector| != s.dimension)
            && (fault == None <==> |id| > 0 && !allZero && (s.dimension == 0 || |vector| == s.dimension))
  {
  }

  ghost function AfterInsert(s: IndexState, r: Record): IndexState {
    if InsertFault(s, r.id, r.vector).Some? then s
    else IndexState(|r.vector|, s.records + [r])
  }

  ghost predicate HasId(records: seq<Record>, id: string) {
    exists i :: 0 <= i < |records| && records[i].id == id
  }

  /** The records without the first one that carries the id. */
  ghost function RemoveFirst(records: seq<Record>, id: string): seq<Record> {
    if records == [] then []
    else if records[0].id == id then records[1..]
    else [records[0]] + RemoveFirst(records[1..], id)
  }

  ghost function DeleteFault(s: IndexState, id: string): Option<IndexError> {
    if HasId(s.records, id) then None else Some(NotFound(id))
  }

  ghost function AfterDelete(s: IndexState, id: string): IndexState {
    s.(records := RemoveFirst(s.records, id))
  }

  ghost predicate DistinctIds(records: seq<Record>) {
    forall i, j :: 0 <= i < j < |records| ==> records[i].id != records[j].id
  }

  lemma HasIdStep(records: seq<Record>, id: string)
    requires records != []
    ensures HasId(records, id) <==> records[0].id == id || HasId(records[1..], id)
  {
    if HasId(records[1..], id) {
      var i :| 0 <= i < |records[1..]| && records[1..][i].id == id;
      assert records[i + 1].id == id;
    }
    if HasId(records, id) {
      var i :| 0 <= i < |records| && records[i].id == id;
      assert i > 0 ==> records[1..][i - 1].id == id;
    }
  }

  lemma {:induction false} RemoveFirstAt(records: seq<Record>, id: string, i: nat)
    requires i < |records| && records[i].id == id
    requires forall j :: 0 <= j < i ==> records[j].id != id
    ensures RemoveFirst(records, id) == records[..i] + records[i + 1..]
  {
    if i > 0 {
      RemoveFirstAt(records[1..], id, i - 1);
      assert records[..i] == [records[0]] + records[1..][..i - 1];
    }
  }

  lemma {:induction false} RemoveFirstAbsent(records: seq<Record>, id: string)
    requires !HasId(records, id)
    ensures RemoveFirst(records, id) == records
  {
    if records != [] {
      HasIdStep(records, id);
      RemoveFirstAbsent(records[1..], id);
    }
  }

  lemma RemoveFirstCons(r: Record, records: seq<Record>, id: string)
    ensures RemoveFirst([r] + records, id) == if r.id == id then records else [r] + RemoveFirst(records, id)
    ensures HasId([r] + records, id) <==> r.id == id || HasId(records, id)
  {
    assert ([r] + records)[1..] == records;
    HasIdStep([r] + records, id);
  }

  lemma ConsConcat(r: Record, s: seq<Record>, t: seq<Record>)
    ensures [r] + (s + t) == [r] + s + t
  {
  }

  lemma {:induction false} RemoveFirstConcat(a: seq<Record>, b: seq<Record>, id: string)
    ensures RemoveFirst(a + b, id) == if HasId(a, id) then RemoveFirst(a, id) + b else a + RemoveFirst(b, id)
  {
    if a == [] {
      assert a + b == b && a + RemoveFirst(b, id) == RemoveFirst(b, id);
    } else {
      hide RemoveFirst;
      hide HasId;
      var r, rest := a[0], a[1..];
      assert a == [r] + rest;
      RemoveFirstCons(r, rest, id);
      RemoveFirstCons(r, rest + b, id);
      RemoveFirstConcat(rest, b, id);
      ConsConcat(r, rest, b);
      ConsConcat(r, rest, RemoveFirst(b, id));
      ConsConcat(r, RemoveFirst(rest, id), b);
    }
  }

  lemma TailDistinct(records: seq<Record>)
    requires records != [] && DistinctIds(records)
    ensures DistinctIds(records[1..]) && forall r :: r in records[1..] ==> r.id != records[0].id
  {
    var tail := records[1..];
    forall r | r in tail
      ensures r.id != records[0].id
    {
      var i :| 0 <= i < |tail| && tail[i] == r;
      assert records[i + 1] == r;
    }
  }

  lemma ConsDistinct(r: Record, records: seq<Record>)
    requires DistinctIds(records) && forall x :: x in records ==> x.id != r.id
    ensures DistinctIds([r] + records)
  {
    assert forall i :: 0 <= i < |records| ==> records[i] in records;
  }

  /** Among distinct ids, removing one leaves exactly the records with other ids. */
  lemma {:induction false} RemoveFirstMembers(records: seq<Record>, id: string)
    requires DistinctIds(records)
    ensures forall r :: r in RemoveFirst(records, id) <==> r in records && r.id != id
    ensures DistinctIds(RemoveFirst(records, id))
  {
    if records != [] {
      var r, tail := records[0], records[1..];
      assert records == [r] + tail;
      RemoveFirstCons(r, tail, id);
      TailDistinct(records);
      RemoveFirstMembers(tail, id);
      hide RemoveFirst;
      hide DistinctIds;
      if r.id != id {
        ConsDistinct(r, RemoveFirst(tail, id));
      }
    }
  }
}
