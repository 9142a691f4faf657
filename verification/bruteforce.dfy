/** The linear scan of internal/index/bruteforce.go. */
module BruteForce {
  import opened Answers
  import opened IndexSpec
  import opened Permutations
  import opened Results
  import opened Sorting
  import opened TopK
  import opened Vectors

  datatype Entry = Entry(record: Record, norm: real, order: nat)

  datatype ScoredEntry = ScoredEntry(result: TextHit, order: nat)

  /** Better score first, then the smaller order number. */
  predicate RanksBefore(a: ScoredEntry, b: ScoredEntry) {
    if a.result.score == b.result.score then a.order < b.order else a.result.score > b.result.score
  }

  ghost function ScoreOf(e: Entry, query: Vector, queryNorm: real): ScoredEntry {
    ScoredEntry(Hit(e.record.id, e.record.text, Cosine(query, queryNorm, e.record.vector, e.norm)), e.order)
  }

  ghost function ScoresOf(entries: seq<Entry>, query: Vector, queryNorm: real): (r: seq<ScoredEntry>)
    ensures |r| == |entries| && forall i :: 0 <= i < |r| ==> r[i] == ScoreOf(entries[i], query, queryNorm)
  {
    seq(|entries|, i requires 0 <= i < |entries| => ScoreOf(entries[i], query, queryNorm))
  }

  function HitsOf(scored: seq<ScoredEntry>): (r: seq<TextHit>)
    ensures |r| == |scored| && forall i :: 0 <= i < |r| ==> r[i] == scored[i].result
  {
    seq(|scored|, i requires 0 <= i < |scored| => scored[i].result)
  }

  /** `out` leads the ranking of all scored entries by score and, on ties, by order number; entries that tie in
      both, as two can after a deletion, stay in the order in which they are held. */
  ghost predicate IsScan(entries: seq<Entry>, query: Vector, queryNorm: real, k: nat, out: seq<TextHit>) {
    exists ranked, from ::
      && multiset(ranked) == multiset(ScoresOf(entries, query, queryNorm))
      && StablySorted(ScoresOf(entries, query, queryNorm), RanksBefore, ranked, from)
      && out == HitsOf(ranked)[..Min(k, |ranked|)]
  }

  /** A scan has only one answer. */
  lemma ScanIsDeterministic(entries: seq<Entry>, query: Vector, queryNorm: real, k: nat, out: seq<TextHit>,
                            out': seq<TextHit>)
    requires IsScan(entries, query, queryNorm, k, out) && IsScan(entries, query, queryNorm, k, out')
    ensures out == out'
  {
    var scored := ScoresOf(entries, query, queryNorm);
    var ranked, from :| StablySorted(scored, RanksBefore, ranked, from) && out == HitsOf(ranked)[..Min(k, |ranked|)];
    var ranked', from' :| StablySorted(scored, RanksBefore, ranked', from')
        && out' == HitsOf(ranked')[..Min(k, |ranked'|)];
    StableUnique(scored, RanksBefore, ranked, from, ranked', from', |scored|);
    assert ranked == ranked[..|scored|] && ranked' == ranked'[..|scored|];
  }

  /** A scan in terms of the entries: the first k of them, each once, by falling similarity, on ties by order number
      and then by position. */
  lemma ScanPositions(entries: seq<Entry>, query: Vector, queryNorm: real, k: nat, out: seq<TextHit>)
    requires IsScan(entries, query, queryNorm, k, out)
    ensures exists from :: InTurn(entries, query, queryNorm, from) && |out| == Min(k, |entries|)
                           && forall i :: 0 <= i < |out| ==> out[i] == HitAt(entries, query, queryNorm, from[i])
  {
    hide StandsBefore;
    hide Cosine;
    var ranked, from :|
      && StablySorted(ScoresOf(entries, query, queryNorm), RanksBefore, ranked, from)
      && out == HitsOf(ranked)[..Min(k, |ranked|)];
    StableShape(ScoresOf(entries, query, queryNorm), RanksBefore, ranked, from);
    hide StablySorted;
    forall i, j | 0 <= i < j < |from|
      ensures StandsBefore(entries, query, queryNorm, from[i], from[j])
    {
      RankedStandsBefore(entries, query, queryNorm, ranked, from, i, j);
    }
    assert InTurn(entries, query, queryNorm, from);
    RankedHitsAt(entries, query, queryNorm, ranked, from, k);
  }

  lemma RankedHitsAt(entries: seq<Entry>, query: Vector, queryNorm: real, ranked: seq<ScoredEntry>, from: seq<int>,
                     k: nat)
    requires |from| == |ranked| == |entries|
    requires forall i :: 0 <= i < |from| ==>
               0 <= from[i] < |entries| && ranked[i] == ScoresOf(entries, query, queryNorm)[from[i]]
    ensures var out := HitsOf(ranked)[..Min(k, |ranked|)];
            && |out| == Min(k, |entries|)
            && forall i :: 0 <= i < |out| ==> out[i] == HitAt(entries, query, queryNorm, from[i])
  {
    hide Cosine;
  }

  lemma RankedStandsBefore(entries: seq<Entry>, query: Vector, queryNorm: real, ranked: seq<ScoredEntry>,
                           from: seq<int>, i: nat, j: nat)
    requires StablySorted(ScoresOf(entries, query, queryNorm), RanksBefore, ranked, from) && i < j < |from|
    ensures StandsBefore(entries, query, queryNorm, from[i], from[j])
  {
    hide Cosine;
    assert !RanksBefore(ranked[j], ranked[i]);
    assert ranked[i] == ScoreOf(entries[from[i]], query, queryNorm);
    assert ranked[j] == ScoreOf(entries[from[j]], query, queryNorm);
  }

  /** `from` names every position, and of two the one that stands before the other first. */
  ghost predicate InTurn(entries: seq<Entry>, query: Vector, queryNorm: real, from: seq<int>) {
    && |from| == |entries| && (forall p :: 0 <= p < |entries| ==> p in from)
    && (forall i :: 0 <= i < |from| ==> 0 <= from[i] < |entries|)
    && (forall i, j :: 0 <= i < j < |from| ==> StandsBefore(entries, query, queryNorm, from[i], from[j]))
  }

  ghost function HitAt(entries: seq<Entry>, query: Vector, queryNorm: real, p: int): TextHit
    requires 0 <= p < |entries|
  {
    var e := entries[p];
    Hit(e.record.id, e.record.text, Cosine(query, queryNorm, e.record.vector, e.norm))
  }

  ghost predicate StandsBefore(entries: seq<Entry>, query: Vector, queryNorm: real, p: int, q: int)
    requires 0 <= p < |entries| && 0 <= q < |entries|
  {
    var a := Cosine(query, queryNorm, entries[p].record.vector, entries[p].norm);
    var b := Cosine(query, queryNorm, entries[q].record.vector, entries[q].norm);
    || a > b
    || (a == b && entries[p].order < entries[q].order)
    || (a == b && entries[p].order == entries[q].order && p < q)
  }

  lemma {:induction false} HitsAsFlatMap(s: seq<ScoredEntry>)
    ensures HitsOf(s) == FlatMap((x: ScoredEntry) => [x.result], s)
  {
    if s != [] {
      HitsAsFlatMap(s[1..]);
    }
  }

  ghost function RecordsOf(entries: seq<Entry>): (r: seq<Record>)
    ensures |r| == |entries| && forall i :: 0 <= i < |r| ==> r[i] == entries[i].record
  {
    seq(|entries|, i requires 0 <= i < |entries| => entries[i].record)
  }

  ghost predicate EntriesOk(entries: seq<Entry>, dimension: nat, sqrt: real -> real) {
    forall i :: 0 <= i < |entries| ==>
      && |entries[i].record.vector| == dimension && entries[i].norm > 0.0
      && entries[i].norm == sqrt(Dot(entries[i].record.vector, entries[i].record.vector))
  }

  lemma RankedHits(ranked: seq<ScoredEntry>, scored: seq<ScoredEntry>)
    requires multiset(ranked) == multiset(scored) && Sorted(ranked, RanksBefore)
    ensures multiset(HitsOf(ranked)) == multiset(HitsOf(scored)) && Descending(HitsOf(ranked))
  {
    HitsAsFlatMap(ranked);
    HitsAsFlatMap(scored);
    FlatMapPermutation((x: ScoredEntry) => [x.result], ranked, scored);
    forall i, j | 0 <= i < j < |ranked|
      ensures HitsOf(ranked)[i].score >= HitsOf(ranked)[j].score
    {
      assert !RanksBefore(ranked[j], ranked[i]);
    }
  }

  /** A scan is an exact top-k of the stored records. */
  lemma ScanIsExact(entries: seq<Entry>, dimension: nat, sqrt: real -> real, query: Vector, queryNorm: real, k: nat,
                    out: seq<TextHit>)
    requires EntriesOk(entries, dimension, sqrt) && IsScan(entries, query, queryNorm, k, out)
    ensures IsTopK(multiset(RecordHits(RecordsOf(entries), query, queryNorm, sqrt)), out, k)
  {
    hide IsTopK;
    var scored := ScoresOf(entries, query, queryNorm);
    var ranked, from :|
      && multiset(ranked) == multiset(scored) && StablySorted(scored, RanksBefore, ranked, from)
      && out == HitsOf(ranked)[..Min(k, |ranked|)];
    RankedHits(ranked, scored);
    assert HitsOf(scored) == RecordHits(RecordsOf(entries), query, queryNorm, sqrt);
    PrefixIsTopK(HitsOf(ranked), k);
  }

  class BruteForceIndex {
    const sqrt: real -> real
    var dimension: nat
    var records: seq<Entry>

    ghost predicate Valid()
      reads this
    {
      IsSqrt(sqrt) && EntriesOk(records, dimension, sqrt) && (records != [] ==> dimension > 0)
    }

    ghost function State(): IndexState
      reads this
    {
      IndexState(dimension, RecordsOf(records))
    }

    constructor (sqrt: real -> real)
      requires IsSqrt(sqrt)
      ensures Valid() && State() == IndexState(0, []) && this.sqrt == sqrt
    {
      this.sqrt := sqrt;
      dimension := 0;
      records := [];
    }

    method Insert(id: string, text: string, vector: Vector) returns (err: Option<IndexError>)
      requires Valid()
      modifies this
      ensures Valid()
      ensures err == InsertFault(old(State()), id, vector)
      ensures State() == AfterInsert(old(State()), Record(id, text, vector))
      ensures err.None? ==> State() == IndexState(|vector|, old(State()).records + [Record(id, text, vector)])
      ensures err.Some? ==> unchanged(this)
      ensures err.None? ==> |records| > 0 && records[|records| - 1].order == |old(records)|
    {
      if id == "" {
        return Some(EmptyId);
      }
      var checked := VectorNorm(sqrt, vector);
      if checked.Err? {
        return Some(BadVector(checked.error));
      }
      if dimension == 0 {
        dimension := |vector|;
      } else if |vector| != dimension {
        return Some(DimensionMismatch(|vector|, dimension));
      }
      records := records + [Entry(Record(id, text, vector), checked.value, |records|)];
      return None;
    }

    /** Removes the first record with the id; the order numbers of the others stay. */
    method Delete(id: string) returns (err: Option<IndexError>)
      requires Valid()
      modifies this`records
      ensures Valid()
      ensures err == DeleteFault(old(State()), id)
      ensures State() == AfterDelete(old(State()), id)
      ensures if err.Some? then records == old(records)
              else exists i :: 0 <= i < |old(records)| && records == old(records)[..i] + old(records)[i + 1..]
    {
      for i := 0 to |records|
        invariant forall j :: 0 <= j < i ==> records[j].record.id != id
        invariant records == old(records)
      {
        if records[i].record.id == id {
          RemoveFirstAt(RecordsOf(records), id, i);
          assert State().records[i].id == id;
          records := records[..i] + records[i + 1..];
          return None;
        }
      }
      RemoveFirstAbsent(RecordsOf(records), id);
      return Some(NotFound(id));
    }

    /** Why a search is refused: an empty index answers before it looks at the dimension. */
    ghost function SearchFault(query: Vector, k: int): Option<IndexError>
      reads this
    {
      if k <= 0 then None
      else if VectorFault(query).Some? then Some(BadVector(VectorFault(query).value))
      else if records != [] && |query| != dimension then Some(DimensionMismatch(|query|, dimension))
      else None
    }

    method Search(query: Vector, k: int) returns (r: Result<seq<TextHit>, IndexError>)
      requires Valid()
      ensures SearchFault(query, k).Some? ==> r == Err(SearchFault(query, k).value)
      ensures SearchFault(query, k).None? ==> r.Ok?
      ensures k <= 0 ==> r == Ok([])
      ensures k > 0 && |query| == 0 ==> r == Err(BadVector(EmptyVector))
      ensures k > 0 && |query| > 0 && (forall i :: 0 <= i < |query| ==> query[i] == 0.0) ==>
                r == Err(BadVector(ZeroNorm))
      ensures k > 0 && (exists i :: 0 <= i < |query| && query[i] != 0.0) ==>
                && (records == [] ==> r == Ok([]))
                && (records != [] && |query| != dimension ==> r == Err(DimensionMismatch(|query|, dimension)))
                && (records != [] && |query| == dimension ==> r.Ok?)
      ensures r.Ok? && k > 0 ==>
                IsScan(records, query, sqrt(Dot(query, query)), k, r.value) &&
                IsTopK(multiset(RecordHits(State().records, query, sqrt(Dot(query, query)), sqrt)), r.value, k)
    {
      hide IsTopK;
      if k <= 0 {
        return Ok([]);
      }
      var checked := VectorNorm(sqrt, query);
      if checked.Err? {
        return Err(BadVector(checked.error));
      }
      if |records| == 0 {
        EmptyScan(query, checked.value, k);
        ScanIsExact(records, dimension, sqrt, query, checked.value, k, []);
        return Ok([]);
      }
      if |query| != dimension {
        return Err(DimensionMismatch(|query|, dimension));
      }
      var out := SearchBruteForceLocked(query, checked.value, k);
      ScanIsExact(records, dimension, sqrt, query, checked.value, k, out);
      return Ok(out);
    }

    /** Scores every entry, sorts, and cuts after k. */
    method SearchBruteForceLocked(query: Vector, queryNorm: real, k: nat) returns (out: seq<TextHit>)
      requires Valid() && |query| == dimension && queryNorm > 0.0
      ensures IsScan(records, query, queryNorm, k, out)
    {
      var scored: seq<ScoredEntry> := [];
      for i := 0 to |records|
        invariant |scored| == i
        invariant forall j :: 0 <= j < i ==> scored[j] == ScoreOf(records[j], query, queryNorm)
      {
        var e := records[i];
        var score := CosineSimilarity(query, queryNorm, e.record.vector, e.norm);
        scored := scored + [ScoredEntry(Hit(e.record.id, e.record.text, score), e.order)];
      }
      assert scored == ScoresOf(records, query, queryNorm);
      var ranked; ghost var from;
      ranked, from := SortSliceStable(scored, RanksBefore);
      var n := if k > |ranked| then |ranked| else k;
      out := HitsOf(ranked)[..n];
    }

    method List() returns (out: seq<Record>)
      requires Valid()
      ensures out == State().records
    {
      out := [];
      for i := 0 to |records|
        invariant out == RecordsOf(records)[..i]
      {
        out := out + [records[i].record];
      }
    }
  }

  lemma EmptyScan(query: Vector, queryNorm: real, k: nat)
    ensures IsScan([], query, queryNorm, k, [])
  {
    assert multiset(ScoresOf([], query, queryNorm)) == multiset{};
    var none: seq<ScoredEntry> := [];
    assert StablySorted(ScoresOf([], query, queryNorm), RanksBefore, none, []) && HitsOf(none)[..0] == [];
  }
}
