/** Generated document ids (internal/coordinator/coordinator.go): "doc-" and a decimal counter, and the
    parsing that restores the counter after a restart. */
module DocIds {
  import opened Results
  import opened Sharding

  const MAX_UINT64: int := 0xFFFF_FFFF_FFFF_FFFF
  const PREFIX := "doc-"

  function Digit(d: nat): char
    requires d < 10
  {
    (d + '0' as int) as char
  }

  predicate IsDigit(c: char) {
    '0' <= c <= '9'
  }

  /** Decimal printing. */
  function Decimal(n: nat): string {
    if n < 10 then [Digit(n)] else Decimal(n / 10) + [Digit(n % 10)]
  }

  /** The number a string of digits denotes. */
  function Value(s: string): nat
    requires forall i :: 0 <= i < |s| ==> IsDigit(s[i])
  {
    if s == "" then 0
    else
      assert IsDigit(s[|s| - 1]);
      10 * Value(s[..|s| - 1]) + (s[|s| - 1] as int - '0' as int)
  }

  /** Parsing an unsigned 64-bit decimal: digits only, at least one, and no overflow. */
  function ParseUint(s: string): Option<nat> {
    if s != "" && (forall i :: 0 <= i < |s| ==> IsDigit(s[i])) && Value(s) <= MAX_UINT64 then Some(Value(s)) else None
  }

  /** The number at the end of a generated-looking id. */
  function Suffix(id: string): Option<nat> {
    if PREFIX <= id then ParseUint(id[|PREFIX|..]) else None
  }

  function DocId(n: nat): string {
    PREFIX + Decimal(n)
  }

  lemma {:induction false} DecimalDenotes(n: nat)
    ensures Decimal(n) != "" && (forall i :: 0 <= i < |Decimal(n)| ==> IsDigit(Decimal(n)[i])) && Value(Decimal(n)) == n
  {
    if n >= 10 {
      DecimalDenotes(n / 10);
      assert Decimal(n)[..|Decimal(n)| - 1] == Decimal(n / 10);
    }
  }

  ghost function Power10(n: nat): (p: nat)
    ensures p >= 1
  {
    if n == 0 then 1 else 10 * Power10(n - 1)
  }

  /** The i-th digit from the right counts the i-th power of ten. */
  lemma {:induction false} ValueDigits(s: string)
    requires forall i :: 0 <= i < |s| ==> IsDigit(s[i])
    ensures Value(s) < Power10(|s|)
    ensures forall i :: 0 <= i < |s| ==> s[|s| - 1 - i] as int == '0' as int + Value(s) / Power10(i) % 10
    decreases |s|
  {
    if s != "" {
      var n, t := Value(s), s[..|s| - 1];
      ValueDigits(t);
      assert IsDigit(s[|s| - 1]);
      assert n / 10 == Value(t) && s[|s| - 1] as int == '0' as int + n % 10;
      hide Value;
      forall i | 0 <= i < |s|
        ensures s[|s| - 1 - i] as int == '0' as int + n / Power10(i) % 10
      {
        if i > 0 {
          assert s[|s| - 1 - i] == t[|t| - 1 - (i - 1)];
          ShiftDigit(n, i);
        }
      }
    }
  }

  lemma ShiftDigit(n: nat, i: nat)
    requires i > 0
    ensures n / Power10(i) == n / 10 / Power10(i - 1)
  {
    DivideTwice(n, Power10(i - 1));
  }

  /** Printing, digit by digit: the i-th from the right is that of the i-th power of ten, and only 0 itself begins
      with a zero. */
  lemma DecimalDigits(n: nat)
    ensures var s := Decimal(n);
            && |s| > 0 && n < Power10(|s|) && (s[0] == '0' <==> n == 0) && (n == 0 ==> |s| == 1)
            && forall i :: 0 <= i < |s| ==> s[|s| - 1 - i] as int == '0' as int + n / Power10(i) % 10
  {
    DecimalDenotes(n);
    ValueDigits(Decimal(n));
    NoLeadingZero(n);
  }

  lemma {:induction false} NoLeadingZero(n: nat)
    ensures Decimal(n) != "" && (Decimal(n)[0] == '0' <==> n == 0)
  {
    if n >= 10 {
      NoLeadingZero(n / 10);
    }
  }

  lemma DivideTwice(n: nat, p: nat)
    requires p >= 1
    ensures n / (10 * p) == n / 10 / p
  {
    var q, r := n / 10 / p, n / 10 % p;
    assert n == 10 * (q * p + r) + n % 10;
    assert n == q * (10 * p) + (10 * r + n % 10);
    ModUnique(n, q, 10 * r + n % 10, 10 * p);
  }

  /** Parsing inverts printing. */
  lemma SuffixOfDocId(n: nat)
    requires n <= MAX_UINT64
    ensures Suffix(DocId(n)) == Some(n)
  {
    DecimalDenotes(n);
    assert DocId(n)[|PREFIX|..] == Decimal(n);
  }

  lemma DocIdsDiffer(n: nat, n': nat)
    requires n <= MAX_UINT64 && n' <= MAX_UINT64 && n != n'
    ensures DocId(n) != DocId(n')
  {
    SuffixOfDocId(n);
    SuffixOfDocId(n');
  }

  /** The counter is at least every number at the end of a stored id. */
  ghost predicate Bounds(counter: nat, ids: set<string>) {
    forall id :: id in ids && Suffix(id).Some? ==> Suffix(id).value <= counter
  }

  /** The counter after one more id, with 64-bit wrap-around. */
  function Bump(counter: nat): (n: nat)
    ensures counter < MAX_UINT64 ==> n == counter + 1
    ensures counter == MAX_UINT64 ==> n == 0
  {
    (counter + 1) % (MAX_UINT64 + 1)
  }

  /** No id that is still to be generated is taken. */
  ghost predicate Clear(counter: nat, ids: set<string>) {
    forall n: nat :: counter < n <= MAX_UINT64 ==> DocId(n) !in ids
  }

  /** The id is printed from a number that the counter has yet to reach; parsing it tells. */
  predicate RunsAhead(counter: nat, id: string) {
    Suffix(id).Some? && Suffix(id).value > counter && id == DocId(Suffix(id).value)
  }

  /** Only such an id is one of those still to be generated. */
  lemma AheadIsGeneratedLater(counter: nat, id: string)
    ensures RunsAhead(counter, id) <==> exists n: nat :: counter < n <= MAX_UINT64 && id == DocId(n)
  {
    if n: nat :| counter < n <= MAX_UINT64 && id == DocId(n) {
      SuffixOfDocId(n);
    }
  }

  /** A bound leaves the ids ahead of it free, but not the other way around: "doc-07" ends in 7 and is
      never generated. */
  lemma BoundIsClear(counter: nat, ids: set<string>)
    ensures Bounds(counter, ids) ==> Clear(counter, ids)
    ensures !Bounds(0, {"doc-07"}) && Clear(0, {"doc-07"})
  {
    if Bounds(counter, ids) {
      forall n: nat | counter < n <= MAX_UINT64
        ensures DocId(n) !in ids
      {
        SuffixOfDocId(n);
      }
    }
    DecimalDenotes(7);
    assert Suffix("doc-07") == Some(7) by {
      assert "doc-07"[4..] == "07" && "07"[..1] == "0" && "0"[..0] == "";
      assert Value("") == 0 && Value("0") == 0 && Value("07") == 7;
    }
    assert Decimal(7) == "7";
    AheadIsGeneratedLater(0, "doc-07");
  }

  /** An id generated while the ids ahead are free is new, and they stay free. */
  lemma GeneratedIsFresh(counter: nat, ids: set<string>)
    requires Clear(counter, ids) && counter < MAX_UINT64
    ensures Bump(counter) == counter + 1
    ensures DocId(Bump(counter)) !in ids
    ensures Clear(Bump(counter), ids + {DocId(Bump(counter))})
  {
    forall n: nat | counter + 1 < n <= MAX_UINT64
      ensures DocId(n) != DocId(counter + 1)
    {
      DocIdsDiffer(n, counter + 1);
    }
  }

  /** An id supplied by the caller keeps the ids ahead free if and only if it does not run ahead of the
      counter. */
  lemma SuppliedKeepsClear(counter: nat, ids: set<string>, id: string)
    requires Clear(counter, ids)
    ensures Clear(counter, ids + {id}) <==> !RunsAhead(counter, id)
  {
    AheadIsGeneratedLater(counter, id);
  }

  // ---------- Restoring the counter ----------

  ghost function MaxSuffix(ids: seq<string>): nat {
    if ids == [] then 0
    else
      var front, last := MaxSuffix(ids[..|ids| - 1]), Suffix(ids[|ids| - 1]);
      if last.Some? && last.value > front then last.value else front
  }

  /** The scan at start-up yields a bound, and no larger one than it must. */
  lemma {:induction false} MaxSuffixIsLeastBound(ids: seq<string>)
    ensures Bounds(MaxSuffix(ids), set id | id in ids)
    ensures MaxSuffix(ids) == 0 || exists id :: id in ids && Suffix(id) == Some(MaxSuffix(ids))
    ensures MaxSuffix(ids) <= MAX_UINT64
  {
    if ids != [] {
      var n := |ids| - 1;
      MaxSuffixIsLeastBound(ids[..n]);
      assert ids == ids[..n] + [ids[n]];
      assert ids[n] in ids;
      if MaxSuffix(ids) == MaxSuffix(ids[..n]) && MaxSuffix(ids) > 0 {
        var id :| id in ids[..n] && Suffix(id) == Some(MaxSuffix(ids));
        assert id in ids;
      }
    }
  }

  // ---------- Runs ----------

  datatype IdEvent =
    | Generate(stored: bool)       // an insertion without an id; a shard may refuse the article
    | Supply(id: string)           // an insertion with the caller's id
    | Forget(id: string)           // a deletion
    | Restart(listing: seq<string>)

  datatype IdState = IdState(counter: nat, ids: set<string>)

  ghost function IdNext(s: IdState, e: IdEvent): IdState {
    match e
    case Generate(stored) =>
      var n := Bump(s.counter);
      IdState(n, if stored then s.ids + {DocId(n)} else s.ids)
    case Supply(id) => s.(ids := s.ids + {id})
    case Forget(id) => s.(ids := s.ids - {id})
    case Restart(listing) => s.(counter := MaxSuffix(listing))
  }

  /** The ids generated by insertions in a row are all new when their turn comes. */
  ghost predicate AllNew(s: IdState, stored: seq<bool>)
    decreases |stored|
  {
    stored == [] || (DocId(Bump(s.counter)) !in s.ids && AllNew(IdNext(s, Generate(stored[0])), stored[1..]))
  }

  /** The next ids to be generated, however many and whether or not their articles are stored, are all new if
      and only if none of them is taken at the outset. */
  lemma {:induction false} AllNewExactly(s: IdState, stored: seq<bool>)
    requires s.counter + |stored| <= MAX_UINT64
    ensures AllNew(s, stored) <==> forall n: nat :: s.counter < n <= s.counter + |stored| ==> DocId(n) !in s.ids
    decreases |stored|
  {
    hide DocId;
    hide Suffix;
    if stored != [] {
      var next := IdNext(s, Generate(stored[0]));
      assert next.counter == s.counter + 1;
      AllNewExactly(next, stored[1..]);
      forall n: nat | s.counter + 1 < n <= s.counter + |stored|
        ensures DocId(n) in next.ids <==> DocId(n) in s.ids
      {
        DocIdsDiffer(n, s.counter + 1);
      }
    }
  }

  /** From a state with the ids ahead free, a supplied id makes a later generated one collide if and only if it
      runs ahead of the counter; the collision comes when the counter gets there. */
  lemma SuppliedIdCollides(s: IdState, id: string, stored: seq<bool>)
    requires Clear(s.counter, s.ids) && s.counter + |stored| <= MAX_UINT64
    ensures !AllNew(IdNext(s, Supply(id)), stored) <==>
              RunsAhead(s.counter, id) && Suffix(id).value <= s.counter + |stored|
  {
    AllNewExactly(IdNext(s, Supply(id)), stored);
    forall n: nat | s.counter < n <= s.counter + |stored|
      ensures DocId(n) in s.ids + {id} <==> RunsAhead(s.counter, id) && n == Suffix(id).value
    {
      SuffixOfDocId(n);
    }
  }

  /** The counter has room, a supplied id does not run ahead of it, and a restart sees what is stored. */
  ghost predicate Allowed(s: IdState, e: IdEvent) {
    match e
    case Generate(_) => s.counter < MAX_UINT64
    case Supply(id) => !RunsAhead(s.counter, id)
    case Forget(_) => true
    case Restart(listing) => (set id | id in listing) == s.ids
  }

  ghost function IdRun(s: IdState, events: seq<IdEvent>): IdState {
    if events == [] then s else IdNext(IdRun(s, events[..|events| - 1]), events[|events| - 1])
  }

  ghost predicate AllAllowed(s: IdState, events: seq<IdEvent>) {
    forall i :: 0 <= i < |events| ==> Allowed(IdRun(s, events[..i]), events[i])
  }

  lemma {:induction false} RunKeepsClear(events: seq<IdEvent>)
    requires AllAllowed(IdState(0, {}), events)
    ensures var s := IdRun(IdState(0, {}), events);
            Clear(s.counter, s.ids)
    decreases |events|
  {
    if events != [] {
      var n := |events| - 1;
      var front := events[..n];
      assert forall i :: 0 <= i < n ==> front[i] == events[i] && front[..i] == events[..i];
      RunKeepsClear(front);
      var s := IdRun(IdState(0, {}), front);
      match events[n] {
        case Generate(_) => GeneratedIsFresh(s.counter, s.ids);
        case Supply(id) => SuppliedKeepsClear(s.counter, s.ids, id);
        case Forget(_) =>
        case Restart(listing) =>
          MaxSuffixIsLeastBound(listing);
          BoundIsClear(MaxSuffix(listing), s.ids);
      }
    }
  }

  /** Over whole runs, restarts included, every generated id differs from every id stored at that moment. */
  lemma RunGeneratesFreshIds(events: seq<IdEvent>, i: nat)
    requires AllAllowed(IdState(0, {}), events)
    requires i < |events| && events[i].Generate?
    ensures var s := IdRun(IdState(0, {}), events[..i]);
            DocId(Bump(s.counter)) !in s.ids
  {
    var front := events[..i];
    assert forall j :: 0 <= j < i ==> front[j] == events[j] && front[..j] == events[..j];
    RunKeepsClear(front);
    var s := IdRun(IdState(0, {}), front);
    assert Allowed(s, events[i]);
    GeneratedIsFresh(s.counter, s.ids);
  }
}
