/** The shard map and the document hash of internal/models/shard.go, with 64-bit integers that wrap. */
module Sharding {
  const TWO_63: int := 0x8000_0000_0000_0000
  const TWO_64: int := 0x1_0000_0000_0000_0000
  const MIN_INT: int := -0x8000_0000_0000_0000

  /** The 64-bit integer congruent to x. */
  function Wrap(x: int): int {
    (x + TWO_63) % TWO_64 - TWO_63
  }

  /** The remainder as the program computes it, truncating toward zero. */
  function Rem(a: int, b: int): int
    requires b > 0
  {
    if a >= 0 then a % b else -((-a) % b)
  }

  /** The polynomial that the hash evaluates, without wrapping. */
  ghost function Poly(s: string): nat {
    if s == "" then 0 else 31 * Poly(s[..|s| - 1]) + s[|s| - 1] as int
  }

  /** The magnitude of a 64-bit integer; the least one has none and stays. */
  function Magnitude(w: int): int {
    if w == MIN_INT then w else if w < 0 then -w else w
  }

  lemma WrapRange(x: int)
    ensures MIN_INT <= Wrap(x) < TWO_63
  {
  }

  lemma WrapMultiple(x: int, k: int)
    ensures Wrap(x + k * TWO_64) == Wrap(x)
  {
    ModShift(x + TWO_63, k, TWO_64);
    assert x + k * TWO_64 + TWO_63 == x + TWO_63 + k * TWO_64;
  }

  lemma ModShift(x: int, k: int, m: int)
    requires m > 0
    ensures (x + k * m) % m == x % m
  {
    var q, r := x / m, x % m;
    assert x == q * m + r;
    assert x + k * m == (q + k) * m + r;
    ModUnique(x + k * m, q + k, r, m);
  }

  lemma ModUnique(x: int, q: int, r: int, m: int)
    requires m > 0 && 0 <= r < m && x == q * m + r
    ensures x % m == r && x / m == q
  {
    var q', r' := x / m, x % m;
    var d := q - q';
    assert q * m == q' * m + d * m;
    if d > 0 {
      ProductAtLeast(d, m);
    } else if d < 0 {
      ProductAtLeast(-d, m);
    }
  }

  lemma ProductAtLeast(k: int, m: int)
    requires k >= 1 && m > 0
    ensures k * m >= m
  {
    assert (k - 1) * m >= 0;
    assert k * m == (k - 1) * m + m;
  }

  /** Wrapping in every round is the same as wrapping once. */
  lemma WrapRound(x: int, c: int)
    ensures Wrap(31 * Wrap(x) + c) == Wrap(31 * x + c)
  {
    var k := (x + TWO_63) / TWO_64;
    assert x == Wrap(x) + k * TWO_64;
    WrapMultiple(31 * Wrap(x) + c, 31 * k);
    assert 31 * x + c == 31 * Wrap(x) + c + (31 * k) * TWO_64;
  }

  /** w is the 64-bit integer that x wraps to. */
  ghost predicate IsResidue(x: int, w: int) {
    -TWO_63 <= w < TWO_63 && (x - w) % TWO_64 == 0
  }

  /** h is the magnitude of the polynomial's 64-bit residue; the least residue has none and stays. */
  ghost predicate IsHash(s: string, h: int) {
    exists w :: IsResidue(Poly(s), w) && (h == w || h == -w) && (h < 0 <==> w == -TWO_63) && h < TWO_63
  }

  lemma WrapIsResidue(x: int, w: int)
    ensures IsResidue(x, w) <==> w == Wrap(x)
  {
    var k := (x + TWO_63) / TWO_64;
    assert x == Wrap(x) + k * TWO_64;
  }

  /** A string has one hash. */
  lemma HashExactly(s: string, h: int)
    ensures IsHash(s, h) <==> h == Magnitude(Wrap(Poly(s)))
  {
    WrapIsResidue(Poly(s), Wrap(Poly(s)));
    if w :| IsResidue(Poly(s), w) && (h == w || h == -w) && (h < 0 <==> w == -TWO_63) && h < TWO_63 {
      WrapIsResidue(Poly(s), w);
    }
  }

  ghost function Power31(n: nat): nat {
    if n == 0 then 1 else 31 * Power31(n - 1)
  }

  /** The first character carries the highest power. */
  lemma {:induction false} PolyOfCons(c: char, s: string)
    ensures Poly([c] + s) == c as int * Power31(|s|) + Poly(s)
    decreases |s|
  {
    if s == "" {
      assert ([c] + s)[..0] == "";
    } else {
      var front := s[..|s| - 1];
      PolyOfCons(c, front);
      assert ([c] + s)[..|s|] == [c] + front;
      assert c as int * Power31(|s|) == 31 * (c as int * Power31(|front|));
    }
  }

  /** The loop wraps in every round, and so may the final negation. */
  method HashString(s: string) returns (h: int)
    ensures h == Magnitude(Wrap(Poly(s)))
    ensures IsHash(s, h) && (h >= 0 || h == MIN_INT)
  {
    h := 0;
    for i := 0 to |s|
      invariant h == Wrap(Poly(s[..i]))
    {
      assert s[..i + 1][..i] == s[..i];
      WrapRound(Poly(s[..i]), s[i] as int);
      h := Wrap(31 * h + s[i] as int);
    }
    assert s[..|s|] == s;
    WrapRange(Poly(s));
    HashExactly(s, Magnitude(Wrap(Poly(s))));
    if h < 0 {
      h := Wrap(-h);
    }
  }

  /** The shard a document belongs to: a residue of its hash. */
  ghost function ShardOf(id: string, numShards: int): int {
    if numShards <= 0 then 0 else Magnitude(Wrap(Poly(id))) % numShards
  }

  /** The shard is the one in range that differs from the hash, which may be negative, by whole multiples of the
      number of shards. */
  lemma ShardExactly(id: string, numShards: int, h: int, shard: int)
    requires numShards > 0 && IsHash(id, h)
    ensures shard == ShardOf(id, numShards) <==> 0 <= shard < numShards && (h - shard) % numShards == 0
  {
    HashExactly(id, h);
    RemainderExactly(h, numShards, shard);
  }

  lemma RemainderExactly(x: int, m: int, r: int)
    requires m > 0
    ensures r == x % m <==> 0 <= r < m && (x - r) % m == 0
  {
    if r == x % m {
      assert x - r == (x / m) * m;
      ModUnique(x - r, x / m, 0, m);
    } else if 0 <= r < m && (x - r) % m == 0 {
      assert x == ((x - r) / m) * m + r;
      ModUnique(x, (x - r) / m, r, m);
    }
  }

  lemma ShardInRange(id: string, numShards: int)
    requires numShards > 0
    ensures 0 <= ShardOf(id, numShards) < numShards
  {
  }

  /** A truncated remainder, moved up by the modulus when negative, is the true residue. */
  lemma RemAdjusted(a: int, b: int)
    requires b > 0
    ensures a % b == if Rem(a, b) < 0 then Rem(a, b) + b else Rem(a, b)
  {
    if a < 0 {
      var q, r := (-a) / b, (-a) % b;
      assert -a == q * b + r;
      if r == 0 {
        assert a == (-q) * b;
        ModUnique(a, -q, 0, b);
      } else {
        assert a == (-q - 1) * b + (b - r);
        ModUnique(a, -q - 1, b - r, b);
      }
    }
  }

  datatype ShardInfo = ShardInfo(shardID: int, primaryAddr: string, replicaAddr: string, isHealthy: bool)

  class ShardMap {
    const numShards: int
    var shards: map<int, ShardInfo>

    constructor (numShards: int)
      ensures this.numShards == numShards
      ensures forall i :: i in shards <==> 0 <= i < numShards
      ensures forall i :: i in shards ==> shards[i] == ShardInfo(i, "", "", true)
    {
      this.numShards := numShards;
      var filled: map<int, ShardInfo> := map[];
      var i := 0;
      while i < numShards
        invariant 0 <= i && (i <= numShards || i == 0)
        invariant forall j :: j in filled <==> 0 <= j < i
        invariant forall j :: j in filled ==> filled[j] == ShardInfo(j, "", "", true)
      {
        filled := filled[i := ShardInfo(i, "", "", true)];
        i := i + 1;
      }
      shards := filled;
    }

    /** Every string has a shard in range, also when its hash is the least integer. */
    method GetShardForID(docID: string) returns (shard: int)
      ensures shard == ShardOf(docID, numShards)
      ensures numShards > 0 ==> 0 <= shard < numShards
    {
      if numShards <= 0 {
        return 0;
      }
      var hash := HashString(docID);
      shard := Rem(hash, numShards);
      RemAdjusted(hash, numShards);
      if shard < 0 {
        shard := shard + numShards;
      }
    }
  }

  /** A document id whose hash is the least integer, so that the adjustment is needed. */
  const WRAPPING_ID := "7jykwhuswmnjf"

  lemma PolyStep(s: string, i: nat, p: nat)
    requires i < |s| && Poly(s[..i]) == p
    ensures Poly(s[..i + 1]) == 31 * p + s[i] as int
  {
    assert s[..i + 1][..i] == s[..i];
  }

  lemma PolyOfFirstHalf()
    ensures Poly(WRAPPING_ID[..6]) == 1676207862
  {
    var s := WRAPPING_ID;
    PolyStep(s, 0, 0);
    PolyStep(s, 1, 55);
    PolyStep(s, 2, 1811);
    PolyStep(s, 3, 56262);
    PolyStep(s, 4, 1744229);
    PolyStep(s, 5, 54071218);
  }

  lemma PolyOfWrappingId()
    ensures Poly(WRAPPING_ID) == 5 * TWO_63
  {
    var s := WRAPPING_ID;
    PolyOfFirstHalf();
    PolyStep(s, 6, 1676207862);
    PolyStep(s, 7, 51962443839);
    PolyStep(s, 8, 1610835759124);
    PolyStep(s, 9, 49935908532963);
    PolyStep(s, 10, 1548013164521962);
    PolyStep(s, 11, 47988408100180932);
    PolyStep(s, 12, 1487640651105608998);
    assert s[..13] == s;
  }

  /** Without the adjustment this id would be sent to a shard that does not exist. */
  lemma HashCanBeNegative()
    ensures Magnitude(Wrap(Poly(WRAPPING_ID))) == MIN_INT
    ensures Rem(MIN_INT, 3) < 0 && ShardOf(WRAPPING_ID, 3) == 1
  {
    PolyOfWrappingId();
  }
}
