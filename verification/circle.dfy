/** Points of which each new one is most similar to the last, and two queries: one whose similarity falls along the
    points, and one that is most similar to a last point lifted out of the plane of the others. */
module Circle {
  import opened Chains
  import opened IndexSpec
  import opened Selection
  import opened Vectors

  /** Points (2x + 1, 2x^2 + 2x) at distance 2x^2 + 2x + 1 from the origin, the last one possibly lifted out of
      the plane; all norms are rational. */
  function Leg(x: real): real { 2.0 * x * x + 2.0 * x }

  function Hyp(x: real): real { Leg(x) + 1.0 }

  function ChainRecord(i: nat, lifted: bool): Record {
    var x := i as real;
    Record(seq(i + 1, _ => 'a'), "", [2.0 * x + 1.0, Leg(x), if lifted then 0.75 * Hyp(x) else 0.0])
  }

  function ChainRecords(n: nat, lifted: bool): (r: seq<Record>)
    ensures |r| == n && forall i :: 0 <= i < n ==> r[i] == ChainRecord(i, lifted && i + 1 == n)
  {
    seq(n, i requires 0 <= i < n => ChainRecord(i, lifted && i + 1 == n))
  }

  lemma DotOfThree(a: Vector, b: Vector)
    requires |a| == |b| == 3
    ensures Dot(a, b) == a[0] * b[0] + a[1] * b[1] + a[2] * b[2]
  {
    assert DotTo(a, b, 1) == a[0] * b[0];
    assert DotTo(a, b, 2) == a[0] * b[0] + a[1] * b[1];
  }

  lemma RootUnique(sqrt: real -> real, x: real, square: real)
    requires IsSqrt(sqrt) && x >= 0.0 && square == x * x
    ensures sqrt(square) == x
  {
    var r := sqrt(square);
    assert square >= 0.0;
    assert r * r == x * x;
    assert (r - x) * (r + x) == 0.0;
    if r > x {
      ProductSign(r - x, r + x, 0.0);
      assert false;
    } else if r < x {
      ProductSign(x - r, r + x, 0.0);
      assert false;
    }
  }

  lemma HypPositive(x: real)
    requires x >= 0.0
    ensures Leg(x) >= 0.0 && Hyp(x) >= 1.0
  {
  }

  lemma Pythagoras(x: real)
    ensures (2.0 * x + 1.0) * (2.0 * x + 1.0) + Leg(x) * Leg(x) == Hyp(x) * Hyp(x)
  {
    var t := Leg(x);
    assert (2.0 * x + 1.0) * (2.0 * x + 1.0) == 2.0 * t + 1.0;
    assert (t + 1.0) * (t + 1.0) == t * t + 2.0 * t + 1.0;
  }

  lemma ChainNorm(i: nat, lifted: bool, sqrt: real -> real)
    requires IsSqrt(sqrt)
    ensures NormOf(ChainRecord(i, lifted), sqrt) == if lifted then 1.25 * Hyp(i as real) else Hyp(i as real)
  {
    var v, x := ChainRecord(i, lifted).vector, i as real;
    var h := Hyp(x);
    DotOfThree(v, v);
    Pythagoras(x);
    HypPositive(x);
    var norm := if lifted then 1.25 * h else h;
    assert v[2] * v[2] == if lifted then 0.5625 * (h * h) else 0.0;
    assert norm * norm == if lifted then 1.5625 * (h * h) else h * h;
    RootUnique(sqrt, norm, Dot(v, v));
  }

  /** The dot product of two points of the circle falls short of the product of their norms by twice the square of
      their distance along it. */
  lemma DotOnCircle(x: real, y: real)
    ensures (2.0 * x + 1.0) * (2.0 * y + 1.0) + Leg(x) * Leg(y) == Hyp(x) * Hyp(y) - 2.0 * ((x - y) * (x - y))
  {
  }

  ghost function Square(x: real): real { x * x }

  ghost function Ratio(p: real, q: real, r: real): real
    requires q > 0.0 && r > 0.0
  {
    ProductSign(q, r, q * r);
    p / (q * r)
  }

  /** How far the similarity of two points of the circle is from 1, up to a factor of 2. */
  ghost function Loss(x: real, y: real): real
    requires x >= 0.0 && y >= 0.0
  {
    HypPositive(x);
    HypPositive(y);
    Ratio(Square(x - y), Hyp(x), Hyp(y))
  }

  lemma ProductGrows(a: real, b: real, c: real)
    requires a < b && c > 0.0
    ensures a * c < b * c
  {
  }

  lemma SquareGrows(a: real, b: real)
    requires 0.0 <= a < b
    ensures a * a < b * b
  {
    ProductSign(b, b, b * b);
    if a > 0.0 {
      ProductGrows(a, b, b);
      ProductGrows(a, b, a);
    } else {
      assert a * a == 0.0;
    }
  }

  lemma FractionsCompare(p: real, q: real, r: real, t: real)
    requires q > 0.0 && t > 0.0 && p * t < r * q
    ensures p / q < r / t
  {
    var a, b := p / q, r / t;
    assert a * q == p && b * t == r;
    ProductSign(q, t, q * t);
    var qt := q * t;
    assert p * t == a * qt && r * q == b * qt;
    QuotientGrows(a, b, qt);
  }

  lemma QuotientGrows(a: real, b: real, c: real)
    requires c > 0.0 && a * c < b * c
    ensures a < b
  {
  }

  lemma Distribute(p: real, c: real, q: real, r: real)
    ensures p * (c + q + r) == p * c + p * q + p * r
  {
  }

  lemma Swap4(k: real, a: real, b: real)
    ensures (a * a) * (k * b) == (k * (a * b)) * a && (b * b) * (k * a) == (k * (a * b)) * b
    ensures (a * a) * (2.0 * (b * b)) == (b * b) * (2.0 * (a * a))
  {
  }

  /** The square of the longer way outgrows the distance from the origin. */
  lemma CrossTerms(c: real, k: real, a: real, b: real)
    requires c > 0.0 && k > 0.0 && 0.0 < a < b
    ensures (a * a) * (c + k * b + 2.0 * (b * b)) < (b * b) * (c + k * a + 2.0 * (a * a))
  {
    Distribute(a * a, c, k * b, 2.0 * (b * b));
    Distribute(b * b, c, k * a, 2.0 * (a * a));
    Swap4(k, a, b);
    SquareGrows(a, b);
    ProductGrows(a * a, b * b, c);
    ProductSign(a, b, a * b);
    ProductSign(k, a * b, k * (a * b));
    ProductGrows(a, b, k * (a * b));
  }

  lemma HypAhead(x: real, a: real)
    ensures Hyp(x + a) == Hyp(x) + (4.0 * x + 2.0) * a + 2.0 * (a * a)
  {
  }

  lemma HypGrows(x: real, y: real)
    requires 0.0 <= x < y
    ensures 0.0 < Hyp(x) < Hyp(y)
  {
    SquareGrows(x, y);
    assert Leg(x) == 2.0 * (x * x) + 2.0 * x && Leg(y) == 2.0 * (y * y) + 2.0 * y;
  }

  lemma SquaresGrow(a: real, b: real)
    requires 0.0 <= a < b
    ensures 0.0 <= Square(a) < Square(b)
  {
    SquareGrows(a, b);
  }

  lemma ThreeFactors(near: real, far: real, hx: real, hy: real, hz: real)
    requires 0.0 < hx < hy && hz > 0.0 && 0.0 <= near < far
    ensures Ratio(near, hz, hy) < Ratio(far, hz, hx)
  {
    ProductSign(hz, hy, hz * hy);
    ProductSign(hz, hx, hz * hx);
    var a, b := hz * hx, hz * hy;
    ProductGrows(hx, hy, hz);
    ProductGrows(near, far, b);
    assert near * a <= near * b;
    FractionsCompare(near, b, far, a);
  }

  lemma CommonFactor(near: real, far: real, hx: real, hy: real, hz: real)
    requires hx > 0.0 && hy > 0.0 && hz > 0.0 && near * hz < far * hy
    ensures Ratio(near, hx, hy) < Ratio(far, hz, hx)
  {
    ProductSign(hx, hy, hx * hy);
    ProductSign(hz, hx, hz * hx);
    ProductGrows(near * hz, far * hy, hx);
    assert near * (hz * hx) == near * hz * hx && far * (hx * hy) == far * hy * hx;
    FractionsCompare(near, hx * hy, far, hz * hx);
  }

  /** The nearer of two earlier points loses less. */
  lemma LossBehind(x: real, y: real, z: real)
    requires 0.0 <= x < y < z
    ensures Loss(z, y) < Loss(z, x)
  {
    hide Hyp;
    hide Leg;
    hide Square;
    hide Ratio;
    HypGrows(x, y);
    HypGrows(y, z);
    SquaresGrow(z - y, z - x);
    ThreeFactors(Square(z - y), Square(z - x), Hyp(x), Hyp(y), Hyp(z));
  }

  lemma SquaresAhead(x: real, y: real, z: real)
    requires 0.0 <= x < y < z
    ensures Square(x - y) * Hyp(z) < Square(z - x) * Hyp(y)
  {
    hide Hyp;
    hide Leg;
    var a, b := y - x, z - x;
    HypGrows(x, y);
    HypAhead(x, a);
    HypAhead(x, b);
    assert x + a == y && x + b == z;
    CrossTerms(Hyp(x), 4.0 * x + 2.0, a, b);
    assert Square(x - y) == a * a;
  }

  /** The nearer of two later points loses less. */
  lemma LossAhead(x: real, y: real, z: real)
    requires 0.0 <= x < y < z
    ensures Loss(x, y) < Loss(z, x)
  {
    hide Hyp;
    hide Leg;
    hide Square;
    hide Ratio;
    HypGrows(x, y);
    HypGrows(y, z);
    SquaresAhead(x, y, z);
    CommonFactor(Square(x - y), Square(z - x), Hyp(x), Hyp(y), Hyp(z));
  }

  // ---------- Their similarities ----------

  lemma CircleDot(k: nat, lifted: bool, i: nat)
    ensures Dot(ChainRecord(k, lifted).vector, ChainRecord(i, false).vector)
         == Hyp(k as real) * Hyp(i as real) - 2.0 * Square(k as real - i as real)
  {
    DotOfThree(ChainRecord(k, lifted).vector, ChainRecord(i, false).vector);
    DotOnCircle(k as real, i as real);
    hide Hyp;
    hide Leg;
  }

  /** The similarity of two points of the circle, the first one possibly lifted. */
  lemma SimilarityOnCircle(k: nat, lifted: bool, i: nat, sqrt: real -> real)
    requires IsSqrt(sqrt)
    ensures Similarity(PointOf(ChainRecord(k, lifted), sqrt), PointOf(ChainRecord(i, false), sqrt))
         == (if lifted then 0.8 else 1.0) * (1.0 - 2.0 * Loss(k as real, i as real))
  {
    HypPositive(k as real);
    HypPositive(i as real);
    hide Hyp;
    hide Leg;
    hide Square;
    hide ChainRecord;
    hide NormOf;
    hide Dot;
    hide Ratio;
    ChainNorm(k, lifted, sqrt);
    ChainNorm(i, false, sqrt);
    CircleDot(k, lifted, i);
    QuotientOfRest(Hyp(k as real), Hyp(i as real), Square(k as real - i as real), lifted);
  }

  lemma QuotientOfRest(hx: real, hy: real, square: real, lifted: bool)
    requires hx > 0.0 && hy > 0.0
    ensures var n := if lifted then 1.25 * hx else hx;
            && n * hy != 0.0
            && (hx * hy - 2.0 * square) / (n * hy)
               == (if lifted then 0.8 else 1.0) * (1.0 - 2.0 * Ratio(square, hx, hy))
  {
    ProductSign(hx, hy, hx * hy);
    var h := hx * hy;
    var r := square / h;
    assert r * h == square;
    assert (1.0 - 2.0 * r) * h == h - 2.0 * square;
    if lifted {
      assert (1.25 * hx) * hy == 1.25 * h;
      assert (0.8 * (1.0 - 2.0 * r)) * (1.25 * h) == h - 2.0 * square;
      QuotientIs(h - 2.0 * square, 1.25 * h, 0.8 * (1.0 - 2.0 * r));
    } else {
      QuotientIs(h - 2.0 * square, h, 1.0 - 2.0 * r);
    }
  }

  lemma QuotientIs(p: real, q: real, r: real)
    requires q != 0.0 && r * q == p
    ensures p / q == r
  {
  }

  /** The circle lies in a quarter of the plane. */
  lemma LossIsSmall(x: real, y: real)
    requires x >= 0.0 && y >= 0.0
    ensures 1.0 - 2.0 * Loss(x, y) >= 0.0
  {
    HypPositive(x);
    HypPositive(y);
    DotOnCircle(x, y);
    var p, q := (2.0 * x + 1.0) * (2.0 * y + 1.0), Leg(x) * Leg(y);
    NotNegative(2.0 * x + 1.0, 2.0 * y + 1.0);
    NotNegative(Leg(x), Leg(y));
    QuarterRest(Hyp(x), Hyp(y), Square(x - y)) by {
      assert p + q == Hyp(x) * Hyp(y) - 2.0 * Square(x - y);
    }
  }

  lemma NotNegative(a: real, b: real)
    requires a >= 0.0 && b >= 0.0
    ensures a * b >= 0.0
  {
  }

  lemma QuarterRest(hx: real, hy: real, square: real)
    requires hx > 0.0 && hy > 0.0 && hx * hy - 2.0 * square >= 0.0
    ensures 1.0 - 2.0 * Ratio(square, hx, hy) >= 0.0
  {
    ProductSign(hx, hy, hx * hy);
    var h := hx * hy;
    var r := square / h;
    assert r * h == square;
    assert (1.0 - 2.0 * r) * h >= 0.0;
    if 1.0 - 2.0 * r < 0.0 {
      ProductSign(2.0 * r - 1.0, h, (2.0 * r - 1.0) * h);
      assert false;
    }
  }

  lemma LiftedIsLess(far: real, near: real, lifted: bool)
    requires 0.0 <= far < near
    ensures (if lifted then 0.8 else 1.0) * far < near
    ensures (if lifted then 0.8 else 1.0) * far < (if lifted then 0.8 else 1.0) * near
  {
  }

  /** The points fall away from each other, the last one lifted or not. */
  lemma CircleFallsAway(n: nat, lifted: bool, sqrt: real -> real)
    requires IsSqrt(sqrt)
    ensures FallsAway(ChainRecords(n, lifted), sqrt)
  {
    var records := ChainRecords(n, lifted);
    forall i, j, k | 0 <= i < j < k < n
      ensures Recedes(records[i], records[j], records[k], sqrt)
    {
      CircleRecedes(i, j, k, lifted && k + 1 == n, sqrt);
    }
  }

  lemma CircleRecedes(i: nat, j: nat, k: nat, lifted: bool, sqrt: real -> real)
    requires IsSqrt(sqrt) && i < j < k
    ensures Recedes(ChainRecord(i, false), ChainRecord(j, false), ChainRecord(k, lifted), sqrt)
  {
    hide ChainRecord;
    hide Loss;
    hide Similarity;
    hide IsSqrt;
    var x, y, z := i as real, j as real, k as real;
    SimilarityOnCircle(k, lifted, i, sqrt);
    SimilarityOnCircle(k, lifted, j, sqrt);
    SimilarityOnCircle(i, false, j, sqrt);
    LossBehind(x, y, z);
    LossAhead(x, y, z);
    LossIsSmall(z, x);
    LiftedIsLess(1.0 - 2.0 * Loss(z, x), 1.0 - 2.0 * Loss(z, y), lifted);
    LiftedIsLess(1.0 - 2.0 * Loss(z, x), 1.0 - 2.0 * Loss(x, y), lifted);
  }

  lemma CircleIsInsertable(n: nat, lifted: bool)
    ensures Insertable(ChainRecords(n, lifted), 3)
  {
    var records := ChainRecords(n, lifted);
    forall i | 0 <= i < n
      ensures records[i].id != "" && VectorFault(records[i].vector).None? && |records[i].vector| == 3
    {
      assert records[i].vector[0] == 2.0 * (i as real) + 1.0;
    }
    assert forall i :: 0 <= i < n ==> |records[i].id| == i + 1;
  }

  // ---------- The queries ----------

  const FALLING_QUERY: Vector := [0.0, -1.0, 0.0]
  const LIFTED_QUERY: Vector := [0.0, -3.0, 4.0]

  lemma QueryNorms(sqrt: real -> real)
    requires IsSqrt(sqrt)
    ensures sqrt(Dot(FALLING_QUERY, FALLING_QUERY)) == 1.0 && VectorFault(FALLING_QUERY).None?
    ensures sqrt(Dot(LIFTED_QUERY, LIFTED_QUERY)) == 5.0 && VectorFault(LIFTED_QUERY).None?
  {
    DotOfThree(FALLING_QUERY, FALLING_QUERY);
    DotOfThree(LIFTED_QUERY, LIFTED_QUERY);
    RootUnique(sqrt, 1.0, 1.0);
    RootUnique(sqrt, 5.0, 25.0);
    assert FALLING_QUERY[1] != 0.0 && LIFTED_QUERY[1] != 0.0;
  }

  lemma InverseFalls(a: real, b: real)
    requires 0.0 < a < b
    ensures 1.0 / a > 1.0 / b
  {
    FractionsCompare(1.0, b, 1.0, a);
  }

  lemma FallingScore(i: nat)
    ensures Hyp(i as real) > 0.0
    ensures Cosine(FALLING_QUERY, 1.0, ChainRecord(i, false).vector, Hyp(i as real)) == 1.0 / Hyp(i as real) - 1.0
  {
    var x := i as real;
    HypPositive(x);
    DotOfThree(FALLING_QUERY, ChainRecord(i, false).vector);
    assert Dot(FALLING_QUERY, ChainRecord(i, false).vector) == 1.0 - Hyp(x);
    hide Hyp;
    hide ChainRecord;
    var r := 1.0 / Hyp(x);
    assert r * Hyp(x) == 1.0;
    QuotientIs(1.0 - Hyp(x), Hyp(x), r - 1.0);
  }

  lemma LiftedScore(i: nat, lifted: bool)
    ensures Hyp(i as real) > 0.0
    ensures Cosine(LIFTED_QUERY, 5.0, ChainRecord(i, lifted).vector,
                   if lifted then 1.25 * Hyp(i as real) else Hyp(i as real))
         == if lifted then 0.48 * (1.0 / Hyp(i as real)) else 0.6 * (1.0 / Hyp(i as real)) - 0.6
  {
    var x := i as real;
    HypPositive(x);
    DotOfThree(LIFTED_QUERY, ChainRecord(i, lifted).vector);
    assert Dot(LIFTED_QUERY, ChainRecord(i, lifted).vector) == if lifted then 3.0 else 3.0 - 3.0 * Hyp(x);
    hide Hyp;
    hide ChainRecord;
    var r := 1.0 / Hyp(x);
    assert r * Hyp(x) == 1.0;
    if lifted {
      assert 5.0 * (1.25 * Hyp(x)) == 6.25 * Hyp(x);
      QuotientIs(3.0, 6.25 * Hyp(x), 0.48 * r);
    } else {
      QuotientIs(3.0 - 3.0 * Hyp(x), 5.0 * Hyp(x), 0.6 * r - 0.6);
    }
  }
}
