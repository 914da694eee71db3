/** Cosine similarity with a hand-written Newton root (pkg/dream/analyzer.go), over
    exact reals. The root is never too small, so a score never exceeds the true
    cosine; it is exact for unit vectors only. */
module Cosine {

  const ITERATIONS := 10

  // ----- The Newton root -----

  /** n Newton steps towards the root of x, from x itself. */
  function Newton(x: real, n: nat): (z: real)
    requires x > 0.0
    ensures z > 0.0
  {
    if n == 0 then x
    else
      var z := Newton(x, n - 1);
      (z + x / z) / 2.0
  }

  function Root(x: real): (z: real)
    ensures x > 0.0 ==> z > 0.0
  {
    if x <= 0.0 then 0.0 else Newton(x, ITERATIONS)
  }

  method Sqrt(x: real) returns (z: real)
    ensures z == Root(x)
  {
    if x <= 0.0 {
      return 0.0;
    }
    z := x;
    for i := 0 to ITERATIONS
      invariant z == Newton(x, i)
    {
      z := (z + x / z) / 2.0;
    }
  }

  // ----- Signs and squares -----

  lemma Pos(a: real, b: real)
    requires a > 0.0 && b > 0.0
    ensures a * b > 0.0
  {
  }

  lemma SquareNonNegative(a: real)
    ensures a * a >= 0.0
    ensures a == 0.0 || a * a > 0.0
  {
    if a > 0.0 {
      Pos(a, a);
    } else if a < 0.0 {
      Pos(-a, -a);
      assert (-a) * (-a) == a * a;
    }
  }

  lemma ProductMonotone(a: real, c: real, b: real, d: real)
    requires 0.0 <= a <= c && 0.0 <= b <= d
    ensures 0.0 <= a * b <= c * d
  {
    if a < c && 0.0 < b { Pos(c - a, b); }
    if b < d && 0.0 < c { Pos(c, d - b); }
    assert c * d - a * b == (c - a) * b + c * (d - b);
  }

  lemma SquareLess(s: real, t: real)
    requires 0.0 <= s < t
    ensures s * s < t * t
  {
    Pos(t - s, t + s);
    assert t * t - s * s == (t - s) * (t + s);
  }

  lemma SquareAtMost(d: real, r: real)
    requires d * d <= r * r && r > 0.0
    ensures -r <= d <= r
  {
    if d > r { SquareLess(r, d); }
    if d < -r { SquareLess(r, -d); }
  }

  lemma SquaredProduct(s: real, r: real)
    ensures (s * r) * (s * r) == (s * s) * (r * r)
  {
  }

  /** Comparing products of a positive factor compares the other factors. */
  lemma CancelFactor(r: real, a: real, b: real)
    requires r > 0.0
    ensures a < b <==> a * r < b * r
    ensures a == b <==> a * r == b * r
  {
    if a < b { Pos(b - a, r); }
    if b < a { Pos(a - b, r); }
  }

  // ----- Newton's iterates -----

  /** The square of a mean of z and w exceeds their product by a quarter of (z - w) squared. */
  lemma MeanSquared(z: real, w: real)
    ensures ((z + w) / 2.0) * ((z + w) / 2.0) - z * w == (z - w) * (z - w) / 4.0
  {
    calc {
      ((z + w) / 2.0) * ((z + w) / 2.0);
      (z + w) * (z + w) / 4.0;
      (z * z + 2.0 * (z * w) + w * w) / 4.0;
    }
    assert (z - w) * (z - w) == z * z - 2.0 * (z * w) + w * w;
  }

  /** m is the iterate after z: the mean of z and w, where z w = x. */
  ghost predicate Step(x: real, z: real, w: real, m: real)
  {
    z > 0.0 && w > 0.0 && z * w == x && m == (z + w) / 2.0
  }

  lemma StepExcess(x: real, z: real, w: real, m: real)
    requires Step(x, z, w, m)
    ensures m * m - x == (z - w) * (z - w) / 4.0
  {
    MeanSquared(z, w);
  }

  lemma NewtonStep(x: real, n: nat) returns (w: real)
    requires x > 0.0
    ensures Step(x, Newton(x, n), w, Newton(x, n + 1))
  {
    w := x / Newton(x, n);
  }

  // ----- How far an iterate is from the root, exactly -----

  /** The relative excess after one more step. */
  function NextRel(e: real): (f: real)
    requires e > -1.0
    ensures f >= 0.0
  {
    SquareNonNegative(e);
    QuotientNonNegative(e * e, 4.0 * (1.0 + e));
    e * e / (4.0 * (1.0 + e))
  }

  lemma QuotientNonNegative(a: real, b: real)
    requires a >= 0.0 && b > 0.0
    ensures a / b >= 0.0
  {
  }

  /** The square of iterate n is x (1 + Rel(x, n)). */
  function Rel(x: real, n: nat): (e: real)
    requires x > 0.0
    ensures e > -1.0 && (n > 0 ==> e >= 0.0)
  {
    if n == 0 then x - 1.0 else NextRel(Rel(x, n - 1))
  }

  lemma NextRelIs(e: real)
    requires e > -1.0
    ensures NextRel(e) * (4.0 * (1.0 + e)) == e * e
  {
  }

  /** f is the relative excess after e. */
  ghost predicate Follows(e: real, f: real)
  {
    f * (4.0 * (1.0 + e)) == e * e
  }

  lemma NextRelFollows(e: real)
    requires e > -1.0
    ensures Follows(e, NextRel(e))
  {
    NextRelIs(e);
  }

  ghost predicate Relates(z: real, x: real, e: real)
  {
    z * z == x * (1.0 + e)
  }

  lemma SquaresOfStep(x: real, z: real, w: real, e: real, f: real)
    requires x > 0.0 && z > 0.0 && z * w == x && Relates(z, x, e) && Follows(e, f)
    ensures (z - w) * (z - w) / 4.0 == x * f
  {
    var g, q := z - w, z * z;
    assert g * z == x * e;
    SquaredProduct(g, z);
    SquaredProduct(x, e);
    assert (4.0 * (x * f)) * q == (x * x) * (f * (4.0 * (1.0 + e)));
    Pos(z, z);
    CancelFactor(q, g * g, 4.0 * (x * f));
  }

  lemma RelStep(x: real, z: real, w: real, m: real, e: real, f: real)
    requires x > 0.0 && Step(x, z, w, m) && Relates(z, x, e) && Follows(e, f)
    ensures Relates(m, x, f)
  {
    SquaresOfStep(x, z, w, e, f);
    StepExcess(x, z, w, m);
  }

  lemma {:induction false} NewtonIs(x: real, n: nat)
    requires x > 0.0
    ensures Relates(Newton(x, n), x, Rel(x, n))
  {
    if n > 0 {
      var w := NewtonStep(x, n - 1);
      NewtonIs(x, n - 1);
      RelFollows(x, n - 1);
      RelStep(x, Newton(x, n - 1), w, Newton(x, n), Rel(x, n - 1), Rel(x, n));
    }
  }

  lemma RelFollows(x: real, n: nat)
    requires x > 0.0
    ensures Follows(Rel(x, n), Rel(x, n + 1))
  {
    NextRelFollows(Rel(x, n));
  }

  lemma DivideThrough(f: real, g: real, b: real, p: real, q: real)
    requires b > 0.0 && f * b == p && g * b == q && p <= q
    ensures f <= g
  {
    CancelFactor(b, g, f);
  }

  lemma FollowsBounds(e: real, f: real)
    requires e > -1.0 && Follows(e, f)
    ensures f >= (e - 1.0) / 4.0
    ensures e >= 0.0 ==> f <= e / 4.0
  {
    var b, ee := 4.0 * (1.0 + e), e * e;
    assert ((e - 1.0) / 4.0) * b == ee - 1.0;
    assert (e / 4.0) * b == e + ee;
    DivideThrough((e - 1.0) / 4.0, f, b, ee - 1.0, ee);
    if e >= 0.0 { DivideThrough(f, e / 4.0, b, ee, e + ee); }
  }

  /** The excess shrinks to at most a quarter, and at first to little less. */
  lemma NextRelBounds(e: real)
    requires e > -1.0
    ensures NextRel(e) >= (e - 1.0) / 4.0
    ensures e >= 0.0 ==> NextRel(e) <= e / 4.0
  {
    NextRelFollows(e);
    FollowsBounds(e, NextRel(e));
  }

  lemma {:induction false} RelShrinks(x: real, n: nat)
    requires x > 0.0 && n > 0
    ensures 0.0 <= Rel(x, n + 1) <= Rel(x, n) / 4.0
  {
    NextRelBounds(Rel(x, n));
  }

  lemma CrossedSquares(e: real, g: real)
    requires 0.0 <= e <= g
    ensures (e * e) * (1.0 + g) <= (g * g) * (1.0 + e)
  {
    ProductMonotone(e, g, e, g);
    ProductMonotone(e, e, g, g);
    ProductMonotone(e * g, e * g, e, g);
    assert (e * e) * (1.0 + g) == e * e + (e * g) * e;
    assert (g * g) * (1.0 + e) == g * g + (e * g) * g;
  }

  lemma FollowsMonotone(e: real, g: real, f: real, h: real)
    requires 0.0 <= e <= g && Follows(e, f) && Follows(g, h)
    ensures f <= h
  {
    CrossedSquares(e, g);
    CrossDivided(f, h, 1.0 + e, 1.0 + g, e * e, g * g);
  }

  lemma NextRelMonotone(e: real, g: real)
    requires 0.0 <= e <= g
    ensures NextRel(e) <= NextRel(g)
  {
    NextRelFollows(e);
    NextRelFollows(g);
    FollowsMonotone(e, g, NextRel(e), NextRel(g));
  }

  lemma CrossDivided(f: real, h: real, b: real, c: real, ee: real, gg: real)
    requires b > 0.0 && c > 0.0 && f * (4.0 * b) == ee && h * (4.0 * c) == gg && ee * c <= gg * b
    ensures f <= h
  {
    Pos(b, c);
    assert f * (b * c) == (f * (4.0 * b)) * c / 4.0;
    assert h * (b * c) == (h * (4.0 * c)) * b / 4.0;
    CancelFactor(b * c, h, f);
  }

  lemma {:induction false} RelMonotone(x: real, y: real, n: nat)
    requires 1.0 <= x <= y
    ensures 0.0 <= Rel(x, n) <= Rel(y, n)
  {
    if n > 0 {
      RelMonotone(x, y, n - 1);
      NextRelMonotone(Rel(x, n - 1), Rel(y, n - 1));
    }
  }

  lemma FirstRelSymmetric(x: real, y: real, f: real, h: real)
    requires x > 0.0 && y > 0.0 && x * y == 1.0
    requires f * (4.0 * x) == (x - 1.0) * (x - 1.0) && h * (4.0 * y) == (y - 1.0) * (y - 1.0)
    ensures f == h
  {
    var u := (x - 1.0) * (x - 1.0);
    assert x * (y - 1.0) == 1.0 - x;
    SquaredProduct(x, y - 1.0);
    assert (x * x) * ((y - 1.0) * (y - 1.0)) == u;
    assert (x * x) * (h * (4.0 * y)) == h * (4.0 * x) * (x * y);
    CancelFactor(4.0 * x, f, h);
  }

  /** A squared length and its inverse fare alike. */
  lemma {:induction false} RelSymmetric(x: real, y: real, n: nat)
    requires x > 0.0 && y > 0.0 && x * y == 1.0 && n > 0
    ensures Rel(x, n) == Rel(y, n)
  {
    if n == 1 {
      NextRelIs(x - 1.0);
      NextRelIs(y - 1.0);
      assert Rel(x, 1) == NextRel(Rel(x, 0)) && Rel(y, 1) == NextRel(Rel(y, 0));
      FirstRelSymmetric(x, y, NextRel(x - 1.0), NextRel(y - 1.0));
    } else {
      RelSymmetric(x, y, n - 1);
    }
  }

  /** max(x, 1/x) */
  function Spread(x: real): (s: real)
    requires x > 0.0
    ensures s >= 1.0 && (s == x || s * x == 1.0)
  {
    if x >= 1.0 then x
    else
      InverseAbove(x);
      1.0 / x
  }

  lemma InverseAbove(x: real)
    requires 0.0 < x < 1.0
    ensures 1.0 / x >= 1.0 && (1.0 / x) * x == 1.0
  {
    CancelFactor(x, 1.0 / x, 1.0);
  }

  lemma RelOfSpread(x: real, n: nat)
    requires x > 0.0 && n > 0
    ensures Rel(x, n) == Rel(Spread(x), n)
  {
    if Spread(x) != x { RelSymmetric(Spread(x), x, n); }
  }

  /** The excess grows with the distance of x from one, in either direction. */
  lemma RelFollowsSpread(x: real, y: real, n: nat)
    requires x > 0.0 && y > 0.0 && n > 0 && Spread(x) <= Spread(y)
    ensures Rel(x, n) <= Rel(y, n)
  {
    RelOfSpread(x, n);
    RelOfSpread(y, n);
    RelMonotone(Spread(x), Spread(y), n);
  }

  function Pow4(n: nat): (p: real)
    ensures p > 0.0
  {
    if n == 0 then 1.0 else 4.0 * Pow4(n - 1)
  }

  /** A large square is brought down by a factor of four a step and no faster. */
  lemma {:induction false} RelAtLeast(x: real, n: nat)
    requires x > 0.0
    ensures (Rel(x, n) + 1.0 / 3.0) * Pow4(n) >= x - 2.0 / 3.0
  {
    if n > 0 {
      RelAtLeast(x, n - 1);
      var e, f, p := Rel(x, n - 1), Rel(x, n), Pow4(n - 1);
      NextRelBounds(e);
      ScaledUp(e, f, p, x - 2.0 / 3.0);
    }
  }

  lemma ScaledUp(e: real, f: real, p: real, c: real)
    requires p > 0.0 && f >= (e - 1.0) / 4.0 && (e + 1.0 / 3.0) * p >= c
    ensures (f + 1.0 / 3.0) * (4.0 * p) >= c
  {
    CancelFactor(p, 4.0 * (f + 1.0 / 3.0), e + 1.0 / 3.0);
    assert (f + 1.0 / 3.0) * (4.0 * p) == (4.0 * (f + 1.0 / 3.0)) * p;
  }

  ghost predicate IsRoot(z: real, x: real)
  {
    z * z == x
  }

  lemma RootOfItself(x: real)
    requires x > 0.0
    ensures IsRoot(x, x) <==> x == 1.0
  {
    CancelFactor(x, x, 1.0);
  }

  lemma RootStep(x: real, z: real, w: real, m: real)
    requires Step(x, z, w, m)
    ensures IsRoot(m, x) <==> IsRoot(z, x)
  {
    StepExcess(x, z, w, m);
    SquareNonNegative(z - w);
    CancelFactor(z, z, w);
  }

  /** The root is reached exactly from x = 1 only. */
  lemma {:induction false} NewtonExactOnlyAtOne(x: real, n: nat)
    requires x > 0.0
    ensures IsRoot(Newton(x, n), x) <==> x == 1.0
  {
    if n == 0 {
      RootOfItself(x);
    } else {
      var w := NewtonStep(x, n - 1);
      NewtonExactOnlyAtOne(x, n - 1);
      RootStep(x, Newton(x, n - 1), w, Newton(x, n));
    }
  }

  /** The root the program computes, exactly. */
  lemma RootIs(x: real)
    requires x > 0.0
    ensures Relates(Root(x), x, Rel(x, ITERATIONS)) && Rel(x, ITERATIONS) >= 0.0
  {
    NewtonIs(x, ITERATIONS);
  }

  // ----- Dot products -----

  /** The dot product of the first n components. */
  function Dot(a: seq<real>, b: seq<real>, n: nat): real
    requires n <= |a| == |b|
  {
    if n == 0 then 0.0 else Dot(a, b, n - 1) + a[n - 1] * b[n - 1]
  }

  function Norm(a: seq<real>): real
  {
    Dot(a, a, |a|)
  }

  lemma {:induction false} DotSymmetric(a: seq<real>, b: seq<real>, n: nat)
    requires n <= |a| == |b|
    ensures Dot(a, b, n) == Dot(b, a, n)
  {
    if n > 0 { DotSymmetric(a, b, n - 1); }
  }

  lemma {:induction false} DotSelf(a: seq<real>, n: nat)
    requires n <= |a|
    ensures Dot(a, a, n) >= 0.0
  {
    if n > 0 {
      DotSelf(a, n - 1);
      SquareNonNegative(a[n - 1]);
    }
  }

  /** t squared at most p q makes 2 t at most p + q. */
  lemma MeanBound(t: real, p: real, q: real)
    requires p >= 0.0 && q >= 0.0 && t * t <= p * q
    ensures 2.0 * t <= p + q
  {
    SquareNonNegative(p - q);
    assert (p + q) * (p + q) == p * p + 2.0 * p * q + q * q;
    assert (p - q) * (p - q) == p * p - 2.0 * p * q + q * q;
    assert (2.0 * t) * (2.0 * t) == 4.0 * (t * t) <= (p + q) * (p + q);
    if 2.0 * t > p + q { SquareLess(p + q, 2.0 * t); }
  }

  ghost predicate Bounded(d: real, na: real, nb: real)
  {
    d * d <= na * nb
  }

  lemma SquareOfCross(d: real, na: real, nb: real, uu: real, vv: real, w: real)
    requires na >= 0.0 && nb >= 0.0 && uu >= 0.0 && vv >= 0.0 && Bounded(d, na, nb) && w * w == uu * vv
    ensures (d * w) * (d * w) <= (na * vv) * (nb * uu)
  {
    SquaredProduct(d, w);
    SquareNonNegative(d);
    ProductMonotone(uu, uu, vv, vv);
    ProductMonotone(d * d, na * nb, uu * vv, uu * vv);
    assert (na * nb) * (uu * vv) == (na * vv) * (nb * uu);
  }

  lemma AddCross(d: real, w: real, na: real, uu: real, nb: real, vv: real)
    requires Bounded(d, na, nb) && w * w == uu * vv && 2.0 * (d * w) <= na * vv + nb * uu
    ensures Bounded(d + w, na + uu, nb + vv)
  {
    assert (d + w) * (d + w) == d * d + 2.0 * (d * w) + w * w;
    assert (na + uu) * (nb + vv) == na * nb + na * vv + nb * uu + uu * vv;
  }

  /** The induction step of Cauchy-Schwarz. */
  lemma CauchyStep(d: real, na: real, nb: real, u: real, v: real)
    requires na >= 0.0 && nb >= 0.0 && Bounded(d, na, nb)
    ensures Bounded(d + u * v, na + u * u, nb + v * v)
  {
    var w, uu, vv := u * v, u * u, v * v;
    SquareNonNegative(u);
    SquareNonNegative(v);
    SquaredProduct(u, v);
    SquareOfCross(d, na, nb, uu, vv, w);
    ProductMonotone(na, na, vv, vv);
    ProductMonotone(nb, nb, uu, uu);
    MeanBound(d * w, na * vv, nb * uu);
    AddCross(d, w, na, uu, nb, vv);
  }

  lemma {:induction false} CauchySchwarz(a: seq<real>, b: seq<real>, n: nat)
    requires n <= |a| == |b|
    ensures Bounded(Dot(a, b, n), Dot(a, a, n), Dot(b, b, n))
  {
    if n > 0 {
      CauchySchwarz(a, b, n - 1);
      DotSelf(a, n - 1);
      DotSelf(b, n - 1);
      CauchyStep(Dot(a, b, n - 1), Dot(a, a, n - 1), Dot(b, b, n - 1), a[n - 1], b[n - 1]);
    }
  }

  // ----- The score -----

  predicate Comparable(a: seq<real>, b: seq<real>)
  {
    |a| == |b| > 0 && Norm(a) != 0.0 && Norm(b) != 0.0
  }

  function Quotient(dot: real, rootA: real, rootB: real): real
    requires rootA > 0.0 && rootB > 0.0
  {
    Pos(rootA, rootB);
    dot / (rootA * rootB)
  }

  function Ratio(dot: real, normA: real, normB: real): real
    requires normA > 0.0 && normB > 0.0
  {
    Quotient(dot, Root(normA), Root(normB))
  }

  lemma NormPositive(a: seq<real>)
    ensures Norm(a) >= 0.0
  {
    DotSelf(a, |a|);
  }

  /** Nothing comparable scores 0. */
  function Score(a: seq<real>, b: seq<real>): real
  {
    if !Comparable(a, b) then 0.0
    else
      NormPositive(a);
      NormPositive(b);
      Ratio(Dot(a, b, |a|), Norm(a), Norm(b))
  }

  method DotAndNorms(a: seq<real>, b: seq<real>) returns (dot: real, normA: real, normB: real)
    requires |a| == |b|
    ensures dot == Dot(a, b, |a|) && normA == Norm(a) && normB == Norm(b)
  {
    dot, normA, normB := 0.0, 0.0, 0.0;
    for i := 0 to |a|
      invariant dot == Dot(a, b, i)
      invariant normA == Dot(a, a, i)
      invariant normB == Dot(b, b, i)
    {
      dot := dot + a[i] * b[i];
      normA := normA + a[i] * a[i];
      normB := normB + b[i] * b[i];
    }
  }

  method Divide(dot: real, normA: real, normB: real) returns (score: real)
    requires normA > 0.0 && normB > 0.0
    ensures score == Ratio(dot, normA, normB)
  {
    var rootA := Sqrt(normA);
    var rootB := Sqrt(normB);
    return Quotient(dot, rootA, rootB);
  }

  /** The source's function; its loop and its last line are the two methods above. */
  method CosineSimilarity(a: seq<real>, b: seq<real>) returns (score: real)
    ensures score == Score(a, b)
  {
    if |a| != |b| || |a| == 0 {
      return 0.0;
    }
    var dot, normA, normB := DotAndNorms(a, b);
    if normA == 0.0 || normB == 0.0 {
      return 0.0;
    }
    NormPositive(a);
    NormPositive(b);
    score := Divide(dot, normA, normB);
  }

  /** The square of the computed root of x. */
  function Squared(x: real): (q: real)
    requires x > 0.0
    ensures q >= x
  {
    ProductMonotone(x, x, 1.0, 1.0 + Rel(x, ITERATIONS));
    x * (1.0 + Rel(x, ITERATIONS))
  }

  /** The numbers behind a score: s r = d, where r is the product of two roots. */
  ghost predicate Parts(s: real, r: real, d: real, na: real, nb: real, qa: real, qb: real)
  {
    r > 0.0 && s * r == d && r * r == qa * qb && 0.0 < na <= qa && 0.0 < nb <= qb
  }

  lemma QuotientParts(d: real, ra: real, rb: real, na: real, nb: real, qa: real, qb: real)
    requires ra > 0.0 && rb > 0.0 && ra * ra == qa && rb * rb == qb && 0.0 < na <= qa && 0.0 < nb <= qb
    ensures ra * rb > 0.0 && Parts(Quotient(d, ra, rb), ra * rb, d, na, nb, qa, qb)
  {
    Pos(ra, rb);
    SquaredProduct(ra, rb);
  }

  lemma RatioParts(d: real, na: real, nb: real)
    requires na > 0.0 && nb > 0.0
    ensures Parts(Ratio(d, na, nb), Root(na) * Root(nb), d, na, nb, Squared(na), Squared(nb))
  {
    RootIs(na);
    RootIs(nb);
    QuotientParts(d, Root(na), Root(nb), na, nb, Squared(na), Squared(nb));
  }

  lemma PartsWithinOne(s: real, r: real, d: real, na: real, nb: real, qa: real, qb: real)
    requires Parts(s, r, d, na, nb, qa, qb) && d * d <= na * nb
    ensures -1.0 <= s <= 1.0
  {
    ProductMonotone(na, qa, nb, qb);
    SquareAtMost(d, r);
    CancelFactor(r, 1.0, s);
    CancelFactor(r, s, -1.0);
  }

  lemma PartsSound(s: real, r: real, d: real, na: real, nb: real, qa: real, qb: real, t: real)
    requires Parts(s, r, d, na, nb, qa, qb) && s >= t > 0.0
    ensures d > 0.0 && d * d >= t * t * (na * nb)
  {
    Pos(s, r);
    SquaredProduct(s, r);
    ProductMonotone(t, s, t, s);
    ProductMonotone(na, qa, nb, qb);
    ProductMonotone(t * t, s * s, na * nb, qa * qb);
  }

  /** A score reaches t exactly when d clears t times both computed roots. */
  lemma PartsReached(s: real, r: real, d: real, na: real, nb: real, qa: real, qb: real, t: real)
    requires Parts(s, r, d, na, nb, qa, qb) && t > 0.0
    ensures s >= t <==> d > 0.0 && d * d >= t * t * (qa * qb)
  {
    CancelFactor(r, s, t);
    Pos(t, r);
    SquaredProduct(t, r);
    if d >= t * r {
      ProductMonotone(t * r, d, t * r, d);
    } else if d > 0.0 {
      SquareLess(d, t * r);
    }
  }

  lemma ProductEqualOrLess(a: real, c: real, b: real, d: real)
    requires 0.0 < a <= c && 0.0 < b <= d
    ensures 0.0 < a * b
    ensures (a == c && b == d) || a * b < c * d
  {
    Pos(a, b);
    if a < c {
      Pos(c - a, b);
      ProductMonotone(c, c, b, d);
    } else if b < d {
      Pos(a, d - b);
    }
  }

  /** s is, up to sign, the true cosine: d over the root of na nb. */
  ghost predicate IsCosine(s: real, d: real, na: real, nb: real)
  {
    s * s * (na * nb) == d * d
  }

  lemma ZeroScore(s: real, r: real, d: real)
    requires r > 0.0 && s * r == d
    ensures s == 0.0 <==> d == 0.0
  {
    CancelFactor(r, s, 0.0);
  }

  /** k stands for the square of the score, e for the square of d. */
  lemma SquaresExact(k: real, e: real, na: real, nb: real, qa: real, qb: real)
    requires k > 0.0 && k * (qa * qb) == e && 0.0 < na <= qa && 0.0 < nb <= qb
    ensures k * (na * nb) == e <==> na == qa && nb == qb
  {
    ProductEqualOrLess(na, qa, nb, qb);
    CancelFactor(k, na * nb, qa * qb);
  }

  lemma SquarePositive(s: real)
    requires s != 0.0
    ensures s * s > 0.0
  {
    if s > 0.0 {
      Pos(s, s);
    } else {
      Pos(-s, -s);
      assert (-s) * (-s) == s * s;
    }
  }

  lemma PartsExact(s: real, r: real, d: real, na: real, nb: real, qa: real, qb: real)
    requires Parts(s, r, d, na, nb, qa, qb)
    ensures IsCosine(s, d, na, nb) <==> d == 0.0 || (na == qa && nb == qb)
  {
    SquaredProduct(s, r);
    ZeroScore(s, r, d);
    if s == 0.0 {
      assert s * s == 0.0 && d * d == 0.0;
    } else {
      SquarePositive(s);
      SquaresExact(s * s, d * d, na, nb, qa, qb);
    }
  }

  lemma RatioWithinOne(d: real, na: real, nb: real)
    requires na > 0.0 && nb > 0.0 && d * d <= na * nb
    ensures -1.0 <= Ratio(d, na, nb) <= 1.0
  {
    RatioParts(d, na, nb);
    PartsWithinOne(Ratio(d, na, nb), Root(na) * Root(nb), d, na, nb, Squared(na), Squared(nb));
  }

  lemma RatioSound(d: real, na: real, nb: real, t: real)
    requires na > 0.0 && nb > 0.0 && Ratio(d, na, nb) >= t > 0.0
    ensures d > 0.0 && d * d >= t * t * (na * nb)
  {
    RatioParts(d, na, nb);
    PartsSound(Ratio(d, na, nb), Root(na) * Root(nb), d, na, nb, Squared(na), Squared(nb), t);
  }

  lemma RatioReached(d: real, na: real, nb: real, t: real)
    requires na > 0.0 && nb > 0.0 && t > 0.0
    ensures Ratio(d, na, nb) >= t <==> d > 0.0 && d * d >= t * t * (Squared(na) * Squared(nb))
  {
    RatioParts(d, na, nb);
    PartsReached(Ratio(d, na, nb), Root(na) * Root(nb), d, na, nb, Squared(na), Squared(nb), t);
  }

  lemma PositiveProduct(a: real, b: real, p: real)
    requires p == a * b && a > 0.0 && b > 0.0
    ensures p > 0.0
  {
    Pos(a, b);
  }

  lemma FollowsPositive(e: real, f: real)
    requires e > -1.0 && Follows(e, f) && e != 0.0
    ensures f != 0.0
  {
    var b, c := if e > 0.0 then e else -e, 4.0 * (1.0 + e);
    PositiveProduct(b, b, f * c);
    CancelFactor(c, 0.0, f);
  }

  lemma NextRelZero(e: real)
    requires e > -1.0
    ensures NextRel(e) == 0.0 <==> e == 0.0
  {
    if e == 0.0 {
      assert NextRel(0.0) == 0.0;
    } else {
      NextRelFollows(e);
      FollowsPositive(e, NextRel(e));
    }
  }

  lemma {:induction false} RelZero(x: real, n: nat)
    requires x > 0.0
    ensures Rel(x, n) == 0.0 <==> x == 1.0
  {
    if n > 0 {
      RelZero(x, n - 1);
      NextRelZero(Rel(x, n - 1));
    }
  }

  lemma SquaredExact(x: real)
    requires x > 0.0
    ensures x == Squared(x) <==> x == 1.0
  {
    RelZero(x, ITERATIONS);
    CancelFactor(x, 1.0, 1.0 + Rel(x, ITERATIONS));
  }

  lemma RatioExact(d: real, na: real, nb: real)
    requires na > 0.0 && nb > 0.0
    ensures IsCosine(Ratio(d, na, nb), d, na, nb) <==> d == 0.0 || (na == Squared(na) && nb == Squared(nb))
  {
    RatioParts(d, na, nb);
    PartsExact(Ratio(d, na, nb), Root(na) * Root(nb), d, na, nb, Squared(na), Squared(nb));
  }

  lemma RatioExactForUnits(d: real, na: real, nb: real)
    requires na > 0.0 && nb > 0.0
    ensures IsCosine(Ratio(d, na, nb), d, na, nb) <==> d == 0.0 || (na == 1.0 && nb == 1.0)
  {
    RatioExact(d, na, nb);
    SquaredExact(na);
    SquaredExact(nb);
  }

  lemma SelfQuotient(s: real, r: real, x: real, e: real)
    requires s * r == x && r == x * (1.0 + e) && x > 0.0
    ensures s * (1.0 + e) == 1.0
  {
    assert (s * (1.0 + e)) * x == s * (x * (1.0 + e));
    CancelFactor(x, s * (1.0 + e), 1.0);
  }

  lemma RatioOfItself(x: real)
    requires x > 0.0
    ensures Ratio(x, x, x) * (1.0 + Rel(x, ITERATIONS)) == 1.0
  {
    RatioParts(x, x, x);
    RootIs(x);
    SelfQuotient(Ratio(x, x, x), Root(x) * Root(x), x, Rel(x, ITERATIONS));
  }

  // ----- The theorems -----

  lemma ScoreSymmetric(a: seq<real>, b: seq<real>)
    ensures Score(a, b) == Score(b, a)
  {
    if |a| == |b| { DotSymmetric(a, b, |a|); }
  }

  lemma ScoreWithinOne(a: seq<real>, b: seq<real>)
    ensures -1.0 <= Score(a, b) <= 1.0
  {
    if Comparable(a, b) {
      NormPositive(a);
      NormPositive(b);
      CauchySchwarz(a, b, |a|);
      RatioWithinOne(Dot(a, b, |a|), Norm(a), Norm(b));
    }
  }

  /** A pair that passes the threshold passes it for the exact cosine: nothing is
      called a near duplicate because the root is approximate. */
  lemma ThresholdSound(a: seq<real>, b: seq<real>, t: real)
    requires t > 0.0 && Score(a, b) >= t
    ensures Comparable(a, b) && Dot(a, b, |a|) > 0.0
    ensures Dot(a, b, |a|) * Dot(a, b, |a|) >= t * t * (Norm(a) * Norm(b))
  {
    NormPositive(a);
    NormPositive(b);
    RatioSound(Dot(a, b, |a|), Norm(a), Norm(b), t);
  }

  /** Exactly when a pair passes the threshold. */
  lemma ThresholdExactlyWhen(a: seq<real>, b: seq<real>, t: real)
    requires t > 0.0
    ensures Score(a, b) >= t
            <==> |a| == |b| && Norm(a) > 0.0 && Norm(b) > 0.0
                 && Dot(a, b, |a|) > 0.0
                 && Dot(a, b, |a|) * Dot(a, b, |a|) >= t * t * (Squared(Norm(a)) * Squared(Norm(b)))
  {
    NormPositive(a);
    NormPositive(b);
    if Comparable(a, b) {
      RatioReached(Dot(a, b, |a|), Norm(a), Norm(b), t);
    }
  }

  /** The score is the exact cosine just when the vectors are orthogonal or both of
      them have length one. */
  lemma ExactOnlyForUnitVectors(a: seq<real>, b: seq<real>)
    requires Comparable(a, b)
    ensures IsCosine(Score(a, b), Dot(a, b, |a|), Norm(a), Norm(b))
            <==> Dot(a, b, |a|) == 0.0 || (Norm(a) == 1.0 && Norm(b) == 1.0)
  {
    NormPositive(a);
    NormPositive(b);
    RatioExactForUnits(Dot(a, b, |a|), Norm(a), Norm(b));
  }

  /** A vector against itself scores 1 / (1 + Rel), so it passes t exactly when
      t (1 + Rel) is at most one. */
  lemma SelfScoreExactlyWhen(a: seq<real>, t: real)
    requires Comparable(a, a)
    ensures Norm(a) > 0.0 && Score(a, a) * (1.0 + Rel(Norm(a), 10)) == 1.0
    ensures Score(a, a) >= t <==> t * (1.0 + Rel(Norm(a), 10)) <= 1.0
  {
    NormPositive(a);
    RatioOfItself(Norm(a));
    CancelFactor(1.0 + Rel(Norm(a), ITERATIONS), Score(a, a), t);
  }

  /** The self-score falls as the squared length moves away from one, up or down. */
  lemma SelfScoreFalls(a: seq<real>, b: seq<real>)
    requires Comparable(a, a) && Comparable(b, b) && Norm(a) > 0.0 && Norm(b) > 0.0
    requires Spread(Norm(a)) <= Spread(Norm(b))
    ensures Score(a, a) >= Score(b, b)
  {
    SelfScoreExactlyWhen(a, Score(b, b));
    SelfScoreExactlyWhen(b, Score(b, b));
    RelFollowsSpread(Norm(a), Norm(b), ITERATIONS);
    ScaledBy(Score(b, b), 1.0 + Rel(Norm(a), ITERATIONS), 1.0 + Rel(Norm(b), ITERATIONS));
  }

  lemma ScaledBy(s: real, p: real, q: real)
    requires 0.0 < p <= q && s * q == 1.0
    ensures s * p <= 1.0
  {
    if s > 0.0 {
      ProductMonotone(s, s, p, q);
    } else if s < 0.0 {
      Pos(-s, q);
    }
  }

  lemma FourToTheTenth()
    ensures Pow4(ITERATIONS) == 1048576.0
  {
    assert Pow4(2) == 16.0 by { assert Pow4(1) == 4.0; }
    assert Pow4(4) == 256.0 by { assert Pow4(3) == 64.0; }
    assert Pow4(6) == 4096.0 by { assert Pow4(5) == 1024.0; }
    assert Pow4(8) == 65536.0 by { assert Pow4(7) == 16384.0; }
    assert Pow4(10) == 1048576.0 by { assert Pow4(9) == 262144.0; }
  }

  /** Over exact reals these two vectors miss the default threshold 0.75 against themselves. */
  lemma IdenticalVectorsCanMiss()
    ensures Score([1000.0], [1000.0]) < 0.75
    ensures Score([0.001], [0.001]) < 0.75
  {
    var a, b := [1000.0], [0.001];
    assert Norm(a) == 1000000.0 by { assert Dot(a, a, 0) == 0.0; }
    assert Norm(b) == 0.000001 by { assert Dot(b, b, 0) == 0.0; }
    FourToTheTenth();
    RelAtLeast(1000000.0, ITERATIONS);
    RelSymmetric(1000000.0, 0.000001, ITERATIONS);
    SelfScoreExactlyWhen(a, 0.75);
    SelfScoreExactlyWhen(b, 0.75);
  }
}
