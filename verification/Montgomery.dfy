// What the ladder of X25519 computes on the curve v^2 = u^3 + 486662 u^2 + u of section 4.1 of
// RFC 7748, apart from the sequence of field operations that the source is proved against.
module Montgomery {
  import opened Bits
  import opened Bytes
  import opened Field25519
  import opened FieldPower
  import opened FieldAlgebra
  import opened FieldBytes
  import opened X25519
  import opened BitLaws
  import opened ClampLaws

  // The coefficient of the curve.
  const CURVE_A: int := 486662

  // ---- one round -------------------------------------------------------------------------------

  lemma Added(a: int, b: int, x: int, y: int)
    requires Res(a) == Res(x) && Res(b) == Res(y)
    ensures FAdd(a, b) == Res(x + y) && Res(FAdd(a, b)) == Res(x + y)
    ensures FSub(a, b) == Res(x - y) && Res(FSub(a, b)) == Res(x - y)
  {
    hide Res, FAdd, FSub, FMul;
    ResField(a, b);
    ResAdd(a, x, b, y);
  }

  lemma Multiplied(a: int, b: int, x: int, y: int)
    requires Res(a) == Res(x) && Res(b) == Res(y)
    ensures FMul(a, b) == Res(x * y) && Res(FMul(a, b)) == Res(x * y)
  {
    hide Res, FAdd, FSub, FMul;
    ResField(a, b);
    ResMul(a, x, b, y);
  }

  // One round of section 5 of RFC 7748, as polynomials in the state.
  lemma FormulasLaw(x1: int, s: Ladder)
    ensures var t := Formulas(x1, s);
      t.x2 == Res((s.x2 * s.x2 - s.z2 * s.z2) * (s.x2 * s.x2 - s.z2 * s.z2)) &&
      t.z2 == Res(4 * s.x2 * s.z2 * (s.x2 * s.x2 + 486662 * s.x2 * s.z2 + s.z2 * s.z2)) &&
      t.x3 == Res(4 * (s.x2 * s.x3 - s.z2 * s.z3) * (s.x2 * s.x3 - s.z2 * s.z3)) &&
      t.z3 == Res(4 * x1 * (s.x2 * s.z3 - s.z2 * s.x3) * (s.x2 * s.z3 - s.z2 * s.x3))
  {
    hide Res, FAdd, FSub, FMul;
    var X, Z, U, V := s.x2, s.z2, s.x3, s.z3;
    Added(X, Z, X, Z);
    Added(U, V, U, V);
    var A, B, C, D := FAdd(X, Z), FSub(X, Z), FAdd(U, V), FSub(U, V);
    Multiplied(A, A, X + Z, X + Z);
    Multiplied(B, B, X - Z, X - Z);
    Multiplied(D, A, U - V, X + Z);
    Multiplied(C, B, U + V, X - Z);
    var AA, BB, DA, CB := FMul(A, A), FMul(B, B), FMul(D, A), FMul(C, B);
    Added(AA, BB, (X + Z) * (X + Z), (X - Z) * (X - Z));
    Added(DA, CB, (U - V) * (X + Z), (U + V) * (X - Z));
    RoundPolynomials(X, Z, U, V);
    var E, sum, dif := FSub(AA, BB), FAdd(DA, CB), FSub(DA, CB);
    Multiplied(AA, BB, (X + Z) * (X + Z), (X - Z) * (X - Z));
    Multiplied(A24, E, 121665, 4 * X * Z);
    Added(AA, FMul(A24, E), (X + Z) * (X + Z), 121665 * (4 * X * Z));
    Multiplied(E, FAdd(AA, FMul(A24, E)), 4 * X * Z, X * X + 486662 * X * Z + Z * Z);
    Multiplied(sum, sum, 2 * (X * U - Z * V), 2 * (X * U - Z * V));
    Multiplied(dif, dif, 2 * (Z * U - X * V), 2 * (Z * U - X * V));
    Multiplied(x1, FMul(dif, dif), x1, 4 * (X * V - Z * U) * (X * V - Z * U));
    Regroup(x1, X * V - Z * U);
  }

  lemma RoundPolynomials(x: int, z: int, u: int, v: int)
    ensures (x + z) * (x + z) - (x - z) * (x - z) == 4 * x * z
    ensures (x + z) * (x + z) * ((x - z) * (x - z)) == (x * x - z * z) * (x * x - z * z)
    ensures (x + z) * (x + z) + 121665 * (4 * x * z) == x * x + 486662 * x * z + z * z
    ensures (u - v) * (x + z) + (u + v) * (x - z) == 2 * (x * u - z * v)
    ensures (u - v) * (x + z) - (u + v) * (x - z) == 2 * (z * u - x * v)
    ensures 2 * (x * u - z * v) * (2 * (x * u - z * v)) == 4 * (x * u - z * v) * (x * u - z * v)
    ensures 2 * (z * u - x * v) * (2 * (z * u - x * v)) == 4 * (x * v - z * u) * (x * v - z * u)
  {
    FourFactors(x + z, x - z, x + z, x - z);
    assert (x + z) * (x - z) == x * x - z * z;
    SquareOfProduct(x + z, x - z);
    DoubleSquare(x * u - z * v);
    DoubleSquare(z * u - x * v);
    Opposite(x * v - z * u, 0);
    DoubleSquare(x * v - z * u);
    assert -(x * v - z * u) == z * u - x * v;
  }

  lemma DoubleSquare(d: int)
    ensures 2 * d * (2 * d) == 4 * d * d && 4 * d * d == 4 * (d * d)
  {
  }

  lemma Regroup(x: int, d: int)
    ensures x * (4 * d * d) == 4 * x * d * d
  {
  }

  // ---- the curve -------------------------------------------------------------------------------

  // u^2 + 486662 u + 1
  function Quadratic(u: int): int {
    u * u + CURVE_A * u + 1
  }

  ghost predicate OnMontgomery(u: int, v: int) {
    Res(v * v) == Res(u * Quadratic(u))
  }

  // x / z is the coordinate u.
  ghost predicate Stands(x: int, z: int, u: int) {
    Res(x) == Res(u * z)
  }

  // A line of slope l through the points with coordinates u and w meets the curve a third time
  // in this coordinate.
  function Third(l: int, u: int, w: int): int {
    l * l - CURVE_A - u - w
  }

  // The slope l of the tangent in (u, v), and the slope l of the chord through (u, v) and (w, t).
  ghost predicate Tangent(l: int, u: int, v: int) {
    Res(2 * v * l) == Res(3 * (u * u) + 2 * CURVE_A * u + 1)
  }

  ghost predicate Chord(l: int, u: int, v: int, w: int, t: int) {
    Res(w - u) != 0 && Res((w - u) * l) == Res(t - v)
  }

  // Squares and products of congruent numbers.
  lemma SquareSame(a: int, b: int)
    requires Res(a) == Res(b)
    ensures Res(a * a) == Res(b * b)
  {
    ResMul(a, b, a, b);
  }

  lemma TimesSame(c: int, a: int, b: int)
    requires Res(a) == Res(b)
    ensures Res(c * a) == Res(c * b)
  {
    ResMul(c, c, a, b);
  }

  // 4 v^2 times the coordinate of the doubled point is (u^2 - 1)^2.
  lemma TangentSquare(u: int, v: int, l: int)
    requires OnMontgomery(u, v) && Tangent(l, u, v)
    ensures Res(4 * (u * Quadratic(u)) * Third(l, u, u)) == Res((u * u - 1) * (u * u - 1))
  {
    hide Res;
    var q, m := u * Quadratic(u), 3 * (u * u) + 2 * CURVE_A * u + 1;
    TangentPolynomial(u, CURVE_A, q, m);
    SlopeSquared(v, l, q, m, CURVE_A + 2 * u);
    assert Third(l, u, u) == l * l - (CURVE_A + 2 * u);
  }

  lemma TangentPolynomial(u: int, a: int, q: int, m: int)
    requires q == u * (u * u + a * u + 1) && m == 3 * (u * u) + 2 * a * u + 1
    ensures m * m - 4 * q * (a + 2 * u) == (u * u - 1) * (u * u - 1)
  {
  }

  lemma SlopeSquared(v: int, l: int, q: int, m: int, c: int)
    requires Res(v * v) == Res(q) && Res(2 * v * l) == Res(m)
    ensures Res(4 * q * (l * l - c)) == Res(m * m - 4 * q * c)
  {
    hide Res;
    SquareSame(2 * v * l, m);
    TimesSame(4 * (l * l), v * v, q);
    assert 2 * v * l * (2 * v * l) == 4 * (l * l) * (v * v);
    ResAdd(4 * (l * l) * q, m * m, 4 * q * c, 4 * q * c);
    assert 4 * (l * l) * q - 4 * q * c == 4 * q * (l * l - c);
  }

  // The coordinate of a sum times (w - u)^2, for v^2 = q and t^2 = r.
  lemma ChordSquare(u: int, v: int, w: int, t: int, l: int)
    requires OnMontgomery(u, v) && OnMontgomery(w, t) && Chord(l, u, v, w, t)
    ensures Res((w - u) * (w - u) * Third(l, u, w)) == Res(Mixed(u, w) - 2 * (v * t))
  {
    hide Res;
    var d, q, r, c := w - u, u * Quadratic(u), w * Quadratic(w), CURVE_A + u + w;
    SquareSame(d * l, t - v);
    ResAdd(v * v, q, t * t, r);
    ResAdd(v * v + t * t, q + r, 2 * (v * t) + d * d * c, 2 * (v * t) + d * d * c);
    ResAdd(d * l * (d * l), (t - v) * (t - v), d * d * c, d * d * c);
    assert (t - v) * (t - v) == v * v + t * t - 2 * (v * t);
    SlopeTerm(d, l, c);
    assert Third(l, u, w) == l * l - c;
    ChordPolynomial(u, w, CURVE_A, q, r);
  }

  lemma SlopeTerm(d: int, l: int, c: int)
    ensures d * l * (d * l) - d * d * c == d * d * (l * l - c)
  {
    assert d * l * (d * l) == d * d * (l * l);
  }

  function Mixed(u: int, w: int): int {
    (u + w) * (u * w + 1) + 2 * CURVE_A * (u * w)
  }

  lemma ChordPolynomial(u: int, w: int, a: int, q: int, r: int)
    requires q == u * (u * u + a * u + 1) && r == w * (w * w + a * w + 1)
    ensures q + r - (w - u) * (w - u) * (a + u + w) == (u + w) * (u * w + 1) + 2 * a * (u * w)
  {
  }

  // The coordinates of the sum and of the difference of two points have the product
  // (u w - 1)^2 / (w - u)^2.
  lemma SumAndDifference(u: int, v: int, w: int, t: int, l: int, m: int)
    requires Fermat() && OnMontgomery(u, v) && OnMontgomery(w, t)
    requires Chord(l, u, v, w, t) && Chord(m, u, -v, w, t)
    ensures Res((w - u) * (w - u) * (Third(l, u, w) * Third(m, u, w))) == Res((u * w - 1) * (u * w - 1))
  {
    hide Res, Fermat, Quadratic, Mixed, Third;
    var n, q, r := Mixed(u, w), u * Quadratic(u), w * Quadratic(w);
    ChordSquare(u, v, w, t, l);
    Opposite(v, t);
    ChordSquare(u, -v, w, t, m);
    ResMul(v * v, q, t * t, r);
    MixedProduct(u, w);
    ProductOfChords(n, w - u, Third(l, u, w), Third(m, u, w), v * t, q * r, (u * w - 1) * (u * w - 1));
  }

  lemma Opposite(v: int, t: int)
    ensures -v * -v == v * v && -v * t == -(v * t) && v * v * (t * t) == v * t * (v * t)
  {
    SquareOfProduct(v, t);
  }

  lemma MixedProduct(u: int, w: int)
    ensures Mixed(u, w) * Mixed(u, w) - 4 * (u * Quadratic(u) * (w * Quadratic(w)))
      == (w - u) * (w - u) * ((u * w - 1) * (u * w - 1))
  {
    ProductOfBoth(u, w, CURVE_A, Mixed(u, w), u * Quadratic(u), w * Quadratic(w));
  }

  lemma ProductOfChords(n: int, d: int, s: int, e: int, b: int, y: int, z: int)
    requires Fermat() && Res(d) != 0 && Res(d * d * s) == Res(n - 2 * b) && Res(d * d * e) == Res(n - 2 * -b)
    requires Res(b * b) == Res(y) && n * n - 4 * y == d * d * z
    ensures Res(d * d * (s * e)) == Res(z)
  {
    hide Res, Fermat;
    ResMul(d * d * s, n - 2 * b, d * d * e, n + 2 * b);
    TimesSame(4, b * b, y);
    ResAdd(n * n, n * n, 4 * (b * b), 4 * y);
    Squares(n, b, d * d, s, e);
    CancelSquare(d, d * d * (s * e), z);
  }

  lemma Squares(n: int, b: int, c: int, s: int, e: int)
    ensures (n - 2 * b) * (n + 2 * b) == n * n - 4 * (b * b)
    ensures c * s * (c * e) == c * (c * (s * e))
  {
    assert c * s * (c * e) == c * (s * (c * e));
  }

  lemma CancelSquare(d: int, x: int, y: int)
    requires Fermat() && Res(d) != 0 && Res(d * d * x) == Res(d * d * y)
    ensures Res(x) == Res(y)
  {
    hide Res, Fermat;
    assert d * d * x == d * (d * x) && d * d * y == d * (d * y);
    Cancel(d, d * x, d * y);
    Cancel(d, x, y);
  }

  lemma ProductOfBoth(u: int, w: int, a: int, n: int, q: int, r: int)
    requires n == (u + w) * (u * w + 1) + 2 * a * (u * w)
    requires q == u * (u * u + a * u + 1) && r == w * (w * w + a * w + 1)
    ensures n * n - 4 * (q * r) == (w - u) * (w - u) * ((u * w - 1) * (u * w - 1))
  {
    hide *;
    var s, p := u + w, u * w;
    ConstantsProduct(u, w, a, s, p);
    FourFactors(u, u * u + a * u + 1, w, w * w + a * w + 1);
    Discriminant(s, p, a, n, q * r);
    SquareDifference(u, w, s, p);
  }

  lemma FourFactors(u: int, x: int, w: int, y: int)
    ensures u * x * (w * y) == u * w * (x * y)
  {
    assert u * x * (w * y) == u * (x * (w * y));
    assert x * (w * y) == w * (x * y);
  }

  lemma SquareDifference(u: int, w: int, s: int, p: int)
    requires s == u + w && p == u * w
    ensures (w - u) * (w - u) == s * s - 4 * p
  {
  }

  lemma ConstantsProduct(u: int, w: int, a: int, s: int, p: int)
    requires s == u + w && p == u * w
    ensures (u * u + a * u + 1) * (w * w + a * w + 1) == p * p + a * p * s + s * s - 2 * p + a * a * p + a * s + 1
  {
  }

  lemma Discriminant(s: int, p: int, a: int, n: int, c: int)
    requires n == s * (p + 1) + 2 * a * p
    requires c == p * (p * p + a * p * s + s * s - 2 * p + a * a * p + a * s + 1)
    ensures n * n - 4 * c == (s * s - 4 * p) * ((p - 1) * (p - 1))
  {
    hide *;
    SquareOfSum(s * (p + 1), a * p);
    assert 2 * a * p == 2 * (a * p);
    CrossTerms(s, p, a, s * s, a * a);
    SquareOfProduct(s, p + 1);
    SquareOfProduct(a, p);
    assert s * (p + 1) * (a * p) == a * s * (p * (p + 1));
  }

  lemma SquareOfSum(x: int, y: int)
    ensures (x + 2 * y) * (x + 2 * y) == x * x + 4 * (x * y) + 4 * (y * y)
  {
  }

  lemma SquareOfProduct(x: int, y: int)
    ensures x * y * (x * y) == x * x * (y * y)
  {
    FourFactors(x, y, x, y);
  }

  lemma CrossTerms(s: int, p: int, a: int, ss: int, aa: int)
    ensures ss * ((p + 1) * (p + 1)) + 4 * (a * s * (p * (p + 1))) + 4 * (aa * (p * p))
      - 4 * (p * (p * p + a * p * s + ss - 2 * p + aa * p + a * s + 1))
      == (ss - 4 * p) * ((p - 1) * (p - 1))
  {
  }

  // ---- the round on the curve ---------------------------------------------------------------------

  // The new x2 / z2 is the coordinate of the doubled point.
  lemma DoublingLaw(x: int, z: int, u: int, v: int, k: int)
    requires Stands(x, z, u) && OnMontgomery(u, v) && Tangent(k, u, v)
    ensures Stands((x * x - z * z) * (x * x - z * z), 4 * x * z * (x * x + CURVE_A * x * z + z * z), Third(k, u, u))
  {
    hide Res, Quadratic, Third, OnMontgomery, Tangent;
    var g, h, c := z * z, u * u - 1, 4 * (u * Quadratic(u));
    ScaledSquares(x, z, u);
    SquareSame(x * x - z * z, h * g);
    Denominator(x, z, u);
    TangentSquare(u, v, k);
    TimesSame(g * g, c * Third(k, u, u), h * h);
    TimesSame(Third(k, u, u), 4 * x * z * (x * x + CURVE_A * x * z + z * z), g * g * c);
    FourFactors(h, g, h, g);
    ThreeFactors(g * g, c, Third(k, u, u));
  }

  lemma ThreeFactors(x: int, y: int, z: int)
    ensures x * (y * z) == z * (x * y)
  {
  }

  lemma ScaledSquares(x: int, z: int, u: int)
    requires Stands(x, z, u)
    ensures Res(x * x) == Res(u * u * (z * z)) && Res(x * z) == Res(u * (z * z))
    ensures Res(x * x - z * z) == Res((u * u - 1) * (z * z))
  {
    hide Res;
    SquareSame(x, u * z);
    FourFactors(u, z, u, z);
    TimesSame(z, x, u * z);
    assert z * (u * z) == u * (z * z);
    ResAdd(x * x, u * u * (z * z), z * z, z * z);
    assert (u * u - 1) * (z * z) == u * u * (z * z) - z * z;
  }

  lemma Denominator(x: int, z: int, u: int)
    requires Stands(x, z, u)
    ensures Res(4 * x * z * (x * x + CURVE_A * x * z + z * z)) == Res(z * z * (z * z) * (4 * (u * Quadratic(u))))
  {
    hide Res, Quadratic;
    var g := z * z;
    ScaledSquares(x, z, u);
    TimesSame(CURVE_A, x * z, u * g);
    TimesSame(4, x * z, u * g);
    ResAdd(x * x, u * u * g, CURVE_A * (x * z), CURVE_A * (u * g));
    ResAdd(x * x + CURVE_A * (x * z), u * u * g + CURVE_A * (u * g), g, g);
    assert CURVE_A * x * z == CURVE_A * (x * z) && 4 * x * z == 4 * (x * z);
    ResMul(4 * (x * z), 4 * (u * g), x * x + CURVE_A * (x * z) + g, u * u * g + CURVE_A * (u * g) + g);
    Scaled(u, g);
    FourFactors(4 * u, g, Quadratic(u), g);
    Commuted(g * g, 4 * u, Quadratic(u));
    assert 4 * u * Quadratic(u) == 4 * (u * Quadratic(u));
  }

  lemma Scaled(u: int, g: int)
    ensures u * u * g + CURVE_A * (u * g) + g == Quadratic(u) * g
    ensures 4 * (u * g) == 4 * u * g
  {
  }

  lemma Commuted(x: int, y: int, z: int)
    ensures y * z * x == x * (y * z)
  {
  }

  // The new x3 / z3 is the coordinate of the sum, when x1 is that of the difference.
  lemma AdditionLaw(x1: int, x: int, z: int, y: int, k: int, u: int, v: int, w: int, t: int, l: int, m: int)
    requires Fermat() && Stands(x, z, u) && Stands(y, k, w) && OnMontgomery(u, v) && OnMontgomery(w, t)
    requires Chord(l, u, v, w, t) && Chord(m, u, -v, w, t) && Res(x1) == Res(Third(m, u, w))
    ensures Stands(4 * (x * y - z * k) * (x * y - z * k), 4 * x1 * (x * k - z * y) * (x * k - z * y), Third(l, u, w))
  {
    hide *;
    CrossProducts(x, z, y, k, u, w);
    SquareSame(x * y - z * k, (u * w - 1) * (z * k));
    SumAndDifference(u, v, w, t, l, m);
    Joined(x * y - z * k, x * k - z * y, x1, z * k, w - u, u * w - 1, Third(l, u, w), Third(m, u, w));
    StandsIs(4 * (x * y - z * k) * (x * y - z * k), 4 * x1 * (x * k - z * y) * (x * k - z * y), Third(l, u, w));
  }

  lemma StandsIs(x: int, z: int, u: int)
    requires Res(x) == Res(u * z)
    ensures Stands(x, z, u)
  {
  }

  lemma Joined(n: int, c: int, x1: int, g: int, d: int, h: int, s: int, e: int)
    requires Res(n * n) == Res(h * g * (h * g)) && Res(c * c) == Res(d * g * (d * g))
    requires Res(x1) == Res(e) && Res(d * d * (s * e)) == Res(h * h)
    ensures Res(4 * n * n) == Res(s * (4 * x1 * c * c))
  {
    hide Res;
    FourFactors(h, g, h, g);
    FourFactors(d, g, d, g);
    ResMul(x1, e, c * c, d * d * (g * g));
    TimesSame(4 * s, x1 * (c * c), e * (d * d * (g * g)));
    TimesSame(4 * (g * g), d * d * (s * e), h * h);
    TimesSame(4, n * n, h * h * (g * g));
    Collected(s, e, d * d, g * g, h * h);
    Grouped(n, s, x1, c);
  }

  lemma Collected(s: int, e: int, d: int, g: int, h: int)
    ensures 4 * s * (e * (d * g)) == 4 * g * (d * (s * e)) && 4 * g * h == 4 * (h * g)
  {
    FourFactors(4 * s, e, d, g);
    assert 4 * s * (e * (d * g)) == 4 * (s * (e * (d * g)));
    assert s * (e * (d * g)) == g * (d * (s * e));
  }

  lemma Grouped(a: int, s: int, x: int, b: int)
    ensures 4 * a * a == 4 * (a * a) && s * (4 * x * b * b) == 4 * s * (x * (b * b))
  {
    assert 4 * x * b * b == 4 * (x * (b * b));
  }

  lemma CrossProducts(x: int, z: int, y: int, k: int, u: int, w: int)
    requires Stands(x, z, u) && Stands(y, k, w)
    ensures Res(x * y - z * k) == Res((u * w - 1) * (z * k))
    ensures Res((x * k - z * y) * (x * k - z * y)) == Res((w - u) * (z * k) * ((w - u) * (z * k)))
  {
    hide Res;
    var g := z * k;
    ResMul(x, u * z, y, w * k);
    FourFactors(u, z, w, k);
    ResAdd(x * y, u * w * g, g, g);
    assert (u * w - 1) * g == u * w * g - g;
    TimesSame(k, x, u * z);
    TimesSame(z, y, w * k);
    ResAdd(k * x, k * (u * z), z * y, z * (w * k));
    assert k * (u * z) - z * (w * k) == -((w - u) * g);
    SquareSame(x * k - z * y, -((w - u) * g));
    Opposite((w - u) * g, 0);
  }

  // One round of the ladder on a state that stands for two points of the curve whose difference
  // has the coordinate x1: the first is doubled by the tangent, the two are added by the chord.
  lemma RoundOnCurve(x1: int, s: Ladder, u: int, v: int, w: int, t: int, k: int, l: int, m: int)
    requires Fermat() && Stands(s.x2, s.z2, u) && Stands(s.x3, s.z3, w) && OnMontgomery(u, v) && OnMontgomery(w, t)
    requires Tangent(k, u, v) && Chord(l, u, v, w, t)
    requires Chord(m, u, -v, w, t) && Res(x1) == Res(Third(m, u, w))
    ensures var r := Formulas(x1, s);
      Stands(r.x2, r.z2, Third(k, u, u)) && Stands(r.x3, r.z3, Third(l, u, w))
  {
    hide Res, Third, OnMontgomery, Chord, Tangent, Fermat, Formulas;
    FormulasLaw(x1, s);
    DoublingLaw(s.x2, s.z2, u, v, k);
    AdditionLaw(x1, s.x2, s.z2, s.x3, s.z3, u, v, w, t, l, m);
    assert 486662 * s.x2 * s.z2 == CURVE_A * s.x2 * s.z2;
    StandsRes((s.x2 * s.x2 - s.z2 * s.z2) * (s.x2 * s.x2 - s.z2 * s.z2),
      4 * s.x2 * s.z2 * (s.x2 * s.x2 + CURVE_A * s.x2 * s.z2 + s.z2 * s.z2), Third(k, u, u));
    StandsRes(4 * (s.x2 * s.x3 - s.z2 * s.z3) * (s.x2 * s.x3 - s.z2 * s.z3),
      4 * x1 * (s.x2 * s.z3 - s.z2 * s.x3) * (s.x2 * s.z3 - s.z2 * s.x3), Third(l, u, w));
  }

  lemma StandsRes(x: int, z: int, u: int)
    requires Stands(x, z, u)
    ensures Stands(Res(x), Res(z), u)
  {
    hide Res;
    ResRes(x);
    ResRes(z);
    TimesSame(u, Res(z), z);
  }

  // ---- the whole ladder -----------------------------------------------------------------------------

  datatype Proj = Proj(x: int, z: int)

  // x(2 Q) from x(Q), and x(Q + R) from x(Q), x(R) and x1 = x(Q - R).
  ghost function Double(q: Proj): Proj {
    Proj(Res((q.x * q.x - q.z * q.z) * (q.x * q.x - q.z * q.z)),
         Res(4 * q.x * q.z * (q.x * q.x + CURVE_A * q.x * q.z + q.z * q.z)))
  }

  ghost function Sum(x1: int, q: Proj, r: Proj): Proj {
    Proj(Res(4 * (q.x * r.x - q.z * r.z) * (q.x * r.x - q.z * r.z)),
         Res(4 * x1 * (q.x * r.z - q.z * r.x) * (q.x * r.z - q.z * r.x)))
  }

  // The coordinate of n times the point, built up in i levels of doubling: 2 n Q = 2 (n Q) and
  // (2 n + 1) Q = n Q + (n + 1) Q, whose difference is Q.
  ghost function Multiple(x1: int, i: nat, n: nat): Proj
    decreases i
  {
    if i == 0 then if n == 0 then Proj(1, 0) else Proj(x1, 1)
    else if n % 2 == 0 then Double(Multiple(x1, i - 1, n / 2))
    else Sum(x1, Multiple(x1, i - 1, n / 2), Multiple(x1, i - 1, n / 2 + 1))
  }

  lemma FormulasAreDoubleAndSum(x1: int, s: Ladder)
    ensures var t, q, r := Formulas(x1, s), Proj(s.x2, s.z2), Proj(s.x3, s.z3);
      Proj(t.x2, t.z2) == Double(q) && Proj(t.x3, t.z3) == Sum(x1, q, r)
  {
    hide Res, Formulas;
    FormulasLaw(x1, s);
    assert 486662 * s.x2 * s.z2 == CURVE_A * s.x2 * s.z2;
  }

  lemma SumCommutes(x1: int, q: Proj, r: Proj)
    ensures Sum(x1, q, r) == Sum(x1, r, q)
  {
    hide Res;
    var a, b := q.x * r.z - q.z * r.x, r.x * q.z - r.z * q.x;
    assert a == -b;
    Opposite(b, 0);
    Grouped(a, 1, x1, a);
    Grouped(b, 1, x1, b);
    assert q.x * r.x == r.x * q.x && q.z * r.z == r.z * q.z;
  }

  // The bits of k from bit i on.
  function Leading(k: nat, i: nat): nat {
    hide Pow2;
    QuotientNonneg(k, Pow2(i));
    k / Pow2(i)
  }

  lemma QuotientNonneg(k: nat, d: int)
    requires d > 0
    ensures k / d >= 0
  {
  }

  // After the rounds top - 1, ..., from the state holds n Q and (n + 1) Q for the bits n taken so far.
  lemma {:induction false} RoundsAreMultiples(x1: int, k: nat, from: nat, top: nat)
    requires from <= top == 255 && Leading(k, top) == 0
    ensures var s, n := Settled(Rounds(x1, k, from)), Leading(k, from);
      Proj(s.x2, s.z2) == Multiple(x1, top - from, n) && Proj(s.x3, s.z3) == Multiple(x1, top - from, n + 1)
    decreases top - from
  {
    hide *;
    if from == top {
      Beginning(x1, k, from);
    } else {
      RoundsAreMultiples(x1, k, from + 1, top);
      RoundsStep(x1, k, from);
      NextBit(k, from);
      MultipleStep(x1, Bit(k, from), Settled(Rounds(x1, k, from + 1)), top - from, Leading(k, from + 1));
    }
  }

  lemma Beginning(x1: int, k: nat, from: nat)
    requires from == 255
    ensures var s := Settled(Rounds(x1, k, from));
      Proj(s.x2, s.z2) == Multiple(x1, 0, 0) && Proj(s.x3, s.z3) == Multiple(x1, 0, 1)
  {
  }

  lemma NextBit(k: nat, i: nat)
    ensures Bit(k, i) == 0 || Bit(k, i) == 1
    ensures Leading(k, i) == 2 * Leading(k, i + 1) + Bit(k, i)
  {
    hide Pow2;
    Pow2Add(i, 1);
    OneIsPow2();
    DivDiv(k, Pow2(i), 2);
  }

  lemma MultipleSteps(x1: int, i: nat, h: nat)
    requires i > 0
    ensures Multiple(x1, i, 2 * h) == Double(Multiple(x1, i - 1, h))
    ensures Multiple(x1, i, 2 * h + 1) == Sum(x1, Multiple(x1, i - 1, h), Multiple(x1, i - 1, h + 1))
  {
    hide Double, Sum;
    assert (2 * h + 1) / 2 == h && (2 * h + 1) % 2 == 1 && 2 * h / 2 == h && 2 * h % 2 == 0;
  }

  lemma MultipleStep(x1: int, b: int, t: Ladder, i: nat, h: nat)
    requires i > 0 && (b == 0 || b == 1)
    requires Proj(t.x2, t.z2) == Multiple(x1, i - 1, h) && Proj(t.x3, t.z3) == Multiple(x1, i - 1, h + 1)
    ensures var s, n := CSwap(b, Formulas(x1, CSwap(b, t))), 2 * h + b;
      Proj(s.x2, s.z2) == Multiple(x1, i, n) && Proj(s.x3, s.z3) == Multiple(x1, i, n + 1)
  {
    hide Formulas, Double, Sum, Multiple;
    FormulasAreDoubleAndSum(x1, CSwap(b, t));
    SumCommutes(x1, Proj(t.x2, t.z2), Proj(t.x3, t.z3));
    MultipleSteps(x1, i, h);
    MultipleSteps(x1, i, h + 1);
  }

  // X25519 is the x over the z of k times the point, for the number k of the clamped bytes.
  lemma SpecIsMultiple(n: seq<int>, p: seq<int>)
    requires |n| == 32 && |p| == 32 && IsBytes(n)
    ensures LEValue(ClampedBytes(n)) >= 0
    ensures var m := Multiple(Decode(p) % P, 8 * |n| - 1, LEValue(ClampedBytes(n)));
      Spec(n, p) == LEBytes(FMul(m.x, FInv(m.z)), 32)
  {
    hide *;
    ClampedRange(n);
    LadderIsMultiple(LEValue(ClampedBytes(n)), Decode(p) % P, 8 * |n| - 1);
    SpecIs(n, p);
  }

  lemma SpecIs(n: seq<int>, p: seq<int>)
    requires |n| == 32 && |p| == 32
    ensures Spec(n, p) == LEBytes(LadderResult(LEValue(ClampedBytes(n)), Decode(p) % P), 32)
  {
    hide LEBytes, LadderResult, LEValue, Decode;
  }

  lemma LadderIsMultiple(k: nat, x1: int, top: nat)
    requires top == 255 && k < Pow2(top)
    ensures var m := Multiple(x1, top, k); LadderResult(k, x1) == FMul(m.x, FInv(m.z))
  {
    hide Pow2, Rounds, Multiple, FMul, FPow;
    ModUnique(k, Pow2(top), 0, k);
    OneIsPow2();
    RoundsAreMultiples(x1, k, 0, top);
  }
}
