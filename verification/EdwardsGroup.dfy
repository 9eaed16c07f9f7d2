// The affine addition law of the curve, and the extended formulas as its implementation.  What
// primality of p gives enters as a hypothesis, Fermat's theorem.
module EdwardsGroup {
  import opened Bits
  import opened Limbs
  import opened Field25519
  import opened FieldPower
  import opened FieldAlgebra
  import opened EdwardsCurve
  import opened NonSquare

  // ---- the affine law --------------------------------------------------------------------------

  ghost function SumX(a: Point, b: Point): int { a.x * b.y + b.x * a.y }
  ghost function SumY(a: Point, b: Point): int { a.y * b.y + a.x * b.x }
  ghost function Twist(a: Point, b: Point): int { D * ((a.x * a.y) * (b.x * b.y)) }

  ghost function EAdd(a: Point, b: Point): (c: Point)
    ensures InField(c)
  {
    var k := Twist(a, b);
    Point(FMul(SumX(a, b), FInv(1 + k)), FMul(SumY(a, b), FInv(1 - k)))
  }

  lemma EAddCommutes(a: Point, b: Point)
    ensures EAdd(a, b) == EAdd(b, a)
  {
    hide FInv, FMul;
    Commute(a.x * a.y, b.x * b.y);
  }

  // ---- completeness: the denominators never vanish ----------------------------------------------

  // With e = +-1 = d x1 y1 x2 y2 and s = +-1, and i a square root of -1:
  // (y1 + s i x1)^2 = d (x1 y1 (y2 + e s i x2))^2.
  lemma SquareIdentity(a: Point, b: Point, e: int, s: int)
    requires OnCurve(a) && OnCurve(b) && Res(Twist(a, b)) == Res(e)
    requires (e == 1 || e == -1) && (s == 1 || s == -1)
    ensures var u := a.y + s * (SQRT_M1 * a.x);
      var v := (a.x * a.y) * (b.y + (e * s) * (SQRT_M1 * b.x));
      Res(u * u) == Res(D * (v * v))
  {
    hide Res, OnCurve;
    var i, w1, w2, k := SQRT_M1, a.x * a.y, b.x * b.y, Twist(a, b);
    RootPart(a, s);
    RootPart(b, e * s);
    var v0 := b.y + (e * s) * (i * b.x);
    var z0 := 1 + D * (w2 * w2) + 2 * ((e * s) * (i * w2));
    ResMul(D * (w1 * w1), D * (w1 * w1), v0 * v0, z0);
    GatherSquares(D, w1, v0);
    ExpandTwist(D, w1, w2, e * s, i, z0);
    TwistSquare(a, b, e);
    SwapSigns(e, s, i, w1, k);
  }

  // (y + s i x)^2 = 1 + d x^2 y^2 + 2 s i x y on the curve.
  lemma RootPart(a: Point, s: int)
    requires OnCurve(a) && (s == 1 || s == -1)
    ensures var i, w := SQRT_M1, a.x * a.y;
      Res((a.y + s * (i * a.x)) * (a.y + s * (i * a.x))) == Res(1 + D * (w * w) + 2 * (s * (i * w)))
  {
    hide Res;
    var i, w := SQRT_M1, a.x * a.y;
    RootExpand(a.x, a.y, s, i);
    MinusOneIsSquare();
    ResMul(i * i, -1, a.x * a.x, a.x * a.x);
    var c := 2 * (s * (i * w));
    ResAdd(a.y * a.y, a.y * a.y, (i * i) * (a.x * a.x), -1 * (a.x * a.x));
    ResAdd(a.y * a.y + (i * i) * (a.x * a.x), 1 + D * (w * w), c, c);
  }

  lemma RootExpand(x: int, y: int, s: int, i: int)
    requires s == 1 || s == -1
    ensures (y + s * (i * x)) * (y + s * (i * x)) == y * y + (i * i) * (x * x) + 2 * (s * (i * (x * y)))
  {
  }

  lemma GatherSquares(d: int, w: int, v: int)
    ensures (d * (w * w)) * (v * v) == d * ((w * v) * (w * v))
  {
  }

  lemma ExpandTwist(d: int, w1: int, w2: int, s: int, i: int, z: int)
    requires z == 1 + d * (w2 * w2) + 2 * (s * (i * w2)) && (s == 1 || s == -1)
    ensures (d * (w1 * w1)) * z == d * (w1 * w1) + (d * (w1 * w2)) * (d * (w1 * w2)) + 2 * (s * ((i * w1) * (d * (w1 * w2))))
  {
  }

  lemma TwistSquare(a: Point, b: Point, e: int)
    requires Res(Twist(a, b)) == Res(e) && (e == 1 || e == -1)
    ensures var k := Twist(a, b); Res(k * k) == Res(1)
  {
    hide Res;
    var k := Twist(a, b);
    ResMul(k, e, k, e);
  }

  lemma SwapSigns(e: int, s: int, i: int, w: int, k: int)
    requires Res(k) == Res(e) && Res(k * k) == Res(1) && (e == 1 || e == -1) && (s == 1 || s == -1)
    ensures var c := D * (w * w);
      Res(c + k * k + 2 * ((e * s) * ((i * w) * k))) == Res(1 + c + 2 * (s * (i * w)))
  {
    hide Res;
    var c, m := D * (w * w), i * w;
    ResMul(m, m, k, e);
    ResMul(2 * (e * s), 2 * (e * s), m * k, m * e);
    assert 2 * ((e * s) * (m * k)) == (2 * (e * s)) * (m * k);
    assert (2 * (e * s)) * (m * e) == 2 * (s * m);
    ResAdd(c, c, k * k, 1);
    ResAdd(c + k * k, c + 1, 2 * ((e * s) * (m * k)), 2 * (s * m));
  }

  // d would be the square of u / v.
  lemma NoSuchQuotient(u: int, v: int)
    requires Fermat() && Res(u * u) == Res(D * (v * v))
    ensures Res(v) == 0
  {
    hide Res, FInv, Fermat;
    if Res(v) != 0 {
      var i := FInv(v);
      Inverse(v);
      ResOne();
      ResMul(u * u, D * (v * v), i * i, i * i);
      Shuffle(u, u, i, i);
      ResMul(v * i, 1, v * i, 1);
      ResMul(D, D, (v * i) * (v * i), 1);
      Shuffle(v, v, i, i);
      MulAssoc(D, v * v, i * i);
      NotASquare(u * i);
    }
  }

  lemma ResOne()
    ensures Res(1) == 1 && Res(-1) == P - 1 && Res(2) == 2 && Res(-2) == P - 2 && Res(4) == 4
  {
    ResSmall(1);
    ResSmall(2);
    ResSmall(4);
    ResOfNegative(1);
    ResOfNegative(2);
  }

  // No two points of the curve have d x1 y1 x2 y2 = 1 or -1.
  lemma Complete(a: Point, b: Point, e: int)
    requires Fermat() && OnCurve(a) && OnCurve(b) && (e == 1 || e == -1)
    ensures Res(Twist(a, b)) != Res(e)
  {
    hide Res, Fermat, OnCurve;
    if Res(Twist(a, b)) == Res(e) {
      BothRoots(a, b, e);
      BothVanish(a.x * a.y, b.x, b.y, SQRT_M1 * b.x);
      ResMul(2, 2, Twist(a, b), e);
      ResOne();
    }
  }

  lemma BothRoots(a: Point, b: Point, e: int)
    requires Fermat() && OnCurve(a) && OnCurve(b) && (e == 1 || e == -1) && Res(Twist(a, b)) == Res(e)
    ensures var w, v := a.x * a.y, SQRT_M1 * b.x;
      Res(w * (b.y + v)) == 0 && Res(w * (b.y - v)) == 0
  {
    hide *;
    SquareIdentity(a, b, e, e);
    SquareIdentity(a, b, e, -e);
    assert (e * e) * (SQRT_M1 * b.x) == SQRT_M1 * b.x;
    assert (e * -e) * (SQRT_M1 * b.x) == -(SQRT_M1 * b.x);
    NoSuchQuotient(a.y + e * (SQRT_M1 * a.x), (a.x * a.y) * (b.y + (e * e) * (SQRT_M1 * b.x)));
    NoSuchQuotient(a.y + -e * (SQRT_M1 * a.x), (a.x * a.y) * (b.y + (e * -e) * (SQRT_M1 * b.x)));
  }

  lemma BothVanish(w: int, x: int, y: int, v: int)
    requires Res(w * (y + v)) == 0 && Res(w * (y - v)) == 0
    ensures Res(2 * (D * (w * (x * y)))) == 0
  {
    hide *;
    ResSmall(0);
    ResAdd(w * (y + v), 0, w * (y - v), 0);
    assert w * (y + v) + w * (y - v) == 2 * (w * y);
    ResMul(2 * (w * y), 0, D * x, D * x);
    TwiceTwist(w, x, y, D);
  }

  lemma TwiceTwist(w: int, x: int, y: int, d: int)
    ensures (2 * (w * y)) * (d * x) == 2 * (d * (w * (x * y)))
  {
  }

  lemma DenominatorsNonZero(a: Point, b: Point)
    requires Fermat() && OnCurve(a) && OnCurve(b)
    ensures Res(1 + Twist(a, b)) != 0 && Res(1 - Twist(a, b)) != 0
  {
    hide Res, Twist, Fermat;
    Complete(a, b, 1);
    Complete(a, b, -1);
    ResDifference(Twist(a, b), -1);
    ResDifference(1, Twist(a, b));
  }

  // ---- extended coordinates stand for affine points ------------------------------------------------

  // p is a set of extended coordinates of a.
  ghost predicate Rep(p: Ext, a: Point) {
    Res(p.z) != 0 && Res(p.x) == Res(a.x * p.z) && Res(p.y) == Res(a.y * p.z) && Res(p.t) == Res((a.x * a.y) * p.z)
  }

  ghost function Lift(a: Point): Ext {
    Ext(a.x, a.y, 1, a.x * a.y)
  }

  lemma RepLift(a: Point)
    ensures Rep(Lift(a), a)
  {
    ResOne();
  }

  lemma RepUnpacked(a: Point)
    ensures Rep(Ext(a.x, a.y, 1, FMul(a.x, a.y)), a)
  {
    hide Res, FMul;
    ResField(a.x, a.y);
    ResOne();
  }

  // The two relations of extended coordinates say that the point is on the curve.
  lemma RepOnCurve(p: Ext, a: Point)
    requires Fermat() && Rep(p, a)
    ensures Extended(p) <==> Affine(a.x, a.y)
  {
    hide Res, Fermat;
    var w, zz := a.x * a.y, p.z * p.z;
    ResMul(p.x, a.x * p.z, p.y, a.y * p.z);
    ResMul(p.z, p.z, p.t, w * p.z);
    Shuffle(a.x, p.z, a.y, p.z);
    assert p.z * (w * p.z) == w * zz;
    ResMul(p.x, a.x * p.z, p.x, a.x * p.z);
    ResMul(p.y, a.y * p.z, p.y, a.y * p.z);
    ResMul(p.t, w * p.z, p.t, w * p.z);
    ResMul(D, D, p.t * p.t, (w * p.z) * (w * p.z));
    ResAdd(p.y * p.y, (a.y * p.z) * (a.y * p.z), p.x * p.x, (a.x * p.z) * (a.x * p.z));
    ResAdd(zz, zz, D * (p.t * p.t), D * ((w * p.z) * (w * p.z)));
    Homogeneous(a.x, a.y, w, p.z, D);
    if Affine(a.x, a.y) {
      ResMul(zz, zz, a.y * a.y - a.x * a.x, 1 + D * (w * w));
    }
    if Extended(p) {
      ZeroSquare(p.z);
      Cancel(zz, a.y * a.y - a.x * a.x, 1 + D * (w * w));
    }
  }

  lemma ZeroSquare(z: int)
    requires Fermat() && Res(z) != 0
    ensures Res(z * z) != 0
  {
    hide *;
    if Res(z * z) == 0 {
      NoZeroDivisors(z, z);
    }
  }

  lemma Homogeneous(x: int, y: int, w: int, z: int, d: int)
    ensures (y * z) * (y * z) - (x * z) * (x * z) == (z * z) * (y * y - x * x)
    ensures z * z + d * ((w * z) * (w * z)) == (z * z) * (1 + d * (w * w))
  {
  }

  // The factors of the formulas are those of the affine law, times Z1 Z2.
  lemma RepFactors(p: Ext, q: Ext, a: Point, b: Point)
    requires Rep(p, a) && Rep(q, b)
    ensures var z, k := p.z * q.z, Twist(a, b);
      Res(NumX(p, q)) == Res(SumX(a, b) * z) && Res(NumY(p, q)) == Res(SumY(a, b) * z) &&
      Res(DenX(p, q)) == Res((1 + k) * z) && Res(DenY(p, q)) == Res((1 - k) * z)
  {
    hide Res;
    var z := p.z * q.z;
    ResMul(p.x, a.x * p.z, q.y, b.y * q.z);
    ResMul(q.x, b.x * q.z, p.y, a.y * p.z);
    ResMul(p.y, a.y * p.z, q.y, b.y * q.z);
    ResMul(p.x, a.x * p.z, q.x, b.x * q.z);
    ResMul(p.t, (a.x * a.y) * p.z, q.t, (b.x * b.y) * q.z);
    Shuffle(a.x, p.z, b.y, q.z);
    Shuffle(b.x, q.z, a.y, p.z);
    Commute(q.z, p.z);
    Shuffle(a.y, p.z, b.y, q.z);
    Shuffle(a.x, p.z, b.x, q.z);
    Shuffle(a.x * a.y, p.z, b.x * b.y, q.z);
    ResAdd(p.x * q.y, (a.x * b.y) * z, q.x * p.y, (b.x * a.y) * z);
    ResAdd(p.y * q.y, (a.y * b.y) * z, p.x * q.x, (a.x * b.x) * z);
    ResMul(D, D, p.t * q.t, ((a.x * a.y) * (b.x * b.y)) * z);
    ResAdd(z, z, D * (p.t * q.t), D * (((a.x * a.y) * (b.x * b.y)) * z));
    MulDistributes(a.x * b.y, -(b.x * a.y), z);
    NegMul(b.x * a.y, z);
    MulDistributes(a.y * b.y, -(a.x * b.x), z);
    NegMul(a.x * b.x, z);
    Factor(D, (a.x * a.y) * (b.x * b.y), z);
  }

  lemma Factor(d: int, w: int, z: int)
    ensures z + d * (w * z) == (1 + d * w) * z && z - d * (w * z) == (1 - d * w) * z
  {
  }

  // AddExt implements the affine law.
  lemma RepAdd(p: Ext, q: Ext, a: Point, b: Point)
    requires Fermat() && OnCurve(a) && OnCurve(b) && Rep(p, a) && Rep(q, b)
    ensures Rep(AddExt(p, q), EAdd(a, b))
  {
    hide *;
    var k := Twist(a, b);
    NonZeroProduct(p, q, a, b);
    RepFactors(p, q, a, b);
    DenominatorsNonZero(a, b);
    AddResidues(p, q);
    AffineResidues(a, b);
    var r := AddExt(p, q);
    QuotientCoordinates(r, EAdd(a, b), SumX(a, b), SumY(a, b), 1 - k, 1 + k, p.z * q.z,
                        NumX(p, q), NumY(p, q), DenY(p, q), DenX(p, q));
  }

  lemma NonZeroProduct(p: Ext, q: Ext, a: Point, b: Point)
    requires Fermat() && Rep(p, a) && Rep(q, b)
    ensures Fermat() && Res(p.z * q.z) != 0
  {
    hide Res, Fermat;
    if Res(p.z * q.z) == 0 {
      NoZeroDivisors(p.z, q.z);
    }
  }

  lemma AffineResidues(a: Point, b: Point)
    ensures var c, k := EAdd(a, b), Twist(a, b);
      Res(c.x) == Res(SumX(a, b) * FInv(1 + k)) && Res(c.y) == Res(SumY(a, b) * FInv(1 - k))
  {
    hide Res, FMul, FInv, SumX, SumY, Twist;
    var k := Twist(a, b);
    ResField(SumX(a, b), FInv(1 + k));
    ResField(SumY(a, b), FInv(1 - k));
  }

  lemma QuotientCoordinates(r: Ext, c: Point, nx: int, ny: int, m: int, l: int, z: int,
                            a: int, h: int, f: int, g: int)
    requires Fermat() && Res(m) != 0 && Res(l) != 0 && Res(z) != 0
    requires Res(a) == Res(nx * z) && Res(h) == Res(ny * z) && Res(f) == Res(m * z) && Res(g) == Res(l * z)
    requires Res(r.x) == Res(4 * (a * f)) && Res(r.y) == Res(4 * (g * h))
    requires Res(r.z) == Res(4 * (f * g)) && Res(r.t) == Res(4 * (a * h))
    requires Res(c.x) == Res(nx * FInv(l)) && Res(c.y) == Res(ny * FInv(m))
    ensures Rep(r, c)
  {
    hide Res, Fermat, FInv;
    var il, im := FInv(l), FInv(m);
    var nz := 4 * ((m * z) * (l * z));
    Inverse(l);
    Inverse(m);
    ResOne();
    FourProduct(a, f, nx * z, m * z);
    FourProduct(g, h, l * z, ny * z);
    FourProduct(f, g, m * z, l * z);
    FourProduct(a, h, nx * z, ny * z);
    ResMul(c.x, nx * il, r.z, nz);
    ResMul(c.y, ny * im, r.z, nz);
    ResMul(c.x, nx * il, c.y, ny * im);
    ResMul(c.x * c.y, (nx * il) * (ny * im), r.z, nz);
    QuotientX(nx, il, m, l, z);
    QuotientX(ny, im, l, m, z);
    Commute(m * z, l * z);
    Commute(l * z, ny * z);
    QuotientT(nx, il, ny, im, m, l, z);
    MulByOne(4 * ((nx * z) * (m * z)), l * il);
    MulByOne(4 * ((ny * z) * (l * z)), m * im);
    ResMul(l * il, 1, m * im, 1);
    MulByOne(4 * ((nx * z) * (ny * z)), (l * il) * (m * im));
    NonZeroQuad(m, l, z);
  }

  lemma FourProduct(a: int, b: int, u: int, v: int)
    requires Res(a) == Res(u) && Res(b) == Res(v)
    ensures Res(4 * (a * b)) == Res(4 * (u * v))
  {
    hide *;
    ResMul(a, u, b, v);
    ResMul(4, 4, a * b, u * v);
  }

  lemma MulByOne(x: int, y: int)
    requires Res(y) == Res(1)
    ensures Res(x * y) == Res(x)
  {
    hide *;
    ResMul(x, x, y, 1);
  }

  lemma QuotientX(n: int, i: int, m: int, l: int, z: int)
    ensures (n * i) * (4 * ((m * z) * (l * z))) == (4 * ((n * z) * (m * z))) * (l * i)
  {
    Shuffle(n, i, m * z, l * z);
    assert (n * (m * z)) * (i * (l * z)) == ((n * z) * (m * z)) * (l * i);
  }

  lemma QuotientT(nx: int, il: int, ny: int, im: int, m: int, l: int, z: int)
    ensures ((nx * il) * (ny * im)) * (4 * ((m * z) * (l * z))) == (4 * ((nx * z) * (ny * z))) * ((l * il) * (m * im))
  {
    Shuffle(nx, il, ny, im);
    Shuffle(nx * ny, il * im, m * z, l * z);
    Shuffle(m, z, l, z);
    Shuffle(nx, z, ny, z);
    Shuffle(l, il, m, im);
    Commute(l, m);
  }

  lemma NonZeroQuad(m: int, l: int, z: int)
    requires Fermat() && Res(m) != 0 && Res(l) != 0 && Res(z) != 0
    ensures Res(4 * ((m * z) * (l * z))) != 0
  {
    hide *;
    ResOne();
    if Res(4 * ((m * z) * (l * z))) == 0 {
      NoZeroDivisors(4, (m * z) * (l * z));
      NoZeroDivisors(m * z, l * z);
      if Res(m * z) == 0 {
        NoZeroDivisors(m, z);
      } else {
        NoZeroDivisors(l, z);
      }
    }
  }

  // ---- the group -----------------------------------------------------------------------------------

  lemma EAddOnCurve(a: Point, b: Point)
    requires Fermat() && OnCurve(a) && OnCurve(b)
    ensures OnCurve(EAdd(a, b))
  {
    hide Res, Fermat, Affine, Extended, Rep, EAdd, AddExt;
    RepLift(a);
    RepLift(b);
    RepOnCurve(Lift(a), a);
    RepOnCurve(Lift(b), b);
    AddKeepsExtended(Lift(a), Lift(b));
    RepAdd(Lift(a), Lift(b), a, b);
    RepOnCurve(AddExt(Lift(a), Lift(b)), EAdd(a, b));
  }

  lemma {:induction false} PowOfOne(e: nat)
    ensures Pow(1, e) == 1
  {
    if e > 0 {
      PowOfOne(e - 1);
    }
  }

  lemma EAddZero(a: Point)
    requires InField(a)
    ensures EAdd(a, Zero()) == a && EAdd(Zero(), a) == a
  {
    hide FMul, FInv;
    EAddCommutes(a, Zero());
    assert (a.x * a.y) * (0 * 1) == 0;
    assert Twist(a, Zero()) == 0;
    assert SumX(a, Zero()) == a.x && SumY(a, Zero()) == a.y;
    InverseOfOne();
    TimesOne(a.x);
    TimesOne(a.y);
  }

  lemma InverseOfOne()
    ensures FInv(1) == 1
  {
    hide Pow;
    PowOfOne(P - 2);
    ResSmall(1);
  }

  lemma TimesOne(x: int)
    requires 0 <= x < P
    ensures FMul(x, 1) == x
  {
    ResSmall(x);
  }

  lemma ResNeg(x: int)
    ensures Res(FSub(0, x)) == Res(-x)
  {
    hide *;
    ResField(0, x);
  }

  lemma NegOnCurve(a: Point)
    requires OnCurve(a)
    ensures OnCurve(Neg(a))
  {
    hide Res, FSub;
    var n := FSub(0, a.x);
    NegInField(a);
    ResNeg(a.x);
    ResMul(n, -a.x, n, -a.x);
    ResMul(n, -a.x, a.y, a.y);
    ResMul(n * a.y, -a.x * a.y, n * a.y, -a.x * a.y);
    NegMul(a.x, a.y);
    NegSquare(a.x);
    NegSquare(a.x * a.y);
    ResMul(D, D, (n * a.y) * (n * a.y), (a.x * a.y) * (a.x * a.y));
    ResAdd(a.y * a.y, a.y * a.y, n * n, a.x * a.x);
    ResAdd(1, 1, D * ((n * a.y) * (n * a.y)), D * ((a.x * a.y) * (a.x * a.y)));
  }

  lemma NegInField(a: Point)
    ensures 0 <= FSub(0, a.x) < P
  {
  }

  lemma EAddNeg(a: Point)
    requires Fermat() && OnCurve(a)
    ensures EAdd(a, Neg(a)) == Zero()
  {
    hide Res, FSub, FMul, FInv, Fermat;
    var n, w := FSub(0, a.x), a.x * a.y;
    var k := Twist(a, Neg(a));
    NegOnCurve(a);
    DenominatorsNonZero(a, Neg(a));
    ResNeg(a.x);
    ResMul(n, -a.x, a.y, a.y);
    ResMul(a.x, a.x, n, -a.x);
    NegMul(a.x, a.y);
    ResAdd(w, w, n * a.y, -w);
    ResAdd(a.y * a.y, a.y * a.y, a.x * n, a.x * -a.x);
    ResMul(w, w, n * a.y, -w);
    ResMul(D, D, w * (n * a.y), w * -w);
    ResAdd(1, 1, k, D * (w * -w));
    NegTwist(a.x, w, D);
    ZeroOverOne(SumX(a, Neg(a)), FInv(1 + k), SumY(a, Neg(a)), 1 - k);
  }

  lemma NegTwist(x: int, w: int, d: int)
    ensures d * (w * -w) == -(d * (w * w)) && x * -x == -(x * x)
  {
  }

  lemma ZeroOverOne(x: int, i: int, y: int, m: int)
    requires Fermat() && Res(x) == Res(0) && Res(y) == Res(m) && Res(m) != 0
    ensures FMul(x, i) == 0 && FMul(y, FInv(m)) == 1
  {
    hide Res, FMul, FInv;
    ResSmall(0);
    ResField(x, i);
    ResMul(x, 0, i, i);
    Inverse(m);
    ResField(y, FInv(m));
    ResMul(y, m, FInv(m), FInv(m));
  }

  // Associativity of the affine law, taken as a hypothesis by the results that need it.
  ghost predicate Associative() {
    forall a, b, c :: AssociativeAt(a, b, c)
  }

  ghost predicate AssociativeAt(a: Point, b: Point, c: Point) {
    OnCurve(a) && OnCurve(b) && OnCurve(c) ==> EAdd(EAdd(a, b), c) == EAdd(a, EAdd(b, c))
  }

  ghost predicate Group() {
    Fermat() && Associative()
  }

  lemma Assoc(a: Point, b: Point, c: Point)
    requires Group() && OnCurve(a) && OnCurve(b) && OnCurve(c)
    ensures EAdd(EAdd(a, b), c) == EAdd(a, EAdd(b, c))
  {
    hide Fermat, OnCurve, EAdd;
    assert AssociativeAt(a, b, c);
  }

  // k times a.
  ghost function SMul(k: nat, a: Point): Point {
    if k == 0 then Zero() else EAdd(SMul(k - 1, a), a)
  }

  lemma ZeroOnCurve()
    ensures OnCurve(Zero()) && InField(Zero())
  {
  }

  lemma {:induction false} SMulOnCurve(k: nat, a: Point)
    requires Fermat() && OnCurve(a)
    ensures OnCurve(SMul(k, a))
  {
    hide Fermat, OnCurve, EAdd;
    if k == 0 {
      ZeroOnCurve();
    } else {
      SMulOnCurve(k - 1, a);
      EAddOnCurve(SMul(k - 1, a), a);
    }
  }

  lemma CurveInField(a: Point)
    requires OnCurve(a)
    ensures InField(a)
  {
  }

  lemma {:induction false} SMulAdd(j: nat, k: nat, a: Point)
    requires Group() && OnCurve(a)
    ensures SMul(j + k, a) == EAdd(SMul(j, a), SMul(k, a))
    decreases k
  {
    hide Fermat, Associative, OnCurve, EAdd, InField;
    SMulOnCurve(j, a);
    if k == 0 {
      CurveInField(SMul(j, a));
      EAddZero(SMul(j, a));
    } else {
      SMulAdd(j, k - 1, a);
      SMulOnCurve(k - 1, a);
      Assoc(SMul(j, a), SMul(k - 1, a), a);
    }
  }

  lemma {:induction false} SMulOfSum(k: nat, a: Point, b: Point)
    requires Group() && OnCurve(a) && OnCurve(b)
    ensures SMul(k, EAdd(a, b)) == EAdd(SMul(k, a), SMul(k, b))
  {
    hide Fermat, Associative, OnCurve, EAdd, InField;
    ZeroOnCurve();
    if k == 0 {
      EAddZero(Zero());
    } else {
      var x, y := SMul(k - 1, a), SMul(k - 1, b);
      SMulOfSum(k - 1, a, b);
      SMulOnCurve(k - 1, a);
      SMulOnCurve(k - 1, b);
      EAddOnCurve(y, b);
      EAddOnCurve(a, b);
      Assoc(x, y, EAdd(a, b));
      Assoc(y, a, b);
      EAddCommutes(y, a);
      Assoc(a, y, b);
      Assoc(x, a, EAdd(y, b));
    }
  }

  lemma {:induction false} SMulOfZero(k: nat)
    ensures SMul(k, Zero()) == Zero()
  {
    hide EAdd, InField;
    if k > 0 {
      SMulOfZero(k - 1);
      ZeroOnCurve();
      EAddZero(Zero());
    }
  }

  lemma {:induction false} SMulMul(j: nat, k: nat, a: Point)
    requires Group() && OnCurve(a)
    ensures j * k >= 0 && SMul(j * k, a) == SMul(j, SMul(k, a))
  {
    hide Fermat, Associative, OnCurve, EAdd, InField;
    MulNonneg(j, k);
    if j > 0 {
      SMulMul(j - 1, k, a);
      MulDistributes(j, 1, k);
      SMulAdd((j - 1) * k, k, a);
    }
  }

  // When n a = 0, a multiple of a depends only on its multiplier modulo n.
  lemma SMulMod(s: nat, n: nat, a: Point)
    requires Group() && OnCurve(a) && n > 0 && SMul(n, a) == Zero()
    ensures SMul(s % n, a) == SMul(s, a)
  {
    hide Fermat, Associative, OnCurve, EAdd, InField, SMul;
    var q := s / n;
    DivMod(s, n);
    SMulMul(q, n, a);
    SMulOfZero(q);
    SMulAdd(q * n, s % n, a);
    SMulOnCurve(s % n, a);
    CurveInField(SMul(s % n, a));
    EAddZero(SMul(s % n, a));
  }
}
