// The twisted Edwards curve -x^2 + y^2 = 1 + d x^2 y^2 over the integers modulo p (section 5.1 of
// RFC 8032), in affine and in extended coordinates, and the addition formulas of
// src/tweetnacl/tweetnacl.c, lines 637 to 659, on it.
module EdwardsCurve {
  import opened Bits
  import opened Limbs
  import opened Field25519
  import opened FieldAlgebra

  // ---- the constants -----------------------------------------------------------------------------

  function LimbsD(): (s: seq<i64>)
    ensures |s| == 16
  {
    [0x78a3, 0x1359, 0x4dca, 0x75eb, 0xd8ab, 0x4141, 0x0a4d, 0x0070,
     0xe898, 0x7779, 0x4079, 0x8cc7, 0xfe73, 0x2b6f, 0x6cee, 0x5203]
  }

  function LimbsD2(): (s: seq<i64>)
    ensures |s| == 16
  {
    [0xf159, 0x26b2, 0x9b94, 0xebd6, 0xb156, 0x8283, 0x149a, 0x00e0,
     0xd130, 0xeef3, 0x80f2, 0x198e, 0xfce7, 0x56df, 0xd9dc, 0x2406]
  }

  function LimbsX(): (s: seq<i64>)
    ensures |s| == 16
  {
    [0xd51a, 0x8f25, 0x2d60, 0xc956, 0xa7b2, 0x9525, 0xc760, 0x692c,
     0xdc5c, 0xfdd6, 0xe231, 0xc0a4, 0x53fe, 0xcd6e, 0x36d3, 0x2169]
  }

  function LimbsY(): (s: seq<i64>)
    ensures |s| == 16
  {
    [0x6658, 0x6666, 0x6666, 0x6666, 0x6666, 0x6666, 0x6666, 0x6666,
     0x6666, 0x6666, 0x6666, 0x6666, 0x6666, 0x6666, 0x6666, 0x6666]
  }

  function LimbsI(): (s: seq<i64>)
    ensures |s| == 16
  {
    [0xa0b0, 0x4a0e, 0x1b27, 0xc4ee, 0xe478, 0xad2f, 0x1806, 0x2f43,
     0xd7a7, 0x3dfb, 0x0099, 0x2b4d, 0xdf0b, 0x4fc1, 0x2480, 0x2b83]
  }

  lemma NextLimb(s: seq<int>, n: nat, p: int)
    requires n < |s| && Pow(W, n) == p
    ensures Val(W, s, n + 1) == Val(W, s, n) + s[n] * p && Pow(W, n + 1) == p * W
  {
  }

  // Four limbs as one number.
  function FourLimbs(s: seq<int>, i: nat): int
    requires i + 4 <= |s|
  {
    s[i] + 0x10000 * s[i + 1] + 0x1_0000_0000 * s[i + 2] + 0x1_0000_0000_0000 * s[i + 3]
  }

  lemma FourLimbsValue(s: seq<int>)
    requires |s| >= 4
    ensures Val(W, s, 4) == FourLimbs(s, 0) && Pow(W, 4) == 0x1_0000_0000_0000_0000
  {
    assert Pow(W, 0) == 1;
    NextLimb(s, 0, 1);
    NextLimb(s, 1, 0x10000);
    NextLimb(s, 2, 0x1_0000_0000);
    NextLimb(s, 3, 0x1_0000_0000_0000);
  }

  lemma SplitFour(s: seq<int>)
    requires |s| >= 4
    ensures Num(s) == FourLimbs(s, 0) + 0x1_0000_0000_0000_0000 * Num(s[4..])
  {
    FourLimbsValue(s);
    ValSplit(W, s, 4, |s| - 4);
  }

  ghost function SixteenNumber(s: seq<int>): int
    requires |s| == 16
  {
    FourLimbs(s, 0) + 0x1_0000_0000_0000_0000 * (FourLimbs(s, 4)
      + 0x1_0000_0000_0000_0000 * (FourLimbs(s, 8) + 0x1_0000_0000_0000_0000 * FourLimbs(s, 12)))
  }

  lemma SixteenLimbs(s: seq<int>)
    requires |s| == 16
    ensures Num(s) == SixteenNumber(s)
  {
    hide Num;
    SplitFour(s);
    SplitFour(s[4..]);
    SplitFour(s[8..]);
    SplitFour(s[12..]);
    assert s[4..][4..] == s[8..] && s[8..][4..] == s[12..] && s[12..][4..] == [];
    NoLimbs([]);
  }

  lemma NoLimbs(s: seq<int>)
    requires s == []
    ensures Num(s) == 0
  {
  }

  ghost const D: int := NumberOf(W, LimbsD())
  ghost const D2: int := NumberOf(W, LimbsD2())
  ghost const BASE_X: int := NumberOf(W, LimbsX())
  ghost const BASE_Y: int := NumberOf(W, LimbsY())
  ghost const SQRT_M1: int := NumberOf(W, LimbsI())

  lemma LimbNumber(s: seq<int>, x: int)
    requires |s| == 16 && SixteenNumber(s) == x
    requires 0 <= x < 0x7fffffffffffffffffffffffffffffffffffffffffffffffffffffffffffffed
    ensures NumberOf(W, s) == x && Fe(s) == x
  {
    hide Val, FourLimbs;
    SixteenLimbs(s);
    PValue();
    ResSmall(Num(s));
  }

  lemma ValueD()
    ensures D == 0x52036cee2b6ffe738cc740797779e89800700a4d4141d8ab75eb4dca135978a3
    ensures Fe(LimbsD()) == D && Digits(LimbsD())
  {
    hide Fe, Num, Val, NumberOf;
    LimbNumber(LimbsD(), 0x52036cee2b6ffe738cc740797779e89800700a4d4141d8ab75eb4dca135978a3);
  }

  lemma ValueD2()
    ensures D2 == 0x2406d9dc56dffce7198e80f2eef3d13000e0149a8283b156ebd69b9426b2f159
    ensures Fe(LimbsD2()) == D2 && Digits(LimbsD2())
  {
    hide Fe, Num, Val, NumberOf;
    LimbNumber(LimbsD2(), 0x2406d9dc56dffce7198e80f2eef3d13000e0149a8283b156ebd69b9426b2f159);
  }

  lemma ValueX()
    ensures BASE_X == 0x216936d3cd6e53fec0a4e231fdd6dc5c692cc7609525a7b2c9562d608f25d51a
    ensures Fe(LimbsX()) == BASE_X && Digits(LimbsX())
  {
    hide Fe, Num, Val, NumberOf;
    LimbNumber(LimbsX(), 0x216936d3cd6e53fec0a4e231fdd6dc5c692cc7609525a7b2c9562d608f25d51a);
  }

  lemma ValueY()
    ensures BASE_Y == 0x6666666666666666666666666666666666666666666666666666666666666658
    ensures Fe(LimbsY()) == BASE_Y && Digits(LimbsY())
  {
    hide Fe, Num, Val, NumberOf;
    LimbNumber(LimbsY(), 0x6666666666666666666666666666666666666666666666666666666666666658);
  }

  lemma ValueI()
    ensures SQRT_M1 == 0x2b8324804fc1df0b2b4d00993dfbd7a72f431806ad2fe478c4ee1b274a0ea0b0
    ensures Fe(LimbsI()) == SQRT_M1 && Digits(LimbsI())
  {
    hide Fe, Num, Val, NumberOf;
    LimbNumber(LimbsI(), 0x2b8324804fc1df0b2b4d00993dfbd7a72f431806ad2fe478c4ee1b274a0ea0b0);
  }

  // The constants are what section 5.1 of RFC 8032 says of them: d = -121665/121666, y = 4/5 on
  // the base point, whose x is even, and a square root of -1.
  lemma Constants()
    ensures Res(D * 121666) == Res(-121665)
    ensures D2 == FAdd(D, D)
    ensures Res(BASE_Y * 5) == 4 && BASE_X % 2 == 0
  {
    hide Res;
    ValueD();
    ValueX();
    ValueY();
    PValue();
    Residue(D * 121666, 0x13083, -121665);
    Residue(BASE_Y * 5, 4, 4);
    ResSmall(4);
    TwiceD();
  }

  lemma TwiceD()
    ensures D2 == FAdd(D, D)
  {
    ValueD();
    ValueD2();
    PValue();
    ResShift(D2, 1);
    ResSmall(D2);
  }

  lemma Residue(x: int, q: int, r: int)
    requires x == r + q * P
    ensures Res(x) == Res(r)
  {
    ResShift(r, q);
  }

  lemma MinusOneIsSquare()
    ensures Res(SQRT_M1 * SQRT_M1) == Res(-1)
  {
    hide Res;
    ValueI();
    PValue();
    Residue(SQRT_M1 * SQRT_M1,
            0xecaa2e2f6a2302ccedb31ac05720688238ced2078f3eb0ec9f22e8f621972e5, -1);
  }

  // The base point: x y and then both sides of the equation are reduced step by step.
  lemma BaseOnCurve()
    ensures OnCurve(Base())
  {
    hide Res;
    ValueD();
    ValueX();
    ValueY();
    PValue();
    var w := 0x67875f0fd78b766566ea4e8e64abe37d20f09f80775152f56dde8ab3a5b7dda3;
    var ww := 0x43c62db565e3d3bfdce7c49981fd913f4f49fda745a0e7fe57b577142ad1fdae;
    var r := 0x1805ddb3491df0a9558e2ebbaa02855effa18262f5201aa14f4661759bd03579;
    Residue(BASE_X * BASE_Y, 0x1aba92430abea9989a1d81c197df16b05423d2b3aa848628a111bde6d8eb10e1, w);
    Residue(w * w, 0x53bc6c284ae8a2a1e2eb8ae30160ae5dafb97c74aa906d089e313955dd5ce727, ww);
    Residue(1 + D * ww, 0x2b6cc59a99944230931f709dd6154114df3773c14313160c6e0001c240b8a35a, r);
    Residue(BASE_Y * BASE_Y - BASE_X * BASE_X,
            0x4932ee5d776beb664d1f9c33cfb9f26a26b67752e722564d6f2645ffcb8fe84f, r);
    var v := BASE_X * BASE_Y;
    ResMul(v, w, v, w);
    ResMul(D, D, v * v, ww);
    ResAdd(1, 1, D * (v * v), D * ww);
  }

  // ---- points -----------------------------------------------------------------------------

  // A point in extended homogeneous coordinates: x = X/Z, y = Y/Z, x y = T/Z.
  datatype Ext = Ext(x: int, y: int, z: int, t: int)

  datatype Point = Point(x: int, y: int)

  ghost function Base(): Point {
    Point(BASE_X, BASE_Y)
  }

  ghost function Zero(): Point {
    Point(0, 1)
  }

  ghost function Neg(a: Point): Point {
    Point(FSub(0, a.x), a.y)
  }

  ghost predicate InField(a: Point) {
    0 <= a.x < P && 0 <= a.y < P
  }

  ghost predicate OnCurve(a: Point) {
    InField(a) && Affine(a.x, a.y)
  }

  ghost predicate Affine(x: int, y: int) {
    Res(y * y - x * x) == Res(1 + D * ((x * y) * (x * y)))
  }

  // The two relations between extended coordinates.
  ghost predicate Extended(p: Ext) {
    Res(p.x * p.y) == Res(p.z * p.t) && Projective(p)
  }

  ghost predicate Projective(p: Ext) {
    Res(p.y * p.y - p.x * p.x) == Res(p.z * p.z + D * (p.t * p.t))
  }

  // ---- the formulas of section 5.1.4 of RFC 8032 ----------------------------------------------

  ghost function AddExt(p: Ext, q: Ext): Ext {
    var a := FMul(FSub(p.y, p.x), FSub(q.y, q.x));
    var b := FMul(FAdd(p.y, p.x), FAdd(q.y, q.x));
    var c := FMul(FMul(p.t, D2), q.t);
    var d := FMul(FMul(p.z, 2), q.z);
    var e, f, g, h := FSub(b, a), FSub(d, c), FAdd(d, c), FAdd(b, a);
    Ext(FMul(e, f), FMul(g, h), FMul(f, g), FMul(e, h))
  }

  // The integers behind the formulas.
  ghost function NumX(p: Ext, q: Ext): int { p.x * q.y + q.x * p.y }
  ghost function NumY(p: Ext, q: Ext): int { p.y * q.y + p.x * q.x }
  ghost function ZZ(p: Ext, q: Ext): int { p.z * q.z }
  ghost function DTT(p: Ext, q: Ext): int { D * (p.t * q.t) }
  ghost function DenY(p: Ext, q: Ext): int { ZZ(p, q) - DTT(p, q) }
  ghost function DenX(p: Ext, q: Ext): int { ZZ(p, q) + DTT(p, q) }

  lemma SumOfProducts(px: int, py: int, qx: int, qy: int)
    ensures (py + px) * (qy + qx) - (py - px) * (qy - qx) == 2 * (px * qy + qx * py)
    ensures (py + px) * (qy + qx) + (py - px) * (qy - qx) == 2 * (py * qy + px * qx)
  {
  }

  // Residues of a sum, a difference and a product through the field operations.
  lemma ResOfAdd(x: int, y: int, u: int, v: int)
    requires Res(x) == Res(u) && Res(y) == Res(v)
    ensures Res(FAdd(x, y)) == Res(u + v) && Res(FSub(x, y)) == Res(u - v) && Res(FMul(x, y)) == Res(u * v)
  {
    hide Res, FAdd, FSub, FMul;
    ResField(x, y);
    ResAdd(x, u, y, v);
    ResMul(x, u, y, v);
  }

  lemma AddFactors(p: Ext, q: Ext)
    ensures var a := FMul(FSub(p.y, p.x), FSub(q.y, q.x));
      var b := FMul(FAdd(p.y, p.x), FAdd(q.y, q.x));
      Res(FSub(b, a)) == Res(2 * NumX(p, q)) && Res(FAdd(b, a)) == Res(2 * NumY(p, q))
  {
    hide Res, FAdd, FSub, FMul;
    var a := FMul(FSub(p.y, p.x), FSub(q.y, q.x));
    var b := FMul(FAdd(p.y, p.x), FAdd(q.y, q.x));
    ResField(p.y, p.x);
    ResField(q.y, q.x);
    ResOfAdd(FSub(p.y, p.x), FSub(q.y, q.x), p.y - p.x, q.y - q.x);
    ResOfAdd(FAdd(p.y, p.x), FAdd(q.y, q.x), p.y + p.x, q.y + q.x);
    ResOfAdd(b, a, (p.y + p.x) * (q.y + q.x), (p.y - p.x) * (q.y - q.x));
    SumOfProducts(p.x, p.y, q.x, q.y);
  }

  lemma AddDenominators(p: Ext, q: Ext)
    ensures var c := FMul(FMul(p.t, D2), q.t);
      var d := FMul(FMul(p.z, 2), q.z);
      Res(FSub(d, c)) == Res(2 * DenY(p, q)) && Res(FAdd(d, c)) == Res(2 * DenX(p, q))
  {
    hide Res, FAdd, FSub, FMul;
    var c := FMul(FMul(p.t, D2), q.t);
    var d := FMul(FMul(p.z, 2), q.z);
    ResD2();
    ResOfAdd(p.t, D2, p.t, D + D);
    ResOfAdd(FMul(p.t, D2), q.t, p.t * (D + D), q.t);
    ResField(p.z, 2);
    ResOfAdd(FMul(p.z, 2), q.z, p.z * 2, q.z);
    ResOfAdd(d, c, (p.z * 2) * q.z, (p.t * (D + D)) * q.t);
    Double(p.t, q.t, D);
    TwiceProduct(p.z, q.z);
  }

  lemma ResD2()
    ensures Res(D2) == Res(D + D)
  {
    hide Res, FAdd;
    Constants();
    ResField(D, D);
  }

  lemma Double(x: int, y: int, d: int)
    ensures (x * (d + d)) * y == 2 * (d * (x * y))
  {
  }

  lemma FourTimes(x: int, y: int)
    ensures (2 * x) * (2 * y) == 4 * (x * y)
  {
  }

  // What AddExt computes, as four congruences.
  lemma AddResidues(p: Ext, q: Ext)
    ensures var r := AddExt(p, q);
      Res(r.x) == Res(4 * (NumX(p, q) * DenY(p, q))) && Res(r.y) == Res(4 * (DenX(p, q) * NumY(p, q))) &&
      Res(r.z) == Res(4 * (DenY(p, q) * DenX(p, q))) && Res(r.t) == Res(4 * (NumX(p, q) * NumY(p, q)))
  {
    hide Res, FAdd, FSub, FMul, NumX, NumY, DenX, DenY;
    AddFactors(p, q);
    AddDenominators(p, q);
    var a := FMul(FSub(p.y, p.x), FSub(q.y, q.x));
    var b := FMul(FAdd(p.y, p.x), FAdd(q.y, q.x));
    var c := FMul(FMul(p.t, D2), q.t);
    var d := FMul(FMul(p.z, 2), q.z);
    var e, f, g, h := FSub(b, a), FSub(d, c), FAdd(d, c), FAdd(b, a);
    var nx, ny, dy, dx := NumX(p, q), NumY(p, q), DenY(p, q), DenX(p, q);
    ResOfAdd(e, f, 2 * nx, 2 * dy);
    ResOfAdd(g, h, 2 * dx, 2 * ny);
    ResOfAdd(f, g, 2 * dy, 2 * dx);
    ResOfAdd(e, h, 2 * nx, 2 * ny);
    FourTimes(nx, dy);
    FourTimes(dx, ny);
    FourTimes(dy, dx);
    FourTimes(nx, ny);
  }

  // ---- addition keeps the relations ------------------------------------------------------------

  lemma DifferenceOfSquares(x1: int, y1: int, x2: int, y2: int)
    ensures (y1 * y2 + x1 * x2) * (y1 * y2 + x1 * x2) - (x1 * y2 + x2 * y1) * (x1 * y2 + x2 * y1)
         == (y1 * y1 - x1 * x1) * (y2 * y2 - x2 * x2)
  {
  }

  lemma ProductOfNorms(z1: int, t1: int, z2: int, t2: int, d: int)
    ensures (z1 * z1 + d * (t1 * t1)) * (z2 * z2 + d * (t2 * t2))
         == (z1 * z2 + d * (t1 * t2)) * (z1 * z2 + d * (t1 * t2)) + d * ((t1 * z2 - t2 * z1) * (t1 * z2 - t2 * z1))
  {
    var zz, tt, a, b := z1 * z2, t1 * t2, t1 * z2, t2 * z1;
    Shuffle(z1, z1, z2, z2);
    Shuffle(t1, t1, t2, t2);
    Shuffle(t1, t1, z2, z2);
    Shuffle(z1, z1, t2, t2);
    Shuffle(t1, z2, t2, z1);
    FourProducts(z1 * z1, t1 * t1, z2 * z2, t2 * t2, d);
    NormSquares(zz, tt, a, b, d);
  }

  lemma NormSquares(zz: int, tt: int, a: int, b: int, d: int)
    ensures (zz + d * tt) * (zz + d * tt) == zz * zz + 2 * (d * (zz * tt)) + d * (d * (tt * tt))
    ensures d * ((a - b) * (a - b)) == d * (a * a) - 2 * (d * (a * b)) + d * (b * b)
  {
  }

  lemma FourProducts(a: int, b: int, c: int, e: int, d: int)
    ensures (a + d * b) * (c + d * e) == a * c + d * (b * c) + d * (a * e) + d * (d * (b * e))
  {
  }

  // H^2 - A^2 - G^2 = d (T1 Z2 - T2 Z1)^2, with A, H, F and G for NumX, NumY, DenY and DenX.
  lemma ClosureNorm(p: Ext, q: Ext)
    requires Projective(p) && Projective(q)
    ensures var a, g, h := NumX(p, q), DenX(p, q), NumY(p, q);
      var v := p.t * q.z - q.t * p.z;
      Res(h * h - a * a - g * g) == Res(D * (v * v))
  {
    hide Res;
    var g, v := DenX(p, q), p.t * q.z - q.t * p.z;
    DifferenceOfSquares(p.x, p.y, q.x, q.y);
    ResMul(p.y * p.y - p.x * p.x, p.z * p.z + D * (p.t * p.t), q.y * q.y - q.x * q.x, q.z * q.z + D * (q.t * q.t));
    ProductOfNorms(p.z, p.t, q.z, q.t, D);
    var n := (p.y * p.y - p.x * p.x) * (q.y * q.y - q.x * q.x);
    ResAdd(n, g * g + D * (v * v), g * g, g * g);
  }

  lemma SquareOfSum(x1: int, y1: int, x2: int, y2: int)
    ensures (x1 * y2 + x2 * y1) * (x1 * y2 + x2 * y1)
         == (x1 * y2 - x2 * y1) * (x1 * y2 - x2 * y1) + 4 * ((x1 * y1) * (x2 * y2))
  {
  }

  // A^2 = (X1 Y2 - X2 Y1)^2 + 4 Z1 T1 Z2 T2.
  lemma ClosureSquare(p: Ext, q: Ext)
    requires Extended(p) && Extended(q)
    ensures var a, w := NumX(p, q), p.x * q.y - q.x * p.y;
      Res(4 * ((p.z * p.t) * (q.z * q.t)) - a * a) == Res(-(w * w))
  {
    hide Res;
    var a, w := NumX(p, q), p.x * q.y - q.x * p.y;
    var m, n := (p.x * p.y) * (q.x * q.y), (p.z * p.t) * (q.z * q.t);
    SquareOfSum(p.x, p.y, q.x, q.y);
    ResMul(p.x * p.y, p.z * p.t, q.x * q.y, q.z * q.t);
    ResMul(4, 4, m, n);
    ResAdd(4 * n, 4 * m, a * a, a * a);
  }

  lemma CrossProduct(x1: int, y1: int, x2: int, y2: int)
    ensures (y1 * y2 + x1 * x2) * (x1 * y2 - x2 * y1) == (x1 * y1) * (y2 * y2 - x2 * x2) - (x2 * y2) * (y1 * y1 - x1 * x1)
  {
  }

  lemma CrossNorms(z1: int, t1: int, z2: int, t2: int, d: int)
    ensures (z1 * t1) * (z2 * z2 + d * (t2 * t2)) - (z2 * t2) * (z1 * z1 + d * (t1 * t1))
         == (z1 * z2 - d * (t1 * t2)) * (t1 * z2 - t2 * z1)
  {
    var zz, tt, a, b := z1 * z2, t1 * t2, t1 * z2, t2 * z1;
    Shuffle(z1, t1, z2, z2);
    Shuffle(t2, t2, z1, t1);
    Shuffle(z2, t2, z1, z1);
    Shuffle(t1, t1, z2, t2);
    CrossCollect(zz, tt, a, b, d);
  }

  lemma CrossCollect(zz: int, tt: int, a: int, b: int, d: int)
    ensures zz * a + d * (tt * b) - zz * b - d * (tt * a) == (zz - d * tt) * (a - b)
  {
  }

  // H (X1 Y2 - X2 Y1) = F (T1 Z2 - T2 Z1).
  lemma ClosureCross(p: Ext, q: Ext)
    requires Extended(p) && Extended(q)
    ensures Res(NumY(p, q) * (p.x * q.y - q.x * p.y)) == Res(DenY(p, q) * (p.t * q.z - q.t * p.z))
  {
    hide Res;
    CrossProduct(p.x, p.y, q.x, q.y);
    CrossNorms(p.z, p.t, q.z, q.t, D);
    var n1, n2 := p.z * p.z + D * (p.t * p.t), q.z * q.z + D * (q.t * q.t);
    var m1, m2 := p.y * p.y - p.x * p.x, q.y * q.y - q.x * q.x;
    ResMul(p.x * p.y, p.z * p.t, m2, n2);
    ResMul(q.x * q.y, q.z * q.t, m1, n1);
    ResAdd((p.x * p.y) * m2, (p.z * p.t) * n2, (q.x * q.y) * m1, (q.z * q.t) * n1);
  }

  lemma CurveDefect(a: int, f: int, g: int, h: int, d: int, zt: int)
    requires g * g == f * f + 4 * (d * zt)
    ensures (h * g) * (h * g) - (a * f) * (a * f) - (f * g) * (f * g) - d * ((a * h) * (a * h))
         == (f * f) * (h * h - a * a - g * g) + d * ((h * h) * (4 * zt - a * a))
  {
  }

  // The four products satisfy the second relation, whatever the denominators are.
  lemma ClosureDefect(p: Ext, q: Ext)
    requires Extended(p) && Extended(q)
    ensures var a, f, g, h := NumX(p, q), DenY(p, q), DenX(p, q), NumY(p, q);
      Res((h * g) * (h * g) - (a * f) * (a * f) - (f * g) * (f * g) - D * ((a * h) * (a * h))) == 0
  {
    hide Res, NumX, NumY, DenX, DenY;
    var a, f, g, h := NumX(p, q), DenY(p, q), DenX(p, q), NumY(p, q);
    var v, w := p.t * q.z - q.t * p.z, p.x * q.y - q.x * p.y;
    var zt := (p.z * p.t) * (q.z * q.t);
    DenominatorSquares(p, q);
    CurveDefect(a, f, g, h, D, zt);
    ClosureNorm(p, q);
    ClosureSquare(p, q);
    ClosureCross(p, q);
    ResMul(h * w, f * v, h * w, f * v);
    DefectVanishes(a, f, g, h, v, w, zt);
  }

  lemma DenominatorSquares(p: Ext, q: Ext)
    ensures var f, g := DenY(p, q), DenX(p, q);
      g * g == f * f + 4 * (D * ((p.z * p.t) * (q.z * q.t)))
  {
  }

  lemma DefectVanishes(a: int, f: int, g: int, h: int, v: int, w: int, zt: int)
    requires Res(h * h - a * a - g * g) == Res(D * (v * v))
    requires Res(4 * zt - a * a) == Res(-(w * w))
    requires Res((h * w) * (h * w)) == Res((f * v) * (f * v))
    ensures Res((f * f) * (h * h - a * a - g * g) + D * ((h * h) * (4 * zt - a * a))) == 0
  {
    hide Res;
    var r, s := h * h - a * a - g * g, 4 * zt - a * a;
    ResMul(f * f, f * f, r, D * (v * v));
    ResMul(h * h, h * h, s, -(w * w));
    ResMul(D, D, (h * h) * s, (h * h) * -(w * w));
    ResAdd((f * f) * r, (f * f) * (D * (v * v)), D * ((h * h) * s), D * ((h * h) * -(w * w)));
    ResMul(D, D, (h * w) * (h * w), (f * v) * (f * v));
    ResDifference(D * ((f * v) * (f * v)), D * ((h * w) * (h * w)));
    SquaresTogether(f, v, h, w, D);
  }

  lemma SquaresTogether(f: int, v: int, h: int, w: int, d: int)
    ensures (f * f) * (d * (v * v)) + d * ((h * h) * -(w * w)) == d * ((f * v) * (f * v)) - d * ((h * w) * (h * w))
  {
  }

  // The addition formulas keep both relations; no coordinate needs to be non-zero.
  lemma AddKeepsExtended(p: Ext, q: Ext)
    requires Extended(p) && Extended(q)
    ensures Extended(AddExt(p, q))
  {
    hide Res, NumX, NumY, DenX, DenY, AddExt;
    var r := AddExt(p, q);
    var a, f, g, h := NumX(p, q), DenY(p, q), DenX(p, q), NumY(p, q);
    AddResidues(p, q);
    ClosureDefect(p, q);
    ResMul(r.x, 4 * (a * f), r.y, 4 * (g * h));
    ResMul(r.z, 4 * (f * g), r.t, 4 * (a * h));
    Sixteen(a, f, g, h);
    ScaledRelation(r, a * f, g * h, f * g, a * h);
    Commute(g, h);
  }

  lemma Sixteen(a: int, f: int, g: int, h: int)
    ensures (4 * (a * f)) * (4 * (g * h)) == (4 * (f * g)) * (4 * (a * h))
  {
  }

  lemma ScaledRelation(r: Ext, x: int, y: int, z: int, t: int)
    requires Res(r.x) == Res(4 * x) && Res(r.y) == Res(4 * y) && Res(r.z) == Res(4 * z) && Res(r.t) == Res(4 * t)
    requires Res(y * y - x * x - z * z - D * (t * t)) == 0
    ensures Projective(r)
  {
    hide Res;
    var e := y * y - x * x - z * z - D * (t * t);
    ResMul(r.x, 4 * x, r.x, 4 * x);
    ResMul(r.y, 4 * y, r.y, 4 * y);
    ResMul(r.z, 4 * z, r.z, 4 * z);
    ResMul(r.t, 4 * t, r.t, 4 * t);
    ResMul(D, D, r.t * r.t, (4 * t) * (4 * t));
    ResAdd(r.y * r.y, (4 * y) * (4 * y), r.x * r.x, (4 * x) * (4 * x));
    ResAdd(r.z * r.z, (4 * z) * (4 * z), D * (r.t * r.t), D * ((4 * t) * (4 * t)));
    ResSmall(0);
    ResMul(16, 16, e, 0);
    ScaledDefect(x, y, z, t, D);
    ResDifference((4 * y) * (4 * y) - (4 * x) * (4 * x), (4 * z) * (4 * z) + D * ((4 * t) * (4 * t)));
  }

  lemma ScaledDefect(x: int, y: int, z: int, t: int, d: int)
    ensures ((4 * y) * (4 * y) - (4 * x) * (4 * x)) - ((4 * z) * (4 * z) + d * ((4 * t) * (4 * t)))
         == 16 * (y * y - x * x - z * z - d * (t * t))
  {
  }
}
