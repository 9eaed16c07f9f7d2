// The point operations of src/tweetnacl/tweetnacl.c, lines 36 to 46 and 637 to 698, in place on
// limb arrays.
module Edwards {
  import opened Bits
  import opened Bytes
  import opened Limbs
  import opened Field25519
  import opened FieldBytes
  import opened FieldAlgebra
  import opened EdwardsCurve
  import opened EdwardsLadder
  import X25519

  // Four limb arrays: the source's gf p[4].
  datatype PointLimbs = PointLimbs(x: array<i64>, y: array<i64>, z: array<i64>, t: array<i64>)
  {
    // Four different arrays of sixteen limbs.
    ghost predicate Shaped() {
      x != y && x != z && x != t && y != z && y != t && z != t &&
      x.Length == y.Length == z.Length == t.Length == 16
    }

    // Every coordinate is in the range of M.
    ghost predicate Valid()
      reads x, y, z, t
    {
      Shaped() && Weight(x, 1) && Weight(y, 1) && Weight(z, 1) && Weight(t, 1)
    }

    // The extended coordinates held.
    ghost function At(): (p: Ext)
      requires Valid()
      reads x, y, z, t
    {
      Ext(El(x), El(y), El(z), El(t))
    }

    ghost predicate Apart(q: PointLimbs) {
      x != q.x && x != q.y && x != q.z && x != q.t && y != q.x && y != q.y && y != q.z && y != q.t &&
      z != q.x && z != q.y && z != q.z && z != q.t && t != q.x && t != q.y && t != q.z && t != q.t
    }
  }

  method NewLimbs(ghost v: int, s: seq<i64>) returns (g: array<i64>)
    requires |s| == 16 && Fe(s) == v && Digits(s)
    ensures fresh(g) && g.Length == 16 && El(g) == v && Weight(g, 1)
  {
    g := new i64[16](i requires 0 <= i < 16 => s[i]);
    assert g[..] == s;
  }

  // ---- addition ------------------------------------------------------------------------------------

  // The formulas in the order of the source.
  ghost function SourceAdd(p: Ext, q: Ext): Ext {
    var e, h := FSub(TermB(p, q), TermA(p, q)), FAdd(TermB(p, q), TermA(p, q));
    var f, g := FSub(TermD(p, q), TermC(p, q)), FAdd(TermD(p, q), TermC(p, q));
    Ext(FMul(e, f), FMul(h, g), FMul(g, f), FMul(e, h))
  }

  ghost function TermA(p: Ext, q: Ext): int { FMul(FSub(p.y, p.x), FSub(q.y, q.x)) }
  ghost function TermB(p: Ext, q: Ext): int { FMul(FAdd(p.x, p.y), FAdd(q.x, q.y)) }
  ghost function TermC(p: Ext, q: Ext): int { FMul(FMul(p.t, q.t), D2) }
  ghost function TermD(p: Ext, q: Ext): int { FAdd(FMul(p.z, q.z), FMul(p.z, q.z)) }

  lemma MulTwice(x: int, y: int, z: int)
    ensures FMul(FMul(x, y), z) == Res((x * y) * z)
  {
    hide Res, FMul;
    ResField(x, y);
    ResField(FMul(x, y), z);
    ResMul(FMul(x, y), x * y, z, z);
  }

  lemma DoubleProduct(x: int, y: int)
    ensures FAdd(FMul(x, y), FMul(x, y)) == FMul(FMul(x, 2), y)
  {
    hide Res, FMul, FAdd;
    MulTwice(x, 2, y);
    ResField(x, y);
    ResField(FMul(x, y), FMul(x, y));
    ResAdd(FMul(x, y), x * y, FMul(x, y), x * y);
    TwiceProduct(x, y);
  }

  lemma SourceOrder(p: Ext, q: Ext)
    ensures SourceAdd(p, q) == AddExt(p, q)
  {
    hide FAdd, FSub, FMul, Res;
    X25519.FAddCommutes(p.x, p.y);
    X25519.FAddCommutes(q.x, q.y);
    MulTwice(p.t, q.t, D2);
    MulTwice(p.t, D2, q.t);
    DoubleProduct(p.z, q.z);
    var a := FMul(FSub(p.y, p.x), FSub(q.y, q.x));
    var b := FMul(FAdd(p.x, p.y), FAdd(q.x, q.y));
    var c := FMul(FMul(p.t, q.t), D2);
    var d := FAdd(FMul(p.z, q.z), FMul(p.z, q.z));
    X25519.FMulCommutes(FAdd(d, c), FAdd(b, a));
    X25519.FMulCommutes(FAdd(d, c), FSub(d, c));
  }

  // p := p + q, also when q is p.
  method Add(p: PointLimbs, q: PointLimbs)
    requires p.Valid() && q.Valid() && (q == p || p.Apart(q))
    modifies p.x, p.y, p.z, p.t
    ensures p.Valid()
    ensures p.At() == AddExt(old(p.At()), old(q.At()))
  {
    hide El, Weight, FAdd, FSub, FMul, AddExt, TermA, TermB, TermC, TermD;
    SourceOrder(p.At(), q.At());
    var e, f, g, h := AddTerms(p, q);
    M(p.x, e, f, 2, 3);
    M(p.y, h, g, 2, 3);
    M(p.z, g, f, 3, 3);
    M(p.t, e, h, 2, 2);
  }

  // Lines 640 to 653: the terms e, f, g and h.
  method AddTerms(p: PointLimbs, q: PointLimbs)
    returns (e: array<i64>, f: array<i64>, g: array<i64>, h: array<i64>)
    requires p.Valid() && q.Valid()
    ensures fresh(e) && fresh(f) && fresh(g) && fresh(h)
    ensures e != f && e != g && e != h && f != g && f != h && g != h
    ensures Weight(e, 2) && Weight(f, 3) && Weight(g, 3) && Weight(h, 2)
    ensures var s, t := p.At(), q.At();
      El(e) == FSub(TermB(s, t), TermA(s, t)) && El(h) == FAdd(TermB(s, t), TermA(s, t)) &&
      El(f) == FSub(TermD(s, t), TermC(s, t)) && El(g) == FAdd(TermD(s, t), TermC(s, t))
  {
    hide El, Weight, FAdd, FSub, FMul, TermA, TermB, TermC, TermD, PointLimbs.At;
    var a, b := AddFactors(p, q);
    var c, d := AddDenominators(p, q);
    e, h := DifferenceAndSum(b, a, 1);
    f, g := DifferenceAndSum(d, c, 2);
  }

  method DifferenceAndSum(u: array<i64>, v: array<i64>, ghost n: nat) returns (e: array<i64>, h: array<i64>)
    requires Weight(u, n) && Weight(v, 1) && n < 256
    ensures fresh(e) && fresh(h) && e != h && Weight(e, n + 1) && Weight(h, n + 1)
    ensures El(e) == FSub(El(u), El(v)) && El(h) == FAdd(El(u), El(v))
  {
    hide El, FAdd, FSub;
    e, h := new i64[16], new i64[16];
    Z(e, u, v, n, 1);
    A(h, u, v, n, 1);
  }

  method AddFactors(p: PointLimbs, q: PointLimbs) returns (a: array<i64>, b: array<i64>)
    requires p.Valid() && q.Valid()
    ensures fresh(a) && fresh(b) && a != b && Weight(a, 1) && Weight(b, 1)
    ensures El(a) == TermA(p.At(), q.At()) && El(b) == TermB(p.At(), q.At())
  {
    hide El, Weight, FAdd, FSub, FMul;
    a, b := new i64[16], new i64[16];
    var t := new i64[16];
    Z(a, p.y, p.x, 1, 1);
    Z(t, q.y, q.x, 1, 1);
    M(a, a, t, 2, 2);
    A(b, p.x, p.y, 1, 1);
    A(t, q.x, q.y, 1, 1);
    M(b, b, t, 2, 2);
  }

  method AddDenominators(p: PointLimbs, q: PointLimbs) returns (c: array<i64>, d: array<i64>)
    requires p.Valid() && q.Valid()
    ensures fresh(c) && fresh(d) && c != d && Weight(c, 1) && Weight(d, 2)
    ensures El(c) == TermC(p.At(), q.At()) && El(d) == TermD(p.At(), q.At())
  {
    hide El, Weight, FAdd, FSub, FMul, Fe, Digits, LimbsD2;
    ValueD2();
    var d2 := NewLimbs(D2, LimbsD2());
    c, d := new i64[16], new i64[16];
    M(c, p.t, q.t, 1, 1);
    M(c, c, d2, 1, 1);
    M(d, p.z, q.z, 1, 1);
    A(d, d, d, 1, 1);
  }

  // ---- scalar multiplication -----------------------------------------------------------------------

  // Swaps the points when b is 1.
  method SwapPoints(p: PointLimbs, q: PointLimbs, b: int)
    requires p.Valid() && q.Valid() && p.Apart(q) && (b == 0 || b == 1)
    modifies p.x, p.y, p.z, p.t, q.x, q.y, q.z, q.t
    ensures p.Valid() && q.Valid()
    ensures Rungs(p.At(), q.At()) == CSwap(b, Rungs(old(p.At()), old(q.At())))
  {
    hide El, Weight;
    Sel25519(p.x, q.x, b);
    Sel25519(p.y, q.y, b);
    Sel25519(p.z, q.z, b);
    Sel25519(p.t, q.t, b);
  }

  // One round: q is swapped in and out so that the bit decides which point is doubled.
  method RungInPlace(p: PointLimbs, q: PointLimbs, b: int)
    requires p.Valid() && q.Valid() && p.Apart(q) && (b == 0 || b == 1)
    modifies p.x, p.y, p.z, p.t, q.x, q.y, q.z, q.t
    ensures p.Valid() && q.Valid()
    ensures Rungs(p.At(), q.At()) == Rung(b, Rungs(old(p.At()), old(q.At())))
  {
    hide El, Weight, AddExt;
    SwapPoints(p, q, b);
    Add(q, p);
    Add(p, p);
    SwapPoints(p, q, b);
  }

  method Small(v: i64) returns (g: array<i64>)
    requires v == 0 || v == 1
    ensures fresh(g) && g.Length == 16 && El(g) == v && Weight(g, 1)
  {
    g := X25519.Constant(v, 0);
  }

  // p := s q for the 256-bit number in the bytes so, ..., so + 31 of s.  q is destroyed.
  method ScalarMult(p: PointLimbs, q: PointLimbs, s: array<u8>, so: nat)
    requires p.Shaped() && q.Valid() && p.Apart(q) && so + 32 <= s.Length
    modifies p.x, p.y, p.z, p.t, q.x, q.y, q.z, q.t
    ensures p.Valid() && q.Valid()
    ensures Rungs(p.At(), q.At()) == Climb(old(q.At()), LEValue(s[so..so + 32]), BITS)
  {
    hide El, Weight, Rung, LEValue;
    ghost var bytes: seq<int>, base := s[so..so + 32], q.At();
    ghost var k := LEValue(bytes);
    SetIdentity(p);
    for i := 256 downto 0
      invariant s[so..so + 32] == bytes && p.Valid() && q.Valid()
      invariant Rungs(p.At(), q.At()) == Climb(base, k, BITS - i)
    {
      var b := WindowBit(s, so, i);
      RungInPlace(p, q, b);
    }
  }

  method SetIdentity(p: PointLimbs)
    requires p.Shaped()
    modifies p.x, p.y, p.z, p.t
    ensures p.Valid() && p.At() == Identity()
  {
    hide El, Weight;
    var gf0 := Small(0);
    var gf1 := Small(1);
    Set25519(p.x, gf0);
    Set25519(p.y, gf1);
    Set25519(p.z, gf1);
    Set25519(p.t, gf0);
  }

  method WindowBit(s: array<u8>, so: nat, i: nat) returns (b: int)
    requires so + 32 <= s.Length && i < 256
    ensures b == Bit(LEValue(s[so..so + 32]), i) && (b == 0 || b == 1)
  {
    BitOfByte(s[so..so + 32], i);
    b := And(s[so + i / 8] / Pow2(i % 8), 1);
  }

  // p := s B.
  method ScalarBase(p: PointLimbs, s: array<u8>, so: nat)
    requires p.Shaped() && so + 32 <= s.Length
    modifies p.x, p.y, p.z, p.t
    ensures p.Valid()
    ensures p.At() == MulExt(LEValue(s[so..so + 32]), BaseExt())
  {
    hide El, Weight, FMul, LEValue, Climb;
    var q := BasePoint();
    ScalarMult(p, q, s, so);
  }

  method NewPoint() returns (q: PointLimbs)
    ensures q.Shaped()
    ensures fresh(q.x) && fresh(q.y) && fresh(q.z) && fresh(q.t)
  {
    var x, y, z, t := new i64[16], new i64[16], new i64[16], new i64[16];
    q := PointLimbs(x, y, z, t);
  }

  method BasePoint() returns (q: PointLimbs)
    ensures q.Valid() && q.At() == BaseExt()
    ensures fresh(q.x) && fresh(q.y) && fresh(q.z) && fresh(q.t)
  {
    hide El, Weight, FMul, Fe, Digits, LimbsX, LimbsY;
    ValueX();
    ValueY();
    var X := NewLimbs(BASE_X, LimbsX());
    var Y := NewLimbs(BASE_Y, LimbsY());
    var gf1 := Small(1);
    q := NewPoint();
    Set25519(q.x, X);
    Set25519(q.y, Y);
    Set25519(q.z, gf1);
    M(q.t, X, Y, 1, 1);
  }
}
