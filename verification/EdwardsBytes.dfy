// Points as 32 bytes (src/tweetnacl/tweetnacl.c, lines 667 to 675 and 883 to 919; sections 5.1.2 and
// 5.1.3 of RFC 8032).
module EdwardsBytes {
  import opened Bits
  import opened Bytes
  import opened Limbs
  import opened Field25519
  import opened FieldBytes
  import opened FieldPower
  import opened FieldAlgebra
  import opened EdwardsCurve
  import opened EdwardsGroup
  import opened NonSquare
  import Edwards

  datatype Option<T> = None | Some(value: T)

  // ---- encoding ------------------------------------------------------------------------------------

  // y in 32 bytes, little endian, with the lowest bit of x in the highest bit.
  ghost function Encode(a: Point): (s: seq<int>)
    ensures |s| == 32
  {
    var s := LEBytes(a.y, 32);
    s[31 := s[31] + 128 * (a.x % 2)]
  }

  ghost function Sign(n: seq<int>): int
    requires |n| == 32
  {
    n[31] / 128
  }

  ghost function AffineOf(p: Ext): (a: Point)
    ensures InField(a)
  {
    Point(FMul(p.x, FInv(p.z)), FMul(p.y, FInv(p.z)))
  }

  // All extended coordinates of a point have the same encoding.
  lemma AffineOfRep(p: Ext, a: Point)
    requires Fermat() && InField(a) && Rep(p, a)
    ensures AffineOf(p) == a
  {
    hide Res, Fermat, FMul, FInv;
    Quotient(p.x, a.x, p.z);
    Quotient(p.y, a.y, p.z);
  }

  lemma Quotient(x: int, a: int, z: int)
    requires Fermat() && 0 <= a < P && Res(z) != 0 && Res(x) == Res(a * z)
    ensures FMul(x, FInv(z)) == a
  {
    hide Res, Fermat, FMul, FInv;
    Inverse(z);
    ResOne();
    ResField(x, FInv(z));
    ResMul(x, a * z, FInv(z), FInv(z));
    MulAssoc(a, z, FInv(z));
    MulByOne(a, z * FInv(z));
    ResSmall(a);
  }

  // The y-coordinate leaves the highest bit free.
  lemma TopByte(y: int, n: nat)
    requires 0 <= y < P + 19 && n == 31
    ensures LEBytes(y, n + 1)[n] < 128
  {
    hide *;
    HighestBit(n);
    LastByte(y, n);
    TopDigit(y, Pow256(n));
  }

  lemma HighestBit(n: nat)
    requires n == 31
    ensures 128 * Pow256(n) == P + 19
  {
    hide Pow;
    PValue();
    PowOf31(n);
  }

  lemma LastByte(x: int, n: nat)
    ensures LEBytes(x, n + 1)[n] == x / Pow256(n) % 256
  {
  }

  lemma TopDigit(y: int, p: int)
    requires p > 0 && 0 <= y < 128 * p
    ensures y / p % 256 < 128
  {
    DivMod(y, p);
    var d := y / p;
    if d >= 128 {
      MulNonneg(d - 128, p);
      MulDistributes(d, 128, p);
      assert false;
    }
    if d < 0 {
      MulNonneg(-1 - d, p);
      MulDistributes(-1, d, p);
      assert false;
    }
    SmallMod(d, 256);
  }

  // The coordinate and the sign can be read back.
  lemma EncodeParts(a: Point)
    requires InField(a)
    ensures IsBytes(Encode(a)) && Decode(Encode(a)) == a.y && Sign(Encode(a)) == a.x % 2
  {
    var s := LEBytes(a.y, |Encode(a)|);
    TopByte(a.y, |s| - 1);
    ByteBits(s[31], a.x % 2);
    assert Encode(a)[..31] + [Encode(a)[31] % 128] == s;
    LEValueOfBytes(a.y, |s|);
    FieldBelow(a.y, |s|);
  }

  lemma ByteBits(b: int, s: int)
    requires 0 <= b < 128 && 0 <= s < 2
    ensures 0 <= b + 128 * s < 256 && (b + 128 * s) % 128 == b && (b + 128 * s) / 128 == s
  {
  }

  lemma FieldBelow(y: int, n: nat)
    requires 0 <= y < P + 19 && n == 32
    ensures y % Pow256(n) == y
  {
    HighestBit(n - 1);
    assert Pow256(n) == Pow256(n - 1) * 256;
    SmallMod(y, Pow256(n));
  }

  // Points with the same encoding are the same.
  lemma EncodeInjective(a: Point, b: Point)
    requires Fermat() && OnCurve(a) && OnCurve(b) && Encode(a) == Encode(b)
    ensures a == b
  {
    hide Res, Fermat, Encode, Decode, Sign;
    EncodeParts(a);
    EncodeParts(b);
    DenominatorNonZero(a.y);
    RootOfPoint(a.x, a.y);
    RootOfPoint(b.x, b.y);
    SameSquare(a.x, b.x, a.y);
    OppositeParity(a.x, b.x);
  }

  // ---- decoding ------------------------------------------------------------------------------------

  // x^2 = (y^2 - 1) / (d y^2 + 1)
  ghost function Numerator(y: int): int { FSub(FMul(y, y), 1) }
  ghost function Denominator(y: int): int { FAdd(1, FMul(FMul(y, y), D)) }

  // u v^7 and u v^3 (u v^7)^((p-5)/8)
  ghost function Radicand(u: int, v: int): int {
    var v2 := FMul(v, v);
    FMul(FMul(FMul(FMul(v2, v2), v2), u), v)
  }

  ghost function Candidate(u: int, v: int): int {
    FMul(FMul(FMul(FMul(FPow(Radicand(u, v), ROOT_EXPONENT), u), v), v), v)
  }

  // v x^2 = u
  ghost predicate IsRoot(x: int, u: int, v: int) {
    FMul(FMul(x, x), v) == u
  }

  ghost function Root(u: int, v: int): Option<int> {
    var x0 := Candidate(u, v);
    var x := if IsRoot(x0, u, v) then x0 else FMul(x0, SQRT_M1);
    if IsRoot(x, u, v) then Some(x) else None
  }

  // The negative of the point that the bytes stand for.
  ghost function Unpack(n: seq<int>): Option<Ext>
    requires |n| == 32
  {
    var y := Res(Decode(n));
    match Root(Numerator(y), Denominator(y))
    case None => None
    case Some(x0) =>
      var x := if x0 % 2 == Sign(n) then FSub(0, x0) else x0;
      Some(Ext(x, y, 1, FMul(x, y)))
  }

  lemma ResNumerator(y: int)
    ensures Res(Numerator(y)) == Res(y * y - 1) && Res(Denominator(y)) == Res(1 + D * (y * y))
    ensures Res(Numerator(y)) == Numerator(y)
  {
    hide Res, FMul, FAdd, FSub;
    ResField(y, y);
    ResField(FMul(y, y), 1);
    ResField(FMul(y, y), D);
    ResField(1, FMul(FMul(y, y), D));
    ResAdd(FMul(y, y), y * y, 1, 1);
    ResMul(FMul(y, y), y * y, D, D);
    Commute(y * y, D);
    ResAdd(1, 1, FMul(FMul(y, y), D), D * (y * y));
    ResRes(FMul(y, y) - 1);
  }

  lemma IsRootResidue(x: int, u: int, v: int)
    requires Res(u) == u
    ensures IsRoot(x, u, v) <==> Res((x * x) * v) == Res(u)
  {
    hide Res, FMul;
    Edwards.MulTwice(x, x, v);
  }

  // A root of v x^2 = u is the x-coordinate of a point of the curve, and conversely.
  lemma RootOfPoint(x: int, y: int)
    ensures IsRoot(x, Numerator(y), Denominator(y)) <==> Affine(x, y)
  {
    hide Res, FMul, Numerator, Denominator;
    var u, v := Numerator(y), Denominator(y);
    ResNumerator(y);
    IsRootResidue(x, u, v);
    ResMul(x * x, x * x, v, 1 + D * (y * y));
    ResDifference((x * x) * (1 + D * (y * y)), y * y - 1);
    ResDifference(1 + D * ((x * y) * (x * y)), y * y - x * x);
  }

  // ---- what an accepted key is, without any hypothesis ------------------------------------------------

  lemma Negation(x: int)
    requires 0 <= x < P
    ensures FSub(0, x) == if x == 0 then 0 else P - x
    ensures P % 2 == 1
  {
    PValue();
    if x == 0 {
      ResSmall(0);
    } else {
      ResOfNegative(x);
    }
  }

  lemma NegatedRoot(x: int, u: int, v: int)
    requires Res(u) == u
    ensures IsRoot(FSub(0, x), u, v) <==> IsRoot(x, u, v)
  {
    hide Res, FSub, FMul, IsRoot;
    ResNeg(x);
    ResMul(FSub(0, x), -x, FSub(0, x), -x);
    NegSquare(x);
    ResMul(FSub(0, x) * FSub(0, x), x * x, v, v);
    IsRootResidue(x, u, v);
    IsRootResidue(FSub(0, x), u, v);
  }

  lemma ParityOfNegation(x: int)
    requires 0 <= x < P && x != 0
    ensures FSub(0, x) % 2 != x % 2
  {
    hide FSub;
    Negation(x);
  }

  // An accepted encoding leaves a point of the curve with Z = 1 and T = X Y, whose y is the decoded
  // one and whose x has the parity opposite to the sign bit unless it is 0.
  lemma UnpackOnCurve(n: seq<int>)
    requires |n| == 32 && Unpack(n).Some?
    ensures var p := Unpack(n).value;
      p.z == 1 && p.t == FMul(p.x, p.y) && p.y == Decode(n) % P && OnCurve(Point(p.x, p.y)) && Extended(p)
    ensures var p := Unpack(n).value; p.x != 0 ==> p.x % 2 != Sign(n)
  {
    hide Res, FMul, FSub, FAdd, IsRoot, Candidate, Affine;
    var y := Res(Decode(n));
    var u, v := Numerator(y), Denominator(y);
    var x0 := Root(u, v).value;
    RootInField(u, v);
    ResNumerator(y);
    NegatedRoot(x0, u, v);
    Negation(x0);
    if x0 != 0 {
      ParityOfNegation(x0);
    }
    ResIsMod(Decode(n));
    NegInField(Point(x0, y));
    var p := Unpack(n).value;
    RootOfPoint(p.x, y);
    LiftedExtended(p);
  }

  lemma RootInField(u: int, v: int)
    requires Root(u, v).Some?
    ensures var x := Root(u, v).value; 0 <= x < P && IsRoot(x, u, v)
  {
    hide IsRoot;
  }

  lemma LiftedExtended(p: Ext)
    requires p.z == 1 && p.t == FMul(p.x, p.y) && Affine(p.x, p.y)
    ensures Extended(p)
  {
    hide Res, FMul;
    var w := p.x * p.y;
    ResField(p.x, p.y);
    ResMul(1, 1, p.t, w);
    ResMul(p.t, w, p.t, w);
    ResMul(D, D, p.t * p.t, w * w);
    ResAdd(1 * 1, 1, D * (p.t * p.t), D * (w * w));
  }

  // ---- the decoding of RFC 8032 ------------------------------------------------------------------

  // Step 3 of section 5.1.3 of RFC 8032, by what v x^2 is for the candidate x: u, -u or neither.
  ghost function RfcRoot(u: int, v: int): Option<int> {
    var x := Candidate(u, v);
    var w := FMul(FMul(x, x), v);
    if w == u then Some(x)
    else if w == FSub(0, u) then Some(FMul(x, SQRT_M1))
    else None
  }

  // Section 5.1.3 of RFC 8032.
  ghost function RfcDecode(n: seq<int>): Option<Point>
    requires |n| == 32
  {
    var y := Decode(n);
    if y >= P then None
    else
      match RfcRoot(Numerator(y), Denominator(y))
      case None => None
      case Some(x0) =>
        if x0 == 0 && Sign(n) == 1 then None
        else Some(Point(if x0 % 2 == Sign(n) then x0 else FSub(0, x0), y))
  }

  // Trying the candidate and its multiple by the root of -1 is the case distinction of the RFC.
  lemma RootIsRfc(u: int, v: int)
    requires Res(u) == u
    ensures Root(u, v) == RfcRoot(u, v)
  {
    hide Res, FMul, FSub, Candidate;
    var x := Candidate(u, v);
    var y := FMul(x, SQRT_M1);
    Edwards.MulTwice(x, x, v);
    Edwards.MulTwice(y, y, v);
    RotatedSquare(x, v);
    ResField(0, u);
    var w := (x * x) * v;
    if Res(-w) == Res(u) {
      ResNegated(-w, u);
    }
    if Res(w) == Res(-u) {
      ResNegated(w, -u);
    }
  }

  // What section 5.1.3 refuses and the source accepts: y not reduced, or x = 0 with the sign bit.
  ghost predicate Lenient(n: seq<int>)
    requires |n| == 32
  {
    Decode(n) >= P || (Sign(n) == 1 && Numerator(Decode(n)) == 0)
  }

  // The source accepts what the RFC accepts and yields the negative of its point; what it accepts
  // beyond that is exactly Lenient.
  lemma AgreesWithRfc(n: seq<int>)
    requires |n| == 32 && IsBytes(n)
    ensures RfcDecode(n).Some? <==> Unpack(n).Some? && !Lenient(n)
    ensures RfcDecode(n).Some? ==>
      Neg(RfcDecode(n).value) == Point(Unpack(n).value.x, Unpack(n).value.y)
  {
    hide Res, FSub, Decode, Sign, Root, Numerator, Denominator;
    DecodedNonNegative(n);
    if Decode(n) < P {
      var y := Decode(n);
      ResSmall(y);
      var u, v := Numerator(y), Denominator(y);
      ResNumerator(y);
      RootIsRfc(u, v);
      if Root(u, v).Some? {
        RootInField(u, v);
        var x0 := Root(u, v).value;
        RootZero(u, v);
        Negation(x0);
        Negation(FSub(0, x0));
      }
    }
  }

  lemma DecodedNonNegative(n: seq<int>)
    requires |n| == 32 && IsBytes(n)
    ensures 0 <= Decode(n)
  {
    hide LEValue;
    LEValueBound(n[..31] + [n[31] % 128]);
  }

  lemma ZeroProduct(x: int)
    ensures FMul(x, 0) == 0 && FMul(0, x) == 0
  {
    assert x * 0 == 0 && 0 * x == 0;
    ResSmall(0);
  }

  lemma RootZero(u: int, v: int)
    requires Root(u, v).Some?
    ensures Root(u, v).value == 0 <==> u == 0
  {
    hide FMul, FPow, Radicand;
    RootInField(u, v);
    ZeroProduct(0);
    ZeroProduct(v);
    ZeroProduct(FPow(Radicand(u, v), ROOT_EXPONENT));
  }

  // A concrete encoding that only the source accepts: y = p + 1, which stands for y = 1.
  lemma UnreducedKey()
    ensures var n := LEBytes(P + 1, 32); Unpack(n).Some? && RfcDecode(n).None?
  {
    hide LEBytes, Decode, Sign, Denominator, FMul, FSub, FPow, Radicand;
    var n, v := LEBytes(P + 1, 32), Denominator(1);
    DecodeUnreduced(|n|);
    ResShift(1, 1);
    ResSmall(1);
    NumeratorOfOne();
    ZeroProduct(0);
    ZeroProduct(v);
    ZeroProduct(FPow(Radicand(0, v), ROOT_EXPONENT));
  }

  // The second case: y = 1, which means x = 0, with the sign bit.
  lemma SignedZeroKey(n: seq<int>)
    requires |n| == 32 && Decode(n) == 1 && Sign(n) == 1
    ensures Unpack(n).Some? && RfcDecode(n).None?
  {
    hide Decode, Sign, Denominator, FMul, FSub, FPow, Radicand;
    var v := Denominator(1);
    ResSmall(1);
    NumeratorOfOne();
    ZeroProduct(0);
    ZeroProduct(v);
    ZeroProduct(FPow(Radicand(0, v), ROOT_EXPONENT));
    AgreesOnZero(v);
  }

  lemma AgreesOnZero(v: int)
    ensures Root(0, v) == RfcRoot(0, v)
  {
    ResSmall(0);
    RootIsRfc(0, v);
  }

  // Its bytes.
  lemma SignedZeroBytes(n: seq<int>)
    requires n == Encode(Point(1, 1))
    ensures IsBytes(n) && n[31] == 128 && Decode(n) == 1 && Sign(n) == 1
  {
    hide LEBytes;
    EncodeParts(Point(1, 1));
    TopOfOne(31);
  }

  lemma TopOfOne(k: nat)
    requires k == 31
    ensures LEBytes(1, k + 1)[k] == 0
  {
    hide Pow256;
    LastByte(1, k);
    HighestBit(k);
    ModUnique(1, Pow256(k), 0, 1);
  }

  lemma NumeratorOfOne()
    ensures Numerator(1) == 0
  {
    assert 1 * 1 == 1;
    ResSmall(1);
    ResSmall(0);
  }

  lemma DecodeUnreduced(k: nat)
    requires k == 32
    ensures Decode(LEBytes(P + 1, k)) == P + 1
  {
    var n := LEBytes(P + 1, k);
    TopByte(P + 1, k - 1);
    LEValueOfBytes(P + 1, k);
    FieldBelow(P + 1, k);
    assert n[31] % 128 == n[31];
    assert n[..31] + [n[31] % 128] == n;
  }

  // ---- decoding finds every point: the square-root argument --------------------------------------------

  // v x^2 = u w for the candidate x, with w = (u v^7)^((p-1)/4).
  ghost function Phase(u: int, v: int): int {
    Pow(Radicand(u, v), 2 * ROOT_EXPONENT + 1)
  }

  lemma ResRadicand(u: int, v: int)
    ensures Res(Radicand(u, v)) == Res((((v * v) * (v * v)) * (v * v)) * u * v)
  {
    hide Res, FMul;
    var v2, v4 := FMul(v, v), FMul(FMul(v, v), FMul(v, v));
    var v6 := FMul(v4, v2);
    ResOfAdd(v, v, v, v);
    ResOfAdd(v2, v2, v * v, v * v);
    ResOfAdd(v4, v2, (v * v) * (v * v), v * v);
    ResOfAdd(v6, u, ((v * v) * (v * v)) * (v * v), u);
    ResOfAdd(FMul(v6, u), v, (((v * v) * (v * v)) * (v * v)) * u, v);
  }

  lemma ResCandidate(u: int, v: int)
    ensures Res(Candidate(u, v)) == Res(Pow(Radicand(u, v), ROOT_EXPONENT) * u * v * v * v)
  {
    hide Res, FMul, Radicand, Pow, FPow;
    var c := Radicand(u, v);
    var t, s := FPow(c, ROOT_EXPONENT), Pow(c, ROOT_EXPONENT);
    ResFPow(c, ROOT_EXPONENT);
    ResOfAdd(t, u, s, u);
    ResOfAdd(FMul(t, u), v, s * u, v);
    ResOfAdd(FMul(FMul(t, u), v), v, s * u * v, v);
    ResOfAdd(FMul(FMul(FMul(t, u), v), v), v, s * u * v * v, v);
  }

  lemma SquareOfCandidate(u: int, v: int)
    ensures var x := Candidate(u, v); Res((x * x) * v) == Res(u * Phase(u, v))
  {
    hide Res, FMul, Candidate, Radicand, Pow;
    var x, c, e := Candidate(u, v), Radicand(u, v), ROOT_EXPONENT;
    var t := Pow(c, e);
    var z := t * u * v * v * v;
    var r := (((v * v) * (v * v)) * (v * v)) * u * v;
    ResCandidate(u, v);
    ResRadicand(u, v);
    ResMul(x, z, x, z);
    ResMul(x * x, z * z, v, v);
    RegroupCandidate(t, u, v);
    PowerSplit(c, e);
    ResMul(r, c, t * t, t * t);
    ResMul(u, u, r * (t * t), c * (t * t));
  }

  lemma PowerSplit(c: int, e: nat)
    ensures Pow(c, 2 * e + 1) == c * (Pow(c, e) * Pow(c, e))
  {
    PowAdd(c, e, e);
    assert Pow(c, 2 * e + 1) == Pow(c, 2 * e) * c;
  }

  lemma RegroupCandidate(t: int, u: int, v: int)
    ensures var z := t * u * v * v * v;
      (z * z) * v == u * (((((v * v) * (v * v)) * (v * v)) * u * v) * (t * t))
  {
    var a := v * v * v;
    assert t * u * v * v * v == (t * u) * a;
    Shuffle(t * u, a, t * u, a);
    Shuffle(t, u, t, u);
    assert ((v * v) * (v * v)) * (v * v) == a * a;
    RegroupFactors(t * t, u, a * a, v);
  }

  lemma RegroupFactors(t: int, u: int, a: int, v: int)
    ensures ((t * (u * u)) * a) * v == u * ((a * u * v) * t)
  {
  }

  // When u = v s^2, the phase is 1 or -1, or s v^4 is zero.
  lemma PhaseOfSquare(s: int, u: int, v: int)
    requires Fermat() && Res((s * s) * v) == Res(u)
    ensures var b := s * ((v * v) * (v * v));
      if Res(b) == 0 then Res(Phase(u, v)) == 0 else Res(Phase(u, v)) == Res(1) || Res(Phase(u, v)) == Res(-1)
  {
    hide Res, Fermat, Radicand, Pow;
    var b, c, e := s * ((v * v) * (v * v)), Radicand(u, v), ROOT_EXPONENT;
    RadicandIsSquare(s, u, v);
    var w := Pow(c, 2 * e + 1);
    ResPow(c, b * b, 2 * e + 1);
    if Res(b) == 0 {
      ZeroPower(b, 2 * e + 1);
    } else {
      FiveModEight();
      UnitPower(b, 2 * e + 1);
      ResMul(w, Pow(b * b, 2 * e + 1), w, Pow(b * b, 2 * e + 1));
      SquareRoots(w, 1);
    }
  }

  lemma RadicandIsSquare(s: int, u: int, v: int)
    requires Res((s * s) * v) == Res(u)
    ensures var b := s * ((v * v) * (v * v)); Res(Radicand(u, v)) == Res(b * b)
  {
    hide Res, Radicand;
    var v6 := ((v * v) * (v * v)) * (v * v);
    ResRadicand(u, v);
    ResMul(v6, v6, (s * s) * v, u);
    ResMul(v6 * ((s * s) * v), v6 * u, v, v);
    SquareFactors(s, v * v, v);
  }

  lemma SquareFactors(s: int, q: int, v: int)
    requires q == v * v
    ensures (((q * q) * q) * ((s * s) * v)) * v == (s * (q * q)) * (s * (q * q))
  {
    Shuffle(s, q * q, s, q * q);
  }

  lemma ZeroPower(b: int, n: nat)
    requires Res(b) == 0 && n > 0
    ensures Res(Pow(b * b, n)) == 0
  {
    hide Res;
    ResSmall(0);
    ResMul(b, 0, b, b);
    ResMul(b * b, 0, Pow(b * b, n - 1), Pow(b * b, n - 1));
    Commute(b * b, Pow(b * b, n - 1));
  }

  // (b^2)^((p-1)/4) is a square root of 1.
  lemma UnitPower(b: int, n: nat)
    requires Fermat() && Res(b) != 0 && 4 * n == P - 1
    ensures Res(Pow(b * b, n) * Pow(b * b, n)) == Res(1 * 1)
  {
    hide Res, Fermat, Pow;
    PowOfProduct(b, b, n);
    PowAdd(b, n, n);
    PowAdd(b, 2 * n, 2 * n);
    FermatPower(b);
  }

  // Root finds a root whenever there is one.
  lemma RootComplete(s: int, u: int, v: int)
    requires Fermat() && Res(u) == u && IsRoot(s, u, v)
    ensures Root(u, v).Some?
  {
    hide Res, Fermat, FMul, IsRoot, Candidate, Phase;
    var x, w := Candidate(u, v), Phase(u, v);
    IsRootResidue(s, u, v);
    PhaseOfSquare(s, u, v);
    SquareOfCandidate(u, v);
    IsRootResidue(x, u, v);
    IsRootResidue(FMul(x, SQRT_M1), u, v);
    if Res(s * ((v * v) * (v * v))) == 0 {
      ZeroRadicand(s, u, v);
      ResMul(u, u, w, 0);
      ResSmall(0);
    } else if Res(w) == Res(1) {
      ResMul(u, u, w, 1);
    } else {
      ResMul(u, u, w, -1);
      RotatedSquare(x, v);
      ResNegated((x * x) * v, -u);
    }
  }

  lemma ResNegated(a: int, b: int)
    requires Res(a) == Res(b)
    ensures Res(-a) == Res(-b)
  {
    hide *;
    ResMul(-1, -1, a, b);
  }

  lemma ZeroRadicand(s: int, u: int, v: int)
    requires Fermat() && Res(s * ((v * v) * (v * v))) == 0 && Res((s * s) * v) == Res(u)
    ensures Res(u) == 0
  {
    hide *;
    ResSmall(0);
    NoZeroDivisors(s, (v * v) * (v * v));
    if Res(s) == 0 {
      ResMul(s, 0, s * v, s * v);
      MulAssoc(s, s, v);
    } else {
      NoZeroDivisors(v * v, v * v);
      NoZeroDivisors(v, v);
      ResMul(s * s, s * s, v, 0);
    }
  }

  // Multiplying by the square root of -1 negates the square.
  lemma RotatedSquare(x: int, v: int)
    ensures var y := FMul(x, SQRT_M1); Res((y * y) * v) == Res(-((x * x) * v))
  {
    hide *;
    var y, i := FMul(x, SQRT_M1), SQRT_M1;
    ResField(x, i);
    ResMul(y, x * i, y, x * i);
    Shuffle(x, i, x, i);
    MinusOneIsSquare();
    ResMul(x * x, x * x, i * i, -1);
    ResMul(y * y, (x * x) * -1, v, v);
    NegMul(x * x, v);
  }

  // Bytes are accepted exactly when some point of the curve has the decoded y.
  lemma UnpackAccepts(n: seq<int>)
    requires Fermat() && |n| == 32
    ensures Unpack(n).Some? <==> exists x :: OnCurve(Point(x, Decode(n) % P))
  {
    hide Res, Fermat, FMul, FSub, IsRoot, Candidate, Affine, Numerator, Denominator, Root;
    var y := Res(Decode(n));
    ResIsMod(Decode(n));
    if Unpack(n).Some? {
      UnpackOnCurve(n);
      assert OnCurve(Point(Unpack(n).value.x, y));
    }
    if exists x :: OnCurve(Point(x, y)) {
      var x :| OnCurve(Point(x, y));
      RootOfPoint(x, y);
      ResNumerator(y);
      RootComplete(x, Numerator(y), Denominator(y));
    }
  }

  // ---- decoding inverts encoding, up to the sign -----------------------------------------------------------

  lemma DenominatorNonZero(y: int)
    requires Fermat()
    ensures Res(1 + D * (y * y)) != 0
  {
    hide Res, Fermat;
    if Res(1 + D * (y * y)) == 0 {
      ResDifference(D * (y * y), -1);
      MinusOneIsSquare();
      NoSuchQuotient(SQRT_M1, y);
      ResSmall(0);
      ResMul(y, 0, y, 0);
      ResMul(D, D, y * y, 0);
      ResAdd(1, 1, D * (y * y), D * 0);
      ResOne();
    }
  }

  lemma SameSquare(x: int, z: int, y: int)
    requires Fermat() && IsRoot(x, Numerator(y), Denominator(y)) && IsRoot(z, Numerator(y), Denominator(y))
    ensures Res(x) == Res(z) || Res(x) == Res(-z)
  {
    hide Res, Fermat, IsRoot, Numerator, Denominator;
    var u, v := Numerator(y), Denominator(y);
    ResNumerator(y);
    DenominatorNonZero(y);
    IsRootResidue(x, u, v);
    IsRootResidue(z, u, v);
    Commute(x * x, v);
    Commute(z * z, v);
    Cancel(v, x * x, z * z);
    SquareRoots(x, z);
  }

  lemma OppositeParity(x: int, z: int)
    requires 0 <= x < P && 0 <= z < P && (Res(x) == Res(z) || Res(x) == Res(-z))
    ensures x == z || x == FSub(0, z)
    ensures x % 2 == z % 2 ==> x == z
  {
    hide FSub;
    ResSmall(x);
    ResSmall(z);
    Negation(z);
    if z != 0 {
      ResOfNegative(z);
    }
  }

  // The bytes of a point of the curve unpack to its negative.
  lemma UnpackEncode(a: Point)
    requires Fermat() && OnCurve(a)
    ensures Unpack(Encode(a)) == Some(Ext(Neg(a).x, a.y, 1, FMul(Neg(a).x, a.y))) && Rep(Unpack(Encode(a)).value, Neg(a))
  {
    hide Res, Fermat, FMul, FSub, IsRoot, Affine, Numerator, Denominator, Root, Encode, Decode, Sign;
    EncodeParts(a);
    ResSmall(a.y);
    RootOfPoint(a.x, a.y);
    ResNumerator(a.y);
    var u, v := Numerator(a.y), Denominator(a.y);
    RootComplete(a.x, u, v);
    RootInField(u, v);
    var x0 := Root(u, v).value;
    SameSquare(x0, a.x, a.y);
    OppositeParity(x0, a.x);
    NegatedParity(x0, a.x);
    RepUnpacked(Neg(a));
  }

  lemma NegatedParity(x: int, z: int)
    requires 0 <= x < P && 0 <= z < P && (x == z || x == FSub(0, z))
    ensures (if x % 2 == z % 2 then FSub(0, x) else x) == FSub(0, z)
  {
    hide FSub;
    Negation(x);
    Negation(z);
  }

  lemma NegNeg(a: Point)
    requires InField(a)
    ensures Neg(Neg(a)) == a
  {
    hide FSub;
    NegInField(a);
    Negation(a.x);
    Negation(FSub(0, a.x));
  }

  // ---- the decoding of the RFC is the inverse of the encoding ----------------------------------------------

  // A decoded point is on the curve and has the encoding that it was decoded from.
  lemma DecodedPoint(n: seq<int>)
    requires |n| == 32 && IsBytes(n) && RfcDecode(n).Some?
    ensures var a := RfcDecode(n).value; OnCurve(a) && Encode(a) == n
  {
    hide Res, FSub, FMul, Affine, Root, Numerator, Denominator, IsRoot, Encode, Decode, Sign;
    var y, a := Decode(n), RfcDecode(n).value;
    DecodedNonNegative(n);
    var u, v := Numerator(y), Denominator(y);
    ResNumerator(y);
    RootIsRfc(u, v);
    RootInField(u, v);
    var x0 := Root(u, v).value;
    NegatedRoot(x0, u, v);
    Negation(x0);
    RootOfPoint(a.x, y);
    SignIsBit(n);
    EncodedAgain(n, a);
  }

  lemma SignIsBit(n: seq<int>)
    requires |n| == 32 && IsBytes(n)
    ensures Sign(n) == 0 || Sign(n) == 1
  {
  }

  lemma EncodedAgain(n: seq<int>, a: Point)
    requires |n| == 32 && IsBytes(n) && InField(a) && a.y == Decode(n) && a.x % 2 == Sign(n)
    ensures Encode(a) == n
  {
    hide LEBytes, LEValue, Pow256;
    var s := n[..31] + [n[31] % 128];
    LEValueBound(s);
    SmallMod(a.y, Pow256(|s|));
    BytesOfLEValue(s, a.y);
    assert n == s[31 := s[31] + 128 * Sign(n)];
  }

  // Decoding gives a point exactly when the bytes are its encoding.
  lemma DecodeInvertsEncode(n: seq<int>, a: Point)
    requires Fermat() && |n| == 32 && IsBytes(n)
    ensures RfcDecode(n) == Some(a) <==> OnCurve(a) && Encode(a) == n
  {
    hide Res, FSub, Fermat, OnCurve, Encode, RfcDecode, Unpack, FMul, Rep, Lenient, Neg;
    if RfcDecode(n) == Some(a) {
      DecodedPoint(n);
    }
    if OnCurve(a) && Encode(a) == n {
      UnpackEncode(a);
      EncodingIsStrict(a);
      AgreesWithRfc(n);
      var b := RfcDecode(n).value;
      DecodedPoint(n);
      EncodeInjective(a, b);
    }
  }

  lemma EncodingIsStrict(a: Point)
    requires Fermat() && OnCurve(a)
    ensures !Lenient(Encode(a))
  {
    hide Res, Fermat, FMul, Affine, Numerator, Denominator, Encode, Decode, Sign;
    EncodeParts(a);
    if Numerator(a.y) == 0 {
      var v := Denominator(a.y);
      RootOfPoint(a.x, a.y);
      ResNumerator(a.y);
      ResSmall(0);
      IsRootResidue(a.x, 0, v);
      DenominatorNonZero(a.y);
      NoZeroDivisors(a.x * a.x, v);
      NoZeroDivisors(a.x, a.x);
      ResSmall(a.x);
    }
  }

  // ---- the source, in place ----------------------------------------------------------------------------------

  lemma {:induction false} XorHighBit(x: int, k: nat)
    requires 0 <= x < Pow2(k)
    ensures Xor(x, Pow2(k)) == x + Pow2(k)
  {
    if k > 0 {
      XorHighBit(x / 2, k - 1);
      XorStep(x, Pow2(k - 1));
    } else {
      XorCommutes(x, Pow2(k));
      XorZero(Pow2(k));
    }
  }

  lemma XorStep(x: int, p: int)
    ensures Xor(x, 2 * p) == 2 * Xor(x / 2, p) + x % 2
  {
    hide Xor;
    assert 2 * p / 2 == p && 2 * p % 2 == 0;
    XorHalf(x, 2 * p);
  }

  lemma SignBit(x: int, b: int)
    requires 0 <= x < 128 && (b == 0 || b == 1)
    ensures Xor(x, 128 * b) == x + 128 * b
  {
    assert Pow2(7) == 128;
    XorHighBit(x, 7);
    XorZero(x);
  }

  lemma WeightIsWide(a: array<i64>, n: nat)
    requires Weight(a, n) && n <= 256
    ensures Wide(a[..])
  {
  }

  // r := the encoding of p.
  method Pack(r: array<u8>, p: Edwards.PointLimbs)
    requires r.Length >= 32 && p.Valid()
    modifies r
    ensures r[..32] == Encode(AffineOf(p.At()))
    ensures r[32..] == old(r[32..])
  {
    hide El, Weight, FMul, FInv, Encode, Wide, Decode;
    var tx, ty, zi := new i64[16], new i64[16], new i64[16];
    ghost var a := AffineOf(p.At());
    Inv25519(zi, p.z, 1);
    M(tx, p.x, zi, 1, 1);
    M(ty, p.y, zi, 1, 1);
    WeightIsWide(tx, 1);
    WeightIsWide(ty, 1);
    Pack25519(r, ty);
    var b := Par25519(tx);
    TopByte(a.y, 31);
    WriteSign(r, b, a);
  }

  method WriteSign(r: array<u8>, b: u8, ghost a: Point)
    requires r.Length >= 32 && r[..32] == LEBytes(a.y, 32) && LEBytes(a.y, 32)[31] < 128 && b == a.x % 2
    modifies r
    ensures r[..32] == Encode(a) && r[32..] == old(r[32..])
  {
    hide LEBytes;
    assert r[31] == r[..32][31];
    SignBit(r[31], b);
    r[31] := Xor(r[31], 128 * b);
  }

  // r := the negative of the point encoded in p, when there is one.
  method UnpackNeg(r: Edwards.PointLimbs, p: array<u8>) returns (ret: int)
    requires r.Shaped() && p.Length >= 32
    modifies r.x, r.y, r.z, r.t
    ensures ret == 0 || ret == -1
    ensures ret == 0 <==> Unpack(p[..32]).Some?
    ensures ret == 0 ==> r.Valid() && r.At() == Unpack(p[..32]).value
  {
    hide El, Weight, FMul, FSub, FAdd, Decode, Candidate, IsRoot, Numerator, Denominator, SQRT_M1;
    ghost var n: seq<int> := p[..32];
    var gf1 := Edwards.Small(1);
    Set25519(r.z, gf1);
    Unpack25519(r.y, p);
    ResIsMod(Decode(n));
    var num, den := RootTerms(r.y);
    CandidateInPlace(r.x, num, den);
    var ok := CheckRoot(r.x, num, den);
    if !ok {
      RotateRoot(r.x);
    }
    ok := CheckRoot(r.x, num, den);
    if !ok {
      return -1;
    }
    assert p[..32] == n;
    ChooseSign(r.x, p[31]);
    M(r.t, r.x, r.y, 1, 1);
    ret := 0;
  }

  method RootTerms(y: array<i64>) returns (num: array<i64>, den: array<i64>)
    requires Weight(y, 1)
    ensures fresh(num) && fresh(den) && num != den && num.Length == den.Length == 16
    ensures Weight(num, 2) && Weight(den, 2)
    ensures El(num) == Numerator(El(y)) && El(den) == Denominator(El(y))
  {
    hide El, Weight, FMul, FSub, FAdd, Fe, Digits, LimbsD;
    ValueD();
    var d := Edwards.NewLimbs(D, LimbsD());
    var gf1 := Edwards.Small(1);
    num, den := new i64[16], new i64[16];
    S(num, y, 1);
    M(den, num, d, 1, 1);
    Z(num, num, gf1, 1, 1);
    A(den, gf1, den, 1, 1);
  }

  // x := num den^3 (num den^7)^((p-5)/8)
  method CandidateInPlace(x: array<i64>, num: array<i64>, den: array<i64>)
    requires x.Length == 16 && x != num && x != den && Weight(num, 2) && Weight(den, 2)
    modifies x
    ensures Weight(x, 1) && El(x) == Candidate(El(num), El(den))
  {
    hide El, Weight, FMul, FPow;
    var t := Powers(num, den);
    Pow2523(t, t, 1);
    M(t, t, num, 1, 2);
    M(t, t, den, 1, 2);
    M(t, t, den, 1, 2);
    M(x, t, den, 1, 2);
  }

  method Powers(num: array<i64>, den: array<i64>) returns (t: array<i64>)
    requires Weight(num, 2) && Weight(den, 2)
    ensures fresh(t) && t.Length == 16 && Weight(t, 1) && El(t) == Radicand(El(num), El(den))
  {
    hide El, Weight, FMul;
    t := new i64[16];
    var den2, den4, den6 := new i64[16], new i64[16], new i64[16];
    S(den2, den, 2);
    S(den4, den2, 1);
    M(den6, den4, den2, 1, 1);
    M(t, den6, num, 1, 2);
    M(t, t, den, 1, 2);
  }

  method CheckRoot(x: array<i64>, num: array<i64>, den: array<i64>) returns (ok: bool)
    requires x.Length == num.Length == 16 && Weight(x, 1) && Weight(num, 2) && Weight(den, 2)
    ensures ok <==> IsRoot(El(x), El(num), El(den))
  {
    hide El, Weight, FMul, Wide;
    var chk := new i64[16];
    S(chk, x, 1);
    M(chk, chk, den, 1, 2);
    WeightIsWide(chk, 1);
    WeightIsWide(num, 2);
    var r := Neq25519(chk, num);
    ok := r == 0;
  }

  method RotateRoot(x: array<i64>)
    requires x.Length == 16 && Weight(x, 1)
    modifies x
    ensures Weight(x, 1) && El(x) == FMul(old(El(x)), SQRT_M1)
  {
    hide El, Weight, FMul, Fe, Digits, LimbsI;
    ValueI();
    var i := Edwards.NewLimbs(SQRT_M1, LimbsI());
    M(x, x, i, 1, 1);
  }

  method ZeroLimbs() returns (g: array<i64>)
    ensures fresh(g) && g.Length == 16 && Weight(g, 0) && El(g) == 0
  {
    g := new i64[16](_ => 0);
    ValOfPrefix(W, g[..], 0, |g[..]|);
    ResSmall(0);
  }

  // x := -x when its parity is the sign bit of the last byte.
  method ChooseSign(x: array<i64>, last: u8)
    requires x.Length == 16 && Weight(x, 1)
    modifies x
    ensures Weight(x, 1)
    ensures El(x) == if old(El(x)) % 2 == last / 128 then FSub(0, old(El(x))) else old(El(x))
  {
    hide El, Weight, FSub, Wide;
    var gf0 := ZeroLimbs();
    WeightIsWide(x, 1);
    var parity := Par25519(x);
    if parity == last / 128 {
      Z(x, gf0, x, 0, 1);
    }
  }
}
