// Scalar multiplication (src/tweetnacl/tweetnacl.c, lines 661 to 698) as a function on extended
// coordinates, and the proof that it multiplies.
module EdwardsLadder {
  import opened Bits
  import opened Bytes
  import opened Limbs
  import opened Field25519
  import opened FieldAlgebra
  import opened EdwardsCurve
  import opened EdwardsGroup

  const BITS: nat := 256

  // The numbers in 32 bytes.
  ghost predicate IsScalar(k: int) {
    0 <= k && forall n: nat :: n == BITS ==> k < Pow2(n)
  }

  // The two points that the ladder carries.
  datatype Rungs = Rungs(p: Ext, q: Ext)

  ghost function CSwap(b: int, s: Rungs): Rungs {
    if b == 1 then Rungs(s.q, s.p) else s
  }

  // Swap, add and double, swap back.
  ghost function Rung(b: int, s: Rungs): Rungs {
    var t := CSwap(b, s);
    CSwap(b, Rungs(AddExt(t.p, t.p), AddExt(t.q, t.p)))
  }

  ghost function Identity(): Ext {
    Ext(0, 1, 1, 0)
  }

  // The points after the n highest of the 256 bits of k.
  ghost function Climb(q: Ext, k: int, n: nat): Rungs
    requires n <= BITS
  {
    if n == 0 then Rungs(Identity(), q) else Rung(Bit(k, BITS - n), Climb(q, k, n - 1))
  }

  ghost function MulExt(k: int, q: Ext): Ext {
    Climb(q, k, BITS).p
  }

  ghost function BaseExt(): Ext {
    Ext(BASE_X, BASE_Y, 1, FMul(BASE_X, BASE_Y))
  }

  // ---- the ladder stays on the curve, without any hypothesis --------------------------------------

  lemma {:induction false} ClimbKeepsExtended(q: Ext, k: int, n: nat)
    requires n <= BITS && Extended(q)
    ensures Extended(Climb(q, k, n).p) && Extended(Climb(q, k, n).q)
  {
    hide Extended, AddExt;
    if n == 0 {
      IdentityExtended();
    } else {
      ClimbKeepsExtended(q, k, n - 1);
      var t := CSwap(Bit(k, BITS - n), Climb(q, k, n - 1));
      AddKeepsExtended(t.p, t.p);
      AddKeepsExtended(t.q, t.p);
    }
  }

  lemma IdentityExtended()
    ensures Extended(Identity())
  {
  }

  // ---- the ladder invariant -------------------------------------------------------------------------

  // The rungs hold n a and (n + 1) a.
  ghost predicate Holds(s: Rungs, n: nat, a: Point) {
    Rep(s.p, SMul(n, a)) && Rep(s.q, SMul(n + 1, a))
  }

  // The number that the bits of k from i upwards form.
  ghost function Upper(k: nat, i: nat): nat {
    QuotientIsNat(k, Pow2(i));
    k / Pow2(i)
  }

  lemma QuotientIsNat(k: nat, p: nat)
    requires p > 0
    ensures k / p >= 0
  {
  }

  lemma RungHolds(b: int, s: Rungs, n: nat, a: Point)
    requires Group() && OnCurve(a) && (b == 0 || b == 1) && Holds(s, n, a)
    ensures Holds(Rung(b, s), 2 * n + b, a)
  {
    hide Fermat, Associative, OnCurve, Rep, SMul, AddExt;
    var t := CSwap(b, s);
    SMulOnCurve(n, a);
    SMulOnCurve(n + 1, a);
    RepAdd(t.p, t.p, SMul(n + b, a), SMul(n + b, a));
    RepAdd(t.q, t.p, SMul(n + 1 - b, a), SMul(n + b, a));
    SMulAdd(n + b, n + b, a);
    SMulAdd(n + 1 - b, n + b, a);
  }

  lemma RepIdentity()
    ensures Rep(Identity(), Zero())
  {
    ResOne();
  }

  // The invariant: the rungs hold n a and (n + 1) a for n the bits of k read so far.
  lemma {:induction false} ClimbHolds(q: Ext, a: Point, k: nat, n: nat)
    requires Group() && OnCurve(a) && Rep(q, a) && n <= BITS && IsScalar(k)
    ensures Holds(Climb(q, k, n), Upper(k, BITS - n), a)
  {
    hide Fermat, Associative, OnCurve, InField, Rep, EAdd, AddExt, Rung, Upper, Pow2;
    if n == 0 {
      NoBits(k, BITS);
      RepIdentity();
      SMulOne(a);
    } else {
      ClimbHolds(q, a, k, n - 1);
      NextBit(k, BITS - n);
      RungHolds(Bit(k, BITS - n), Climb(q, k, n - 1), Upper(k, BITS - n + 1), a);
    }
  }

  lemma NoBits(k: nat, i: nat)
    requires k < Pow2(i)
    ensures Upper(k, i) == 0
  {
    hide Pow2;
    ModUnique(k, Pow2(i), 0, k);
  }

  lemma SMulOne(a: Point)
    requires OnCurve(a)
    ensures SMul(0, a) == Zero() && SMul(1, a) == a
  {
    hide OnCurve, EAdd, InField;
    CurveInField(a);
    EAddZero(a);
    assert SMul(1, a) == EAdd(SMul(0, a), a);
  }

  lemma NextBit(k: nat, i: nat)
    ensures var b := Bit(k, i); (b == 0 || b == 1) && Upper(k, i) == 2 * Upper(k, i + 1) + b
  {
    DivDiv(k, Pow2(i), 2);
    Commute(Pow2(i), 2);
  }

  // The ladder computes k a, for any point a and any 256-bit k.
  lemma Multiplies(q: Ext, a: Point, k: nat)
    requires Group() && OnCurve(a) && Rep(q, a) && IsScalar(k)
    ensures Rep(MulExt(k, q), SMul(k, a))
  {
    hide Fermat, Associative, OnCurve, Rep, SMul, Climb;
    ClimbHolds(q, a, k, BITS);
  }

  lemma RepBase()
    ensures Rep(BaseExt(), Base()) && OnCurve(Base())
  {
    hide Res, FMul, OnCurve;
    BaseOnCurve();
    RepUnpacked(Base());
  }
}
