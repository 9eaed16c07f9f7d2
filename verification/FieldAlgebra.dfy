// Congruence modulo p = 2^255 - 19 and the consequences of Fermat's theorem for it.
module FieldAlgebra {
  import opened Bits
  import opened Limbs
  import opened Field25519
  import opened FieldPower

  lemma ResAdd(a: int, b: int, c: int, d: int)
    requires Res(a) == Res(b) && Res(c) == Res(d)
    ensures Res(a + c) == Res(b + d) && Res(a - c) == Res(b - d)
  {
    ResSum(a, c);
    ResSum(b, d);
  }

  lemma ResMul(a: int, b: int, c: int, d: int)
    requires Res(a) == Res(b) && Res(c) == Res(d)
    ensures Res(a * c) == Res(b * d)
  {
    ResProduct(a, c);
    ResProduct(b, d);
  }

  // The field operations compute residues.
  lemma ResField(x: int, y: int)
    ensures FAdd(x, y) == Res(x + y) && FSub(x, y) == Res(x - y) && FMul(x, y) == Res(x * y)
    ensures Res(FAdd(x, y)) == Res(x + y) && Res(FSub(x, y)) == Res(x - y) && Res(FMul(x, y)) == Res(x * y)
  {
    hide Res, FAdd, FSub, FMul;
    FieldIsRes(x, y);
    ResRes(x + y);
    ResRes(x - y);
    ResRes(x * y);
  }

  lemma FieldIsRes(x: int, y: int)
    ensures FAdd(x, y) == Res(x + y) && FSub(x, y) == Res(x - y) && FMul(x, y) == Res(x * y)
  {
  }

  // Equal differences from equal residues, and back.
  lemma ResDifference(a: int, b: int)
    ensures Res(a) == Res(b) <==> Res(a - b) == 0
  {
    hide Res;
    ResIsMod(a);
    ResIsMod(b);
    ResIsMod(a - b);
    ModDifference(a, b, P);
  }

  lemma ModDifference(a: int, b: int, m: int)
    requires m > 0
    ensures a % m == b % m <==> (a - b) % m == 0
  {
    DivMod(a, m);
    DivMod(b, m);
    DivMod(a - b, m);
    if a % m == b % m {
      MulDistributes(a / m, b / m, m);
      ModUnique(a - b, m, a / m - b / m, 0);
    }
    if (a - b) % m == 0 {
      MulDistributes(b / m, -((a - b) / m), m);
      NegMul((a - b) / m, m);
      ModUnique(a, m, b / m + (a - b) / m, b % m);
    }
  }

  // ---- powers ---------------------------------------------------------------------------------

  lemma ResPow(x: int, y: int, e: nat)
    requires Res(x) == Res(y)
    ensures Res(Pow(x, e)) == Res(Pow(y, e))
  {
    hide Res;
    if e > 0 {
      ResPow(x, y, e - 1);
      ResMul(Pow(x, e - 1), Pow(y, e - 1), x, y);
    }
  }

  // FPow(x, e) is the residue of Pow(x, e).
  lemma ResFPow(x: int, e: nat)
    ensures FPow(x, e) == Res(Pow(x, e)) && Res(FPow(x, e)) == Res(Pow(x, e))
  {
    ResRes(Pow(x, e));
  }

  // ---- what primality of p gives --------------------------------------------------------------

  // Fermat's little theorem, the one consequence of the primality of p that is used.
  ghost predicate Fermat() {
    forall x :: FermatAt(x)
  }

  ghost predicate FermatAt(x: int) {
    0 < x < P ==> FPow(x, P - 1) == 1
  }

  lemma FermatPower(b: int)
    requires Fermat() && Res(b) != 0
    ensures Res(Pow(b, P - 1)) == Res(1)
  {
    hide Res, Pow;
    var r := Res(b);
    ResRes(b);
    ResPow(b, r, P - 1);
    assert FermatAt(r);
    ResFPow(r, P - 1);
    ResSmall(1);
  }

  // A non-zero element times its power p - 2 is 1.
  lemma Inverse(x: int)
    requires Fermat() && Res(x) != 0
    ensures Res(x * FInv(x)) == 1 && Res(x * FInv(Res(x))) == 1
  {
    hide Res, FPow;
    var r := Res(x);
    ResRes(x);
    InverseOfResidue(r);
    ResPow(x, r, P - 2);
    ResFPow(x, P - 2);
    ResFPow(r, P - 2);
    ResMul(x, r, FInv(x), FInv(r));
    ResMul(x, r, FInv(r), FInv(r));
  }

  lemma InverseOfResidue(r: int)
    requires Fermat() && 0 < r < P
    ensures Res(r * FInv(r)) == 1
  {
    hide Res, FPow;
    assert FermatAt(r);
    ResFPow(r, P - 1);
    ResFPow(r, P - 2);
    ResMul(FInv(r), Pow(r, P - 2), r, r);
    Commute(r, FInv(r));
    ResRes(Pow(r, P - 1));
  }

  // There are no zero divisors.
  lemma NoZeroDivisors(x: int, y: int)
    requires Fermat() && Res(x * y) == 0
    ensures Res(x) == 0 || Res(y) == 0
  {
    hide Res, FInv;
    if Res(x) != 0 {
      Inverse(x);
      ResSmall(0);
      ResMul(x * y, 0, FInv(x), FInv(x));
      ResSmall(1);
      ResMul(x * FInv(x), 1, y, y);
    }
  }

  // A non-zero factor may be cancelled.
  lemma Cancel(x: int, a: int, b: int)
    requires Fermat() && Res(x) != 0 && Res(x * a) == Res(x * b)
    ensures Res(a) == Res(b)
  {
    hide Res;
    ResDifference(x * a, x * b);
    MulDistributes(a, b, x);
    Commute(a, x);
    Commute(b, x);
    Commute(a - b, x);
    NoZeroDivisors(x, a - b);
    ResDifference(a, b);
  }

  // Only x and -x have the square of x.
  lemma SquareRoots(x: int, y: int)
    requires Fermat() && Res(x * x) == Res(y * y)
    ensures Res(x) == Res(y) || Res(x) == Res(-y)
  {
    hide Res;
    ResDifference(x * x, y * y);
    assert x * x - y * y == (x - y) * (x + y);
    NoZeroDivisors(x - y, x + y);
    ResDifference(x, y);
    ResDifference(x, -y);
    assert x - (-y) == x + y;
  }
}
