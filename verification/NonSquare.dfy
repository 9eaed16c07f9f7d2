// d is not a square modulo p, from Fermat's theorem and p = 5 (mod 8): 2 d is a square, so that 2
// would be one, and with it the square root i of -1; but then p - 1 would be a multiple of 8.
module NonSquare {
  import opened Limbs
  import opened Field25519
  import opened FieldPower
  import opened FieldAlgebra
  import opened EdwardsCurve

  // A square root of 2 d.
  const ROOT_2D: int := 0x7aace324fd0ac68910cb40c6304ab6b7dbb63fe1a1c15dad5c477a1b914298b0

  lemma TwiceDIsSquare()
    ensures Res(ROOT_2D * ROOT_2D) == Res(2 * D) && Res(ROOT_2D) != 0
  {
    hide Res;
    ValueD();
    PValue();
    Residue(ROOT_2D * ROOT_2D,
            0x75927a8288d9d39d5adb04204c82526a0e9b90dacfcd8304db7c1cd9c5f0eb62, 2 * D);
    ResSmall(ROOT_2D);
  }

  // (1 + i)^2 = 2 i
  lemma SquareOfOnePlusI()
    ensures var i := SQRT_M1; Res((1 + i) * (1 + i)) == Res(2 * i)
  {
    hide Res;
    var i := SQRT_M1;
    MinusOneIsSquare();
    assert (1 + i) * (1 + i) == 1 + 2 * i + i * i;
    ResAdd(1 + 2 * i, 1 + 2 * i, i * i, -1);
  }

  // If x^2 = d, then u = x (1 + i) and a root s of 2 d satisfy u^2 = i s^2.
  lemma RotatedRoot(x: int, s: int)
    requires Res(x * x) == Res(D) && Res(s * s) == Res(2 * D)
    ensures var u := x * (1 + SQRT_M1); Res(u * u) == Res(SQRT_M1 * (s * s))
  {
    hide Res;
    var i := SQRT_M1;
    SquareOfOnePlusI();
    Shuffle(x, 1 + i, x, 1 + i);
    ResMul(x * x, D, (1 + i) * (1 + i), 2 * i);
    ResMul(i, i, s * s, 2 * D);
    assert D * (2 * i) == i * (2 * D);
  }

  // Then u^4 = -s^4.
  lemma FourthPowers(u: int, s: int)
    requires Res(u * u) == Res(SQRT_M1 * (s * s))
    ensures Res((u * u) * (u * u)) == Res(-((s * s) * (s * s)))
  {
    hide Res;
    var i := SQRT_M1;
    ResMul(u * u, i * (s * s), u * u, i * (s * s));
    Shuffle(i, s * s, i, s * s);
    MinusOneIsSquare();
    ResMul(i * i, -1, (s * s) * (s * s), (s * s) * (s * s));
  }

  lemma {:induction false} OddPower(x: int, k: nat)
    ensures Pow(-x, 2 * k + 1) == -Pow(x, 2 * k + 1)
  {
    if k > 0 {
      OddPower(x, k - 1);
    }
  }

  lemma FourthPow(x: int, n: nat)
    ensures Pow((x * x) * (x * x), n) == Pow(x, 4 * n)
  {
    PowOfProduct(x * x, x * x, n);
    PowOfProduct(x, x, n);
    PowAdd(x, n, n);
    PowAdd(x, 2 * n, 2 * n);
  }

  // The power p - 1 of u would be minus that of s.
  lemma OppositePowers(u: int, s: int, k: nat)
    requires Res((u * u) * (u * u)) == Res(-((s * s) * (s * s))) && P - 1 == 4 * (2 * k + 1)
    ensures Res(Pow(u, P - 1)) == Res(-Pow(s, P - 1))
  {
    hide Res, Pow;
    var c, e := (u * u) * (u * u), (s * s) * (s * s);
    ResPow(c, -e, 2 * k + 1);
    OddPower(e, k);
    FourthPow(u, 2 * k + 1);
    FourthPow(s, 2 * k + 1);
  }

  // p = 5 (mod 8)
  lemma FiveModEight()
    ensures P - 1 == 4 * (2 * ROOT_EXPONENT + 1)
  {
    Pow2Of250(250);
  }

  // d has no square root.
  lemma NotASquare(x: int)
    requires Fermat()
    ensures Res(x * x) != Res(D)
  {
    hide Res, Fermat, Pow;
    if Res(x * x) == Res(D) {
      var s, u := ROOT_2D, x * (1 + SQRT_M1);
      TwiceDIsSquare();
      RotatedRoot(x, s);
      FourthPowers(u, s);
      NonZeroTurn(u, s);
      FiveModEight();
      OppositePowers(u, s, ROOT_EXPONENT);
      FermatPower(u);
      FermatPower(s);
      ResMul(-1, -1, Pow(s, P - 1), 1);
      OneIsNotMinusOne();
    }
  }

  lemma OneIsNotMinusOne()
    ensures Res(1) != Res(-1)
  {
    ResSmall(1);
    ResOfNegative(1);
  }

  lemma NonZeroTurn(u: int, s: int)
    requires Fermat() && Res(u * u) == Res(SQRT_M1 * (s * s)) && Res(s) != 0
    ensures Res(u) != 0
  {
    hide Res, Fermat;
    if Res(u) == 0 {
      ResSmall(0);
      ResMul(u, 0, u, u);
      var i := SQRT_M1;
      NoZeroDivisors(i, s * s);
      if Res(s * s) == 0 {
        NoZeroDivisors(s, s);
      }
      ResMul(i, 0, i, i);
      MinusOneIsSquare();
      ResOfNegative(1);
    }
  }
}
