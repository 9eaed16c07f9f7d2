// The two fixed powers of the field: inversion and the square-root exponent
// (src/tweetnacl/tweetnacl.c, lines 391 to 413).
module FieldPower {
  import opened Bits
  import opened Limbs
  import opened Field25519

  // x to the power e in the field.
  ghost function FPow(x: int, e: nat): int {
    Res(Pow(x, e))
  }

  // The inverse of RFC 7748: z^(p-2).
  ghost function FInv(x: int): int {
    FPow(x, P - 2)
  }

  // 2^252 - 3
  ghost const ROOT_EXPONENT: nat := (P - 5) / 8

  // ---- the exponent built by square-and-multiply --------------------------------------------

  // The exponent reached when the rounds top, top - 1, ..., a + 1 are done: each squares, and each
  // but those in skip multiplies.
  ghost function Reached(top: int, skip: set<int>, a: int): nat
    requires a <= top
    decreases top - a
  {
    if a == top then 1 else 2 * Reached(top, skip, a + 1) + (if a + 1 in skip then 0 else 1)
  }

  lemma {:induction false} ReachedOnes(top: int, skip: set<int>, a: int)
    requires a <= top && forall k :: k in skip ==> k <= a
    ensures Reached(top, skip, a) == Pow2(top - a + 1) - 1
    decreases top - a
  {
    if a < top {
      ReachedOnes(top, skip, a + 1);
    }
  }

  lemma Pow2Of250(n: nat)
    requires n == 250
    ensures 32 * Pow2(n) == P + 19 && 4 * Pow2(n) == ROOT_EXPONENT + 3
  {
    PowLimbs(16);
    PowWIsPow2(16);
    Pow2Add(n, 6);
    assert Pow2(6) == 64;
  }

  lemma {:induction false} PowWIsPow2(n: nat)
    ensures Pow(W, n) == Pow2(16 * n)
  {
    if n > 0 {
      PowWIsPow2(n - 1);
      Pow2Add(16 * (n - 1), 16);
      Pow2Values();
    }
  }

  lemma InvExponent(top: nat, skip: set<int>)
    requires top == 253 && skip == {2, 4}
    ensures forall x :: PowerReached(x, top, skip, -1) == FInv(x)
  {
    hide Reached, FPow;
    InvReached(top, skip);
  }

  lemma InvReached(top: nat, skip: set<int>)
    requires top == 253 && skip == {2, 4}
    ensures Reached(top, skip, -1) == P - 2
  {
    hide Reached, Pow2;
    ReachedOnes(top, skip, 4);
    Pow2Of250(top - 3);
    ReachedStep(top, skip, 3);
    ReachedStep(top, skip, 2);
    ReachedStep(top, skip, 1);
    ReachedStep(top, skip, 0);
    ReachedStep(top, skip, -1);
  }

  lemma RootExponent(top: nat, skip: set<int>)
    requires top == 250 && skip == {1}
    ensures forall x :: PowerReached(x, top, skip, -1) == FPow(x, ROOT_EXPONENT)
  {
    hide Reached, FPow;
    RootReached(top, skip);
  }

  lemma RootReached(top: nat, skip: set<int>)
    requires top == 250 && skip == {1}
    ensures Reached(top, skip, -1) == ROOT_EXPONENT
  {
    hide Reached, Pow2;
    ReachedOnes(top, skip, 1);
    Pow2Of250(top);
    ReachedStep(top, skip, 0);
    ReachedStep(top, skip, -1);
  }

  lemma ReachedStep(top: nat, skip: set<int>, a: int)
    requires a < top
    ensures Reached(top, skip, a) == 2 * Reached(top, skip, a + 1) + (if a + 1 in skip then 0 else 1)
  {
  }

  ghost function PowerReached(x: int, top: int, skip: set<int>, a: int): int
    requires a <= top
  {
    FPow(x, Reached(top, skip, a))
  }

  // One round: square, then multiply unless the round is skipped.
  lemma RoundExponent(x: int, top: int, skip: set<int>, a: int)
    requires a < top
    ensures var y := PowerReached(x, top, skip, a + 1);
      PowerReached(x, top, skip, a) == if a + 1 in skip then FMul(y, y) else FMul(FMul(y, y), x)
  {
    var e := Reached(top, skip, a + 1);
    FPowSquare(x, e);
    FPowStep(x, 2 * e);
  }

  lemma {:induction false} FPowSquare(x: int, e: nat)
    ensures FMul(FPow(x, e), FPow(x, e)) == FPow(x, 2 * e)
  {
    PowAdd(x, e, e);
    ResProduct(Pow(x, e), Pow(x, e));
  }

  lemma {:induction false} FPowStep(x: int, e: nat)
    ensures FMul(FPow(x, e), x) == FPow(x, e + 1)
  {
    ResProduct(Pow(x, e), x);
    ResRes(Pow(x, e));
    ResProduct(Res(Pow(x, e)), x);
  }

  lemma PowerAtStart(x: int, top: int, skip: set<int>)
    requires 0 <= x < P
    ensures PowerReached(x, top, skip, top) == x
  {
    var e := Reached(top, skip, top);
    assert Pow(x, e) == Pow(x, e - 1) * x;
    ResSmall(x);
  }

  // ---- the loops --------------------------------------------------------------------------

  // o := i^(2^255 - 21).  The output may be the input.
  method Inv25519(o: array<i64>, i: array<i64>, ghost m: nat)
    requires o.Length == 16 && i.Length == 16 && Weight(i, m) && 1 <= m <= 512
    modifies o
    ensures Weight(o, 1) && Tight(o[..])
    ensures El(o) == FInv(old(El(i)))
  {
    hide *;
    ghost var x, skip, w := El(i), {2, 4}, m;
    var c := new i64[16];
    Set25519(c, i);
    PowerAtStart(x, 253, skip);
    for a := 254 downto 0
      invariant Weight(i, m) && El(i) == x
      invariant 1 <= w <= 512 && Weight(c, w) && (a < 254 ==> w == 1 && Tight(c[..]))
      invariant El(c) == PowerReached(x, 253, skip, a - 1)
    {
      RoundExponent(x, 253, skip, a - 1);
      S(c, c, w);
      w := 1;
      if a != 2 && a != 4 {
        M(c, c, i, 1, m);
      }
    }
    InvExponent(253, skip);
    Set25519(o, c);
  }

  // o := i^(2^252 - 3).  The output may be the input.
  method Pow2523(o: array<i64>, i: array<i64>, ghost m: nat)
    requires o.Length == 16 && i.Length == 16 && Weight(i, m) && 1 <= m <= 512
    modifies o
    ensures Weight(o, 1) && Tight(o[..])
    ensures El(o) == FPow(old(El(i)), ROOT_EXPONENT)
  {
    hide *;
    ghost var x, skip, w := El(i), {1}, m;
    var c := new i64[16];
    Set25519(c, i);
    PowerAtStart(x, 250, skip);
    for a := 251 downto 0
      invariant Weight(i, m) && El(i) == x
      invariant 1 <= w <= 512 && Weight(c, w) && (a < 251 ==> w == 1 && Tight(c[..]))
      invariant El(c) == PowerReached(x, 250, skip, a - 1)
    {
      RoundExponent(x, 250, skip, a - 1);
      S(c, c, w);
      w := 1;
      if a != 1 {
        M(c, c, i, 1, m);
      }
    }
    RootExponent(250, skip);
    Set25519(o, c);
  }
}
