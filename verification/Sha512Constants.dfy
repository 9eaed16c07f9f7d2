// Where the constants of SHA-512 come from: sections 4.2.3 and 5.3.5 of FIPS 180-4.
module Sha512Constants {
  import opened Bits
  import opened Bytes
  import opened Limbs
  import opened Sha512

  // The first eighty prime numbers, in rows of eight.
  function Prime(t: nat): int
    requires t < 80
  {
    PrimeRow(t / 8)[t % 8]
  }

  function PrimeRow(r: nat): (p: seq<int>)
    requires r < 10
    ensures |p| == 8
  {
    if r == 0 then [2, 3, 5, 7, 11, 13, 17, 19]
    else if r == 1 then [23, 29, 31, 37, 41, 43, 47, 53]
    else if r == 2 then [59, 61, 67, 71, 73, 79, 83, 89]
    else if r == 3 then [97, 101, 103, 107, 109, 113, 127, 131]
    else if r == 4 then [137, 139, 149, 151, 157, 163, 167, 173]
    else if r == 5 then [179, 181, 191, 193, 197, 199, 211, 223]
    else if r == 6 then [227, 229, 233, 239, 241, 251, 257, 263]
    else if r == 7 then [269, 271, 277, 281, 283, 293, 307, 311]
    else if r == 8 then [313, 317, 331, 337, 347, 349, 353, 359]
    else [367, 373, 379, 383, 389, 397, 401, 409]
  }

  // The integer part of the cube root of p < 512.
  function Whole(p: int): int {
    if p < 8 then 1 else if p < 27 then 2 else if p < 64 then 3 else if p < 125 then 4
    else if p < 216 then 5 else if p < 343 then 6 else 7
  }

  // k is made of the first 64 bits after the point of the cube root of p, whose integer part is q.
  predicate CubeRootBits(p: int, k: int, q: int) {
    var x := q * M64 + k;
    x * x * x <= p * (M64 * M64 * M64) < (x + 1) * (x + 1) * (x + 1)
  }

  // k is made of the first 64 bits after the point of the square root of p, with integer part q.
  predicate SquareRootBits(p: int, k: int, q: int) {
    var x := q * M64 + k;
    x * x <= p * (M64 * M64) < (x + 1) * (x + 1)
  }

  lemma RoundConstants0(i: nat)
    requires i < 8
    ensures CubeRootBits(PrimeRow(0)[i], KRow(0)[i], Whole(PrimeRow(0)[i]))
  {
  }

  lemma RoundConstants1(i: nat)
    requires i < 8
    ensures CubeRootBits(PrimeRow(1)[i], KRow(1)[i], Whole(PrimeRow(1)[i]))
  {
  }

  lemma RoundConstants2(i: nat)
    requires i < 8
    ensures CubeRootBits(PrimeRow(2)[i], KRow(2)[i], Whole(PrimeRow(2)[i]))
  {
  }

  lemma RoundConstants3(i: nat)
    requires i < 8
    ensures CubeRootBits(PrimeRow(3)[i], KRow(3)[i], Whole(PrimeRow(3)[i]))
  {
  }

  lemma RoundConstants4(i: nat)
    requires i < 8
    ensures CubeRootBits(PrimeRow(4)[i], KRow(4)[i], Whole(PrimeRow(4)[i]))
  {
  }

  lemma RoundConstants5(i: nat)
    requires i < 8
    ensures CubeRootBits(PrimeRow(5)[i], KRow(5)[i], Whole(PrimeRow(5)[i]))
  {
  }

  lemma RoundConstants6(i: nat)
    requires i < 8
    ensures CubeRootBits(PrimeRow(6)[i], KRow(6)[i], Whole(PrimeRow(6)[i]))
  {
  }

  lemma RoundConstants7(i: nat)
    requires i < 8
    ensures CubeRootBits(PrimeRow(7)[i], KRow(7)[i], Whole(PrimeRow(7)[i]))
  {
  }

  lemma RoundConstants8(i: nat)
    requires i < 8
    ensures CubeRootBits(PrimeRow(8)[i], KRow(8)[i], Whole(PrimeRow(8)[i]))
  {
  }

  lemma RoundConstants9(i: nat)
    requires i < 8
    ensures CubeRootBits(PrimeRow(9)[i], KRow(9)[i], Whole(PrimeRow(9)[i]))
  {
  }

  // The t-th round constant is taken from the cube root of the t-th prime number.
  lemma RoundConstants(t: nat)
    requires t < 80
    ensures CubeRootBits(Prime(t), K(t), Whole(Prime(t)))
  {
    hide KRow, PrimeRow, Whole, CubeRootBits;
    var r, i := t / 8, t % 8;
    if r == 0 {
      RoundConstants0(i);
    } else if r == 1 {
      RoundConstants1(i);
    } else if r == 2 {
      RoundConstants2(i);
    } else if r == 3 {
      RoundConstants3(i);
    } else if r == 4 {
      RoundConstants4(i);
    } else if r == 5 {
      RoundConstants5(i);
    } else if r == 6 {
      RoundConstants6(i);
    } else if r == 7 {
      RoundConstants7(i);
    } else if r == 8 {
      RoundConstants8(i);
    } else {
      RoundConstants9(i);
    }
  }

  // ---- the list of prime numbers ------------------------------------------------------------------

  ghost predicate IsPrime(n: int) {
    n >= 2 && forall d :: 2 <= d < n ==> n % d != 0
  }

  // A proper divisor among the prime numbers below 21.
  predicate HasSmallFactor(n: int) {
    (n > 2 && n % 2 == 0) || (n > 3 && n % 3 == 0) || (n > 5 && n % 5 == 0) || (n > 7 && n % 7 == 0) ||
    (n > 11 && n % 11 == 0) || (n > 13 && n % 13 == 0) || (n > 17 && n % 17 == 0) || (n > 19 && n % 19 == 0)
  }

  lemma FactorOfFactor(n: int, d: int, e: int)
    requires n == d * e && 2 <= d <= 20 && e >= 2
    ensures HasSmallFactor(n)
  {
    var f := if d % 2 == 0 then 2 else if d % 3 == 0 then 3 else if d % 5 == 0 then 5 else if d % 7 == 0 then 7 else d;
    assert f == 2 || f == 3 || f == 5 || f == 7 || f == 11 || f == 13 || f == 17 || f == 19;
    assert d == f * (d / f);
    MulAssoc(f, d / f, e);
    ModUnique(n, f, d / f * e, 0);
    MulNonneg(d / f - 1, e - 1);
    assert n > f;
  }

  // Below 21^2 a number is prime when it has no such divisor.
  lemma PrimeIff(n: int)
    requires 2 <= n < 441
    ensures IsPrime(n) <==> !HasSmallFactor(n)
  {
    if !IsPrime(n) {
      var d :| 2 <= d < n && n % d == 0;
      var e := n / d;
      DivMod(n, d);
      Commute(e, d);
      BothLarge(n, d, e);
      if d <= 20 {
        FactorOfFactor(n, d, e);
      } else {
        FactorOfFactor(n, e, d);
      }
    }
  }

  lemma BothLarge(n: int, d: int, e: int)
    requires n == d * e < 441 && 2 <= d < n
    ensures e >= 2 && (d <= 20 || e <= 20)
  {
  }

  lemma PrimeRow0(n: int)
    requires 2 <= n < 23
    ensures n in PrimeRow(0) <==> !HasSmallFactor(n)
  {
  }

  lemma PrimeRowLow1(n: int)
    requires 23 <= n < 41
    ensures n in PrimeRow(1) <==> !HasSmallFactor(n)
  {
    if n % 2 != 0 && n % 3 != 0 && n % 5 != 0 {
      assert n / 30 == 0 || n / 30 == 1;
      assert n % 30 in {1, 7, 11, 13, 17, 19, 23, 29};
    }
  }

  lemma PrimeRowHigh1(n: int)
    requires 41 <= n < 59
    ensures n in PrimeRow(1) <==> !HasSmallFactor(n)
  {
    if n % 2 != 0 && n % 3 != 0 && n % 5 != 0 {
      assert n / 30 == 1;
      assert n % 30 in {1, 7, 11, 13, 17, 19, 23, 29};
    }
  }

  lemma PrimeRow1(n: int)
    requires 23 <= n < 59
    ensures n in PrimeRow(1) <==> !HasSmallFactor(n)
  {
    hide *;
    if n < 41 {
      PrimeRowLow1(n);
    } else {
      PrimeRowHigh1(n);
    }
  }

  lemma PrimeRowLow2(n: int)
    requires 59 <= n < 73
    ensures n in PrimeRow(2) <==> !HasSmallFactor(n)
  {
    if n % 2 != 0 && n % 3 != 0 && n % 5 != 0 {
      assert n / 30 == 1 || n / 30 == 2;
      assert n % 30 in {1, 7, 11, 13, 17, 19, 23, 29};
    }
  }

  lemma PrimeRowHigh2(n: int)
    requires 73 <= n < 97
    ensures n in PrimeRow(2) <==> !HasSmallFactor(n)
  {
    if n % 2 != 0 && n % 3 != 0 && n % 5 != 0 {
      assert n / 30 == 2 || n / 30 == 3;
      assert n % 30 in {1, 7, 11, 13, 17, 19, 23, 29};
    }
  }

  lemma PrimeRow2(n: int)
    requires 59 <= n < 97
    ensures n in PrimeRow(2) <==> !HasSmallFactor(n)
  {
    hide *;
    if n < 73 {
      PrimeRowLow2(n);
    } else {
      PrimeRowHigh2(n);
    }
  }

  lemma PrimeRowLow3(n: int)
    requires 97 <= n < 109
    ensures n in PrimeRow(3) <==> !HasSmallFactor(n)
  {
    if n % 2 != 0 && n % 3 != 0 && n % 5 != 0 {
      assert n / 30 == 3;
      assert n % 30 in {1, 7, 11, 13, 17, 19, 23, 29};
    }
  }

  lemma PrimeRowHigh3(n: int)
    requires 109 <= n < 137
    ensures n in PrimeRow(3) <==> !HasSmallFactor(n)
  {
    if n % 2 != 0 && n % 3 != 0 && n % 5 != 0 {
      assert n / 30 == 3 || n / 30 == 4;
      assert n % 30 in {1, 7, 11, 13, 17, 19, 23, 29};
    }
  }

  lemma PrimeRow3(n: int)
    requires 97 <= n < 137
    ensures n in PrimeRow(3) <==> !HasSmallFactor(n)
  {
    hide *;
    if n < 109 {
      PrimeRowLow3(n);
    } else {
      PrimeRowHigh3(n);
    }
  }

  lemma PrimeRowLow4(n: int)
    requires 137 <= n < 157
    ensures n in PrimeRow(4) <==> !HasSmallFactor(n)
  {
    if n % 2 != 0 && n % 3 != 0 && n % 5 != 0 {
      assert n / 30 == 4 || n / 30 == 5;
      assert n % 30 in {1, 7, 11, 13, 17, 19, 23, 29};
    }
  }

  lemma PrimeRowHigh4(n: int)
    requires 157 <= n < 179
    ensures n in PrimeRow(4) <==> !HasSmallFactor(n)
  {
    if n % 2 != 0 && n % 3 != 0 && n % 5 != 0 {
      assert n / 30 == 5;
      assert n % 30 in {1, 7, 11, 13, 17, 19, 23, 29};
    }
  }

  lemma PrimeRow4(n: int)
    requires 137 <= n < 179
    ensures n in PrimeRow(4) <==> !HasSmallFactor(n)
  {
    hide *;
    if n < 157 {
      PrimeRowLow4(n);
    } else {
      PrimeRowHigh4(n);
    }
  }

  lemma PrimeRowLow5(n: int)
    requires 179 <= n < 197
    ensures n in PrimeRow(5) <==> !HasSmallFactor(n)
  {
    if n % 2 != 0 && n % 3 != 0 && n % 5 != 0 {
      assert n / 30 == 5 || n / 30 == 6;
      assert n % 30 in {1, 7, 11, 13, 17, 19, 23, 29};
    }
  }

  lemma PrimeRowHigh5(n: int)
    requires 197 <= n < 227
    ensures n in PrimeRow(5) <==> !HasSmallFactor(n)
  {
    if n % 2 != 0 && n % 3 != 0 && n % 5 != 0 {
      assert n / 30 == 6 || n / 30 == 7;
      assert n % 30 in {1, 7, 11, 13, 17, 19, 23, 29};
    }
  }

  lemma PrimeRow5(n: int)
    requires 179 <= n < 227
    ensures n in PrimeRow(5) <==> !HasSmallFactor(n)
  {
    hide *;
    if n < 197 {
      PrimeRowLow5(n);
    } else {
      PrimeRowHigh5(n);
    }
  }

  lemma PrimeRowLow6(n: int)
    requires 227 <= n < 241
    ensures n in PrimeRow(6) <==> !HasSmallFactor(n)
  {
    if n % 2 != 0 && n % 3 != 0 && n % 5 != 0 {
      assert n / 30 == 7;
      assert n % 30 in {1, 7, 11, 13, 17, 19, 23, 29};
    }
  }

  lemma PrimeRowHigh6(n: int)
    requires 241 <= n < 269
    ensures n in PrimeRow(6) <==> !HasSmallFactor(n)
  {
    if n % 2 != 0 && n % 3 != 0 && n % 5 != 0 {
      assert n / 30 == 8;
      assert n % 30 in {1, 7, 11, 13, 17, 19, 23, 29};
    }
  }

  lemma PrimeRow6(n: int)
    requires 227 <= n < 269
    ensures n in PrimeRow(6) <==> !HasSmallFactor(n)
  {
    hide *;
    if n < 241 {
      PrimeRowLow6(n);
    } else {
      PrimeRowHigh6(n);
    }
  }

  lemma PrimeRowLow7(n: int)
    requires 269 <= n < 283
    ensures n in PrimeRow(7) <==> !HasSmallFactor(n)
  {
    if n % 2 != 0 && n % 3 != 0 && n % 5 != 0 {
      assert n / 30 == 8 || n / 30 == 9;
      assert n % 30 in {1, 7, 11, 13, 17, 19, 23, 29};
    }
  }

  lemma PrimeRowHigh7(n: int)
    requires 283 <= n < 313
    ensures n in PrimeRow(7) <==> !HasSmallFactor(n)
  {
    if n % 2 != 0 && n % 3 != 0 && n % 5 != 0 {
      assert n / 30 == 9 || n / 30 == 10;
      assert n % 30 in {1, 7, 11, 13, 17, 19, 23, 29};
    }
  }

  lemma PrimeRow7(n: int)
    requires 269 <= n < 313
    ensures n in PrimeRow(7) <==> !HasSmallFactor(n)
  {
    hide *;
    if n < 283 {
      PrimeRowLow7(n);
    } else {
      PrimeRowHigh7(n);
    }
  }

  lemma PrimeRowLow8(n: int)
    requires 313 <= n < 347
    ensures n in PrimeRow(8) <==> !HasSmallFactor(n)
  {
    if n % 2 != 0 && n % 3 != 0 && n % 5 != 0 {
      assert n / 30 == 10 || n / 30 == 11;
      assert n % 30 in {1, 7, 11, 13, 17, 19, 23, 29};
    }
  }

  lemma PrimeRowHigh8(n: int)
    requires 347 <= n < 367
    ensures n in PrimeRow(8) <==> !HasSmallFactor(n)
  {
    if n % 2 != 0 && n % 3 != 0 && n % 5 != 0 {
      assert n / 30 == 11 || n / 30 == 12;
      assert n % 30 in {1, 7, 11, 13, 17, 19, 23, 29};
    }
  }

  lemma PrimeRow8(n: int)
    requires 313 <= n < 367
    ensures n in PrimeRow(8) <==> !HasSmallFactor(n)
  {
    hide *;
    if n < 347 {
      PrimeRowLow8(n);
    } else {
      PrimeRowHigh8(n);
    }
  }

  lemma PrimeRowLow9(n: int)
    requires 367 <= n < 389
    ensures n in PrimeRow(9) <==> !HasSmallFactor(n)
  {
    if n % 2 != 0 && n % 3 != 0 && n % 5 != 0 {
      assert n / 30 == 12;
      assert n % 30 in {1, 7, 11, 13, 17, 19, 23, 29};
    }
  }

  lemma PrimeRowHigh9(n: int)
    requires 389 <= n < 410
    ensures n in PrimeRow(9) <==> !HasSmallFactor(n)
  {
    if n % 2 != 0 && n % 3 != 0 && n % 5 != 0 {
      assert n / 30 == 12 || n / 30 == 13;
      assert n % 30 in {1, 7, 11, 13, 17, 19, 23, 29};
    }
  }

  lemma PrimeRow9(n: int)
    requires 367 <= n < 410
    ensures n in PrimeRow(9) <==> !HasSmallFactor(n)
  {
    hide *;
    if n < 389 {
      PrimeRowLow9(n);
    } else {
      PrimeRowHigh9(n);
    }
  }

  lemma RowRange(r: nat, i: nat)
    requires r < 10 && i < 8
    ensures var lo, hi := [2, 23, 59, 97, 137, 179, 227, 269, 313, 367][r], [23, 59, 97, 137, 179, 227, 269, 313, 367, 410][r];
      lo <= PrimeRow(r)[i] < hi
      && (i < 7 ==> PrimeRow(r)[i] < PrimeRow(r)[i + 1])
  {
  }

  // The table holds the prime numbers up to 409 and no others, in increasing order.
  lemma PrimeIsPrime(t: nat)
    requires t < 80
    ensures IsPrime(Prime(t)) && (t > 0 ==> Prime(t - 1) < Prime(t))
  {
    hide PrimeRow, IsPrime, HasSmallFactor;
    var r, i, n := t / 8, t % 8, Prime(t);
    RowRange(r, i);
    if t > 0 {
      RowRange((t - 1) / 8, (t - 1) % 8);
    }
    PrimeIff(n);
    if r == 0 {
      PrimeRow0(n);
    } else if r == 1 {
      PrimeRow1(n);
    } else if r == 2 {
      PrimeRow2(n);
    } else if r == 3 {
      PrimeRow3(n);
    } else if r == 4 {
      PrimeRow4(n);
    } else if r == 5 {
      PrimeRow5(n);
    } else if r == 6 {
      PrimeRow6(n);
    } else if r == 7 {
      PrimeRow7(n);
    } else if r == 8 {
      PrimeRow8(n);
    } else {
      PrimeRow9(n);
    }
  }

  lemma EveryPrime(n: int)
    requires IsPrime(n) && n < 410
    ensures exists t: nat :: t < 80 && Prime(t) == n
  {
    hide PrimeRow, IsPrime, HasSmallFactor;
    AtLeastTwo(n);
    PrimeIff(n);
    if n < 23 {
      PrimeRow0(n);
      InRow(n, 0);
    } else if n < 59 {
      PrimeRow1(n);
      InRow(n, 1);
    } else if n < 97 {
      PrimeRow2(n);
      InRow(n, 2);
    } else if n < 137 {
      PrimeRow3(n);
      InRow(n, 3);
    } else if n < 179 {
      PrimeRow4(n);
      InRow(n, 4);
    } else if n < 227 {
      PrimeRow5(n);
      InRow(n, 5);
    } else if n < 269 {
      PrimeRow6(n);
      InRow(n, 6);
    } else if n < 313 {
      PrimeRow7(n);
      InRow(n, 7);
    } else if n < 367 {
      PrimeRow8(n);
      InRow(n, 8);
    } else {
      PrimeRow9(n);
      InRow(n, 9);
    }
  }

  lemma AtLeastTwo(n: int)
    requires IsPrime(n)
    ensures n >= 2
  {
  }

  lemma InRow(n: int, r: nat)
    requires r < 10 && n in PrimeRow(r)
    ensures exists t: nat :: t < 80 && Prime(t) == n
  {
    hide PrimeRow;
    var i :| 0 <= i < 8 && PrimeRow(r)[i] == n;
    assert (8 * r + i) / 8 == r && (8 * r + i) % 8 == i;
    assert Prime(8 * r + i) == n;
  }

  // ---- the initial value --------------------------------------------------------------------------

  lemma EightBytes(b: seq<int>, o: nat)
    requires o + 8 <= |b| && IsBytes(b)
    ensures BE64(b, o) ==
      256 * (256 * (256 * (256 * (256 * (256 * (256 * b[o] + b[o + 1]) + b[o + 2]) + b[o + 3]) + b[o + 4]) + b[o + 5])
             + b[o + 6]) + b[o + 7]
  {
    hide BEValue;
    assert BEValue(b, o, 0) == 0 by {
      Nothing(b, o);
    }
    Shifted(b, o, 0);
    Shifted(b, o, 1);
    Shifted(b, o, 2);
    Shifted(b, o, 3);
    Shifted(b, o, 4);
    Shifted(b, o, 5);
    Shifted(b, o, 6);
    Shifted(b, o, 7);
  }

  lemma Nothing(b: seq<int>, o: nat)
    requires o <= |b|
    ensures BEValue(b, o, 0) == 0
  {
  }

  lemma Shifted(b: seq<int>, o: nat, n: nat)
    requires o + n < |b|
    ensures BEValue(b, o, n + 1) == 256 * BEValue(b, o, n) + b[o + n]
  {
  }

  // The bytes of the initial words.
  lemma InitialBytes(i: nat)
    requires i < 8
    ensures IVBytes()[8 * i..8 * i + 8] == IVRow(i)
  {
    hide IVRow;
  }

  lemma InitialWord(i: nat)
    requires i < 8
    ensures BE64(IVBytes(), 8 * i) == BE64(IVRow(i), 0)
  {
    hide BEValue, IVRow, IVBytes;
    InitialBytes(i);
    assert IVRow(i)[0..8] == IVRow(i);
    BEValueAgree(IVBytes(), 8 * i, IVRow(i), 0, 8);
  }

  lemma Initial0()
    ensures SquareRootBits(2, BE64(IVRow(0), 0), 1)
  {
    hide BE64;
    EightBytes(IVRow(0), 0);
  }

  lemma Initial1()
    ensures SquareRootBits(3, BE64(IVRow(1), 0), 1)
  {
    hide BE64;
    EightBytes(IVRow(1), 0);
  }

  lemma Initial2()
    ensures SquareRootBits(5, BE64(IVRow(2), 0), 2)
  {
    hide BE64;
    EightBytes(IVRow(2), 0);
  }

  lemma Initial3()
    ensures SquareRootBits(7, BE64(IVRow(3), 0), 2)
  {
    hide BE64;
    EightBytes(IVRow(3), 0);
  }

  lemma Initial4()
    ensures SquareRootBits(11, BE64(IVRow(4), 0), 3)
  {
    hide BE64;
    EightBytes(IVRow(4), 0);
  }

  lemma Initial5()
    ensures SquareRootBits(13, BE64(IVRow(5), 0), 3)
  {
    hide BE64;
    EightBytes(IVRow(5), 0);
  }

  lemma Initial6()
    ensures SquareRootBits(17, BE64(IVRow(6), 0), 4)
  {
    hide BE64;
    EightBytes(IVRow(6), 0);
  }

  lemma Initial7()
    ensures SquareRootBits(19, BE64(IVRow(7), 0), 4)
  {
    hide BE64;
    EightBytes(IVRow(7), 0);
  }

  // The i-th initial word is taken from the square root of the i-th prime number.
  lemma InitialValue(i: nat)
    requires i < 8
    ensures SquareRootBits(Prime(i), BE64(IVBytes(), 8 * i), [1, 1, 2, 2, 3, 3, 4, 4][i])
  {
    hide BE64, IVBytes, IVRow, SquareRootBits;
    InitialWord(i);
    Initial0();
    Initial1();
    Initial2();
    Initial3();
    Initial4();
    Initial5();
    Initial6();
    Initial7();
  }
}
