// Machine integers and the bitwise operators of C.
//
// Words are subset types of int: assigning to a variable or an array element of one of these
// types obliges the verifier to show that the value is in range, so a method that verifies
// has no silent wrap-around.  Where the source relies on wrap-around the model says so with %.
//
// Bitwise operators act on the two's complement expansion of an unbounded integer, which agrees
// with C on every width.  Shifts are written as multiplication and (floor) division.
module Bits {
  type u8 = x: int | 0 <= x < 0x100
  type u32 = x: int | 0 <= x < 0x1_0000_0000
  type u64 = x: int | 0 <= x < 0x1_0000_0000_0000_0000
  type i64 = x: int | -0x8000_0000_0000_0000 <= x < 0x8000_0000_0000_0000

  function Size(x: int): nat {
    if x < 0 then -x else x
  }

  // x & y
  function And(x: int, y: int): int
    decreases Size(x)
  {
    if x == 0 then 0
    else if x == -1 then y
    else 2 * And(x / 2, y / 2) + (x % 2) * (y % 2)
  }

  // x ^ y
  function Xor(x: int, y: int): int
    decreases Size(x)
  {
    if x == 0 then y
    else if x == -1 then -1 - y
    else 2 * Xor(x / 2, y / 2) + (x % 2 + y % 2) % 2
  }

  // x | y
  function Or(x: int, y: int): int
    decreases Size(x)
  {
    if x == 0 then y
    else if x == -1 then -1
    else 2 * Or(x / 2, y / 2) + (if x % 2 == 0 then y % 2 else 1)
  }

  // ~x
  function Not(x: int): int {
    -1 - x
  }

  function Pow2(k: nat): (r: nat)
    ensures r > 0
  {
    if k == 0 then 1 else 2 * Pow2(k - 1)
  }

  lemma {:induction false} Pow2Add(i: nat, j: nat)
    ensures Pow2(i + j) == Pow2(i) * Pow2(j)
    decreases j
  {
    if j > 0 {
      Pow2Add(i, j - 1);
    }
  }

  lemma Pow2Values()
    ensures Pow2(8) == 0x100 && Pow2(16) == 0x10000
    ensures Pow2(32) == 0x1_0000_0000 && Pow2(63) == 0x8000_0000_0000_0000 && Pow2(64) == 0x1_0000_0000_0000_0000
  {
    assert Pow2(8) == 0x100 && Pow2(15) == 0x8000;
    Pow2Add(8, 8);
    Pow2Add(16, 16);
    Pow2Add(16, 15);
    Pow2Add(32, 31);
    Pow2Add(32, 32);
  }

  lemma {:induction false} XorCommutes(x: int, y: int)
    ensures Xor(x, y) == Xor(y, x)
    decreases Size(x) + Size(y)
  {
    if x == 0 {
      XorZero(y);
    } else if x == -1 {
      XorOnes(y);
    } else if y == 0 {
      XorZero(x);
    } else if y == -1 {
      XorOnes(x);
    } else {
      XorCommutes(x / 2, y / 2);
    }
  }

  lemma {:induction false} XorZero(x: int)
    ensures Xor(x, 0) == x
    decreases Size(x)
  {
    if x != 0 && x != -1 {
      XorZero(x / 2);
    }
  }

  lemma {:induction false} XorOnes(x: int)
    ensures Xor(x, -1) == -1 - x
    decreases Size(x)
  {
    if x != 0 && x != -1 {
      XorOnes(x / 2);
    }
  }

  lemma {:induction false} XorHalf(x: int, y: int)
    ensures Xor(x, y) / 2 == Xor(x / 2, y / 2) && Xor(x, y) % 2 == (x % 2 + y % 2) % 2
  {
  }

  // Exclusive-or with the same word twice changes nothing.
  lemma {:induction false} XorCancels(x: int, y: int)
    ensures Xor(x, Xor(x, y)) == y
    decreases Size(x)
  {
    if x != 0 && x != -1 {
      XorCancels(x / 2, y / 2);
      XorHalf(x, y);
    }
  }

  lemma {:induction false} XorCancelsRight(x: int, y: int)
    ensures Xor(Xor(y, x), x) == y
  {
    XorCancels(x, y);
    XorCommutes(y, x);
    XorCommutes(x, Xor(y, x));
  }

  lemma {:induction false} XorZeroIff(x: int, y: int)
    ensures Xor(x, y) == 0 <==> x == y
  {
    XorCancels(x, y);
    XorZero(x);
    if x == y {
      XorSelf(x);
    }
  }

  lemma {:induction false} XorSelf(x: int)
    ensures Xor(x, x) == 0
    decreases Size(x)
  {
    if x != 0 && x != -1 {
      XorSelf(x / 2);
    }
  }

  lemma {:induction false} XorSignedBound(x: int, y: int, k: nat)
    requires -1 * Pow2(k) <= x < Pow2(k) && -1 * Pow2(k) <= y < Pow2(k)
    ensures -1 * Pow2(k) <= Xor(x, y) < Pow2(k)
    decreases k
  {
    if k > 0 {
      XorSignedBound(x / 2, y / 2, k - 1);
    }
  }

  lemma {:induction false} AndBound(x: int, y: int, k: nat)
    requires 0 <= x < Pow2(k)
    ensures 0 <= And(x, y) < Pow2(k)
    decreases k
  {
    if k > 0 {
      AndBound(x / 2, y / 2, k - 1);
    }
  }

  lemma {:induction false} XorBound(x: int, y: int, k: nat)
    requires 0 <= x < Pow2(k) && 0 <= y < Pow2(k)
    ensures 0 <= Xor(x, y) < Pow2(k)
    decreases k
  {
    if k > 0 {
      XorBound(x / 2, y / 2, k - 1);
    }
  }

  lemma {:induction false} OrBound(x: int, y: int, k: nat)
    requires 0 <= x < Pow2(k) && 0 <= y < Pow2(k)
    ensures 0 <= Or(x, y) < Pow2(k)
    decreases k
  {
    if k > 0 {
      OrBound(x / 2, y / 2, k - 1);
    }
  }

  lemma {:induction false} OrZeroIff(x: int, y: int)
    requires 0 <= x && 0 <= y
    ensures 0 <= Or(x, y)
    ensures Or(x, y) == 0 <==> x == 0 && y == 0
    decreases x
  {
    if x != 0 {
      OrZeroIff(x / 2, y / 2);
    }
  }

  // Masking with k ones is reduction modulo 2^k, also for a negative word.
  lemma {:induction false} AndMask(x: int, k: nat)
    ensures And(x, Pow2(k) - 1) == x % Pow2(k)
    decreases k
  {
    if k == 0 {
      AndZero(x);
    } else if x == -1 {
      MinusOneMod(Pow2(k));
    } else {
      AndMask(x / 2, k - 1);
      AndHalf(x, Pow2(k) - 1);
      HalfMod(x, Pow2(k - 1));
    }
  }

  lemma {:induction false} AndOnes(x: int)
    ensures And(x, -1) == x
    decreases Size(x)
  {
    if x != 0 && x != -1 {
      AndOnes(x / 2);
    }
  }

  lemma {:induction false} AndCommutes(x: int, y: int)
    ensures And(x, y) == And(y, x)
    decreases Size(x) + Size(y)
  {
    if x == 0 {
      AndZero(y);
    } else if x == -1 {
      AndOnes(y);
    } else if y == 0 {
      AndZero(x);
    } else if y == -1 {
      AndOnes(x);
    } else {
      AndCommutes(x / 2, y / 2);
    }
  }

  lemma {:induction false} AndZero(x: int)
    ensures And(x, 0) == 0
    decreases Size(x)
  {
    if x != 0 && x != -1 {
      AndZero(x / 2);
    }
  }

  // Bit fields that do not overlap: (x << k) | y is a sum.
  lemma {:induction false} OrDisjoint(x: nat, y: nat, k: nat)
    requires y < Pow2(k)
    ensures Or(x * Pow2(k), y) == x * Pow2(k) + y
    decreases k
  {
    if k == 0 {
      OrWithZero(x);
    } else {
      var m := Pow2(k - 1);
      assert x * Pow2(k) == 2 * (x * m);
      OrDisjoint(x, y / 2, k - 1);
    }
  }

  lemma {:induction false} OrWithZero(x: nat)
    ensures Or(x, 0) == x
  {
    if x != 0 {
      OrWithZero(x / 2);
    }
  }

  // The bitwise and of two-digit numbers is taken digit by digit.
  lemma {:induction false} AndDigits(x: nat, y: nat, hx: nat, hy: nat, k: nat)
    requires x < Pow2(k) && y < Pow2(k)
    ensures And(x + hx * Pow2(k), y + hy * Pow2(k)) == And(x, y) + And(hx, hy) * Pow2(k)
    decreases k
  {
    if k > 0 {
      AndDigits(x / 2, y / 2, hx, hy, k - 1);
      HalfDigits(x, hx, Pow2(k - 1));
      HalfDigits(y, hy, Pow2(k - 1));
      HalfDigits(And(x, y), And(hx, hy), Pow2(k - 1));
      AndHalf(x, y);
      AndHalf(x + hx * Pow2(k), y + hy * Pow2(k));
    }
  }

  lemma {:induction false} AndHalf(x: int, y: int)
    ensures And(x, y) / 2 == And(x / 2, y / 2) && And(x, y) % 2 == (x % 2) * (y % 2)
  {
  }

  lemma HalfDigits(x: int, h: int, m: int)
    ensures (x + h * (2 * m)) / 2 == x / 2 + h * m
    ensures (x + h * (2 * m)) % 2 == x % 2
  {
    assert h * (2 * m) == 2 * (h * m);
  }

  // ---- quotient and remainder -------------------------------------------------------------

  lemma DivMod(x: int, d: int)
    requires d > 0
    ensures x == (x / d) * d + x % d && 0 <= x % d < d
  {
  }

  lemma ModUnique(x: int, d: int, q: int, r: int)
    requires d > 0 && 0 <= r < d && x == q * d + r
    ensures x / d == q && x % d == r
  {
    DivMod(x, d);
    var e := x / d - q;
    assert e * d == (x / d) * d - q * d;
  }

  lemma MinusOneMod(m: int)
    requires m > 0
    ensures -1 % m == m - 1
  {
    ModUnique(-1, m, -1, m - 1);
  }

  lemma HalfMod(x: int, m: int)
    requires m > 0
    ensures x % (2 * m) == 2 * (x / 2 % m) + x % 2
  {
    DivMod(x / 2, m);
    var q := x / 2 / m;
    assert q * (2 * m) == 2 * (q * m);
    ModUnique(x, 2 * m, q, 2 * (x / 2 % m) + x % 2);
  }
}
