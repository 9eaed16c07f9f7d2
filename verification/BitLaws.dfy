// The bits of a number, and what the word operators do to them one by one.
module BitLaws {
  import opened Bits
  import opened Bytes
  import opened Limbs

  // ---- bits ------------------------------------------------------------------------------------

  lemma BitRange(x: int, i: nat)
    ensures Bit(x, i) == 0 || Bit(x, i) == 1
  {
  }

  lemma LowestBit(x: int)
    ensures Bit(x, 0) == x % 2
  {
  }

  lemma HigherBit(x: int, i: nat)
    ensures Bit(x, i + 1) == Bit(x / 2, i)
  {
    DivDiv(x, 2, Pow2(i));
  }

  lemma SmallPowers(i: nat)
    requires i < 8
    ensures Pow2(i) == [1, 2, 4, 8, 16, 32, 64, 128][i]
  {
  }

  // A number below 2^n is determined by its bits.
  lemma {:induction false} SameBits(x: nat, y: nat, n: nat)
    requires x < Pow2(n) && y < Pow2(n) && forall i :: 0 <= i < n ==> Bit(x, i) == Bit(y, i)
    ensures x == y
  {
    if n > 0 {
      forall i | 0 <= i < n - 1
        ensures Bit(x / 2, i) == Bit(y / 2, i)
      {
        HigherBit(x, i);
        HigherBit(y, i);
        assert Bit(x, i + 1) == Bit(y, i + 1);
      }
      SameBits(x / 2, y / 2, n - 1);
      LowestBit(x);
      LowestBit(y);
      assert Bit(x, 0) == Bit(y, 0);
    }
  }

  // ---- the operators, bit by bit ------------------------------------------------------------------

  lemma {:induction false} XorBit(x: int, y: int, i: nat)
    ensures Bit(Xor(x, y), i) == (Bit(x, i) + Bit(y, i)) % 2
    decreases i
  {
    hide Xor, Bit, Pow2;
    XorHalf(x, y);
    if i == 0 {
      LowestBit(x);
      LowestBit(y);
      LowestBit(Xor(x, y));
    } else {
      HigherBit(x, i - 1);
      HigherBit(y, i - 1);
      HigherBit(Xor(x, y), i - 1);
      XorBit(x / 2, y / 2, i - 1);
    }
  }

  lemma {:induction false} AndBit(x: int, y: int, i: nat)
    ensures Bit(And(x, y), i) == if Bit(x, i) == 1 then Bit(y, i) else 0
    decreases i
  {
    hide And, Bit, Pow2;
    AndHalf(x, y);
    BitRange(x, i);
    BitRange(y, i);
    if i == 0 {
      LowestBit(x);
      LowestBit(y);
      LowestBit(And(x, y));
    } else {
      HigherBit(x, i - 1);
      HigherBit(y, i - 1);
      HigherBit(And(x, y), i - 1);
      AndBit(x / 2, y / 2, i - 1);
    }
  }

  lemma OrHalf(x: int, y: int)
    ensures Or(x, y) / 2 == Or(x / 2, y / 2) && Or(x, y) % 2 == if x % 2 == 0 then y % 2 else 1
  {
  }

  lemma {:induction false} OrBit(x: int, y: int, i: nat)
    ensures Bit(Or(x, y), i) == if Bit(x, i) == 1 then 1 else Bit(y, i)
    decreases i
  {
    hide Or, Bit, Pow2;
    OrHalf(x, y);
    BitRange(x, i);
    BitRange(y, i);
    if i == 0 {
      LowestBit(x);
      LowestBit(y);
      LowestBit(Or(x, y));
    } else {
      HigherBit(x, i - 1);
      HigherBit(y, i - 1);
      HigherBit(Or(x, y), i - 1);
      OrBit(x / 2, y / 2, i - 1);
    }
  }

  // ---- shifts ---------------------------------------------------------------------------------------

  lemma ShiftedRight(x: int, c: nat, i: nat)
    ensures Bit(x / Pow2(c), i) == Bit(x, i + c)
  {
    DivDiv(x, Pow2(c), Pow2(i));
    Pow2Add(c, i);
  }

  lemma {:induction false} HighBits(x: nat, n: nat, i: nat)
    requires x < Pow2(n) && i >= n
    ensures Bit(x, i) == 0
  {
    Pow2Add(n, i - n);
    MulAtLeast(Pow2(n), Pow2(i - n));
    ModUnique(x, Pow2(i), 0, x);
  }

  lemma MulAtLeast(p: int, q: int)
    requires p > 0 && q > 0
    ensures p * q >= p
  {
    MulNonneg(p, q - 1);
    MulDistributes(q, 1, p);
    Commute(p, q);
    Commute(p, q - 1);
  }

  // The bits of x 2^c, cut off to n bits.
  lemma ShiftedLeft(x: nat, c: nat, n: nat, i: nat)
    requires i < n && c <= n
    ensures Bit(x * Pow2(c) % Pow2(n), i) == if i < c then 0 else Bit(x, i - c)
  {
    hide Pow2;
    LowBits(x * Pow2(c), n, i);
    if i < c {
      Pow2Add(i, c - i);
      Pow2Add(1, c - i - 1);
      ZeroBit(x, Pow2(i), Pow2(c - i - 1));
      OneIsPow2();
    } else {
      Pow2Add(c, i - c);
      DivDiv(x * Pow2(c), Pow2(c), Pow2(i - c));
      ModUnique(x * Pow2(c), Pow2(c), x, 0);
    }
  }

  lemma OneIsPow2()
    ensures Pow2(1) == 2 && Pow2(0) == 1
  {
  }

  lemma ZeroBit(x: int, p: int, q: int)
    requires p > 0
    ensures (x * (p * (2 * q))) / p % 2 == 0
  {
    MulAssoc(x * q, 2, p);
    assert x * (p * (2 * q)) == (2 * (x * q)) * p;
    ModUnique(x * (p * (2 * q)), p, 2 * (x * q), 0);
  }

  lemma LowBits(y: int, n: nat, i: nat)
    requires i < n
    ensures Bit(y % Pow2(n), i) == Bit(y, i)
  {
    hide Pow2;
    var p, q, k := Pow2(i), Pow2(n - i - 1), y / Pow2(n);
    Pow2Add(i, n - i);
    Pow2Add(1, n - i - 1);
    OneIsPow2();
    DivMod(y, Pow2(n));
    EvenMultiple(y, y % Pow2(n), k, p, q);
  }

  lemma EvenMultiple(y: int, r: int, k: int, p: int, q: int)
    requires p > 0 && y == k * (p * (2 * q)) + r
    ensures r / p % 2 == y / p % 2
  {
    DivMod(r, p);
    assert k * (p * (2 * q)) == (2 * (k * q)) * p;
    MulDistributes(2 * (k * q), -(r / p), p);
    NegMul(r / p, p);
    ModUnique(y, p, 2 * (k * q) + r / p, r % p);
    EvenShift(r / p, k * q);
  }

  // Bit i of a little-endian number is bit i mod 8 of byte i div 8.
  lemma BitInByte(z: seq<int>, i: nat)
    requires IsBytes(z) && i < 8 * |z|
    ensures Bit(LEValue(z), i) == Bit(z[i / 8], i % 8)
  {
    hide LEValue, Pow2;
    BitOfByte(z, i);
    AndMask(z[i / 8] / Pow2(i % 8), 1);
    OneIsPow2();
  }

  // ---- rotation -------------------------------------------------------------------------------------

  // Bit (i + c) mod n of the rotation of x to the left by c is bit i of x.
  lemma Rotation(x: nat, c: nat, n: nat, y: int, i: nat)
    requires 0 < c < n && x < Pow2(n) && i < n
    requires y == Or(x * Pow2(c) % Pow2(n), x / Pow2(n - c)) || y == Or(x / Pow2(n - c), x * Pow2(c) % Pow2(n))
    ensures Bit(y, (i + c) % n) == Bit(x, i)
  {
    hide Or, Pow2, Bit;
    var j := if i + c < n then i + c else i + c - n;
    ModUnique(i + c, n, if i + c < n then 0 else 1, j);
    var hi, lo := x * Pow2(c) % Pow2(n), x / Pow2(n - c);
    OrBit(hi, lo, j);
    OrBit(lo, hi, j);
    ShiftedLeft(x, c, n, j);
    ShiftedRight(x, n - c, j);
    BitRange(x, i);
    if j >= c {
      HighBits(x, n, j + (n - c));
    }
  }
}
