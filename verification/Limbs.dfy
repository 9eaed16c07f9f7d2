// Numbers stored as little-endian sequences of limbs, and congruence arithmetic.
//
// Two conventions hold in all files.  Where a recursive function is applied to a fixed number, as in
// Pow(256, 31), the number is a parameter with `requires n == 31`: a numeral would be unfolded to the
// end.  And a definition that few proofs have to look into is stated of every n that equals the
// number meant, as in `forall n :: n == k ==> ...` below: proofs then see it only where they mention
// that n.
module Limbs {
  import opened Bits

  function Pow(b: int, e: nat): int {
    if e == 0 then 1 else Pow(b, e - 1) * b
  }

  // The value of the first n limbs of s in radix b.  Limbs may be negative or exceed the radix.
  function Val(b: int, s: seq<int>, n: nat): int
    requires n <= |s|
  {
    if n == 0 then 0 else Val(b, s, n - 1) + s[n - 1] * Pow(b, n - 1)
  }

  // x is the number in the limbs s.
  ghost predicate StandsFor(b: int, s: seq<int>, x: int) {
    forall n: nat :: n == |s| ==> Val(b, s, n) == x
  }

  // The number in the limbs s, for long constants whose value only few proofs need.
  ghost function NumberOf(b: int, s: seq<int>): (x: int)
    ensures StandsFor(b, s, x)
  {
    assert StandsFor(b, s, Val(b, s, |s|));
    var x :| StandsFor(b, s, x);
    x
  }

  // ---- powers -----------------------------------------------------------------------------

  lemma {:induction false} PowAdd(b: int, i: nat, j: nat)
    ensures Pow(b, i + j) == Pow(b, i) * Pow(b, j)
    decreases j
  {
    if j > 0 {
      PowAdd(b, i, j - 1);
      MulAssoc(Pow(b, i), Pow(b, j - 1), b);
    }
  }

  lemma {:induction false} PowPositive(b: int, i: nat)
    requires b > 0
    ensures Pow(b, i) > 0
  {
    if i > 0 {
      PowPositive(b, i - 1);
      MulPositive(Pow(b, i - 1), b);
    }
  }

  lemma {:induction false} PowOfPow(b: int, i: nat, j: nat)
    ensures i * j >= 0 && Pow(Pow(b, i), j) == Pow(b, i * j)
    decreases j
  {
    if j > 0 {
      PowOfPow(b, i, j - 1);
      PowAdd(b, i * (j - 1), i);
    }
  }

  lemma {:induction false} PowOfProduct(a: int, b: int, e: nat)
    ensures Pow(a * b, e) == Pow(a, e) * Pow(b, e)
  {
    if e > 0 {
      PowOfProduct(a, b, e - 1);
      Shuffle(Pow(a, e - 1), Pow(b, e - 1), a, b);
    }
  }

  // ---- values -----------------------------------------------------------------------------

  // Only the limbs that are read matter.
  lemma {:induction false} ValAgree(b: int, s: seq<int>, t: seq<int>, n: nat)
    requires n <= |s| && n <= |t|
    requires forall k :: 0 <= k < n ==> s[k] == t[k]
    ensures Val(b, s, n) == Val(b, t, n)
  {
    if n > 0 {
      ValAgree(b, s, t, n - 1);
    }
  }

  // Zero limbs at the top do not count.
  lemma {:induction false} ValOfPrefix(b: int, s: seq<int>, m: nat, n: nat)
    requires m <= n <= |s| && forall k :: m <= k < n ==> s[k] == 0
    ensures Val(b, s, n) == Val(b, s, m)
  {
    if m < n {
      ValOfPrefix(b, s, m, n - 1);
    }
  }

  lemma ValOfNone(b: int, s: seq<int>)
    ensures Val(b, s, 0) == 0
  {
  }

  // One term of a schoolbook row.
  lemma RowTerm(b: int, s: seq<int>, x: int, i: nat, j: nat)
    requires j < |s|
    ensures (x * Pow(b, i)) * Val(b, s, j + 1) == (x * Pow(b, i)) * Val(b, s, j) + (x * s[j]) * Pow(b, i + j)
  {
    var p := x * Pow(b, i);
    PowAdd(b, i, j);
    Shuffle(x, Pow(b, i), s[j], Pow(b, j));
    MulAdd(p, Val(b, s, j), 1, s[j] * Pow(b, j));
  }

  // Adding d to limb i adds d * b^i to the value.
  lemma {:induction false} ValAddAt(b: int, s: seq<int>, i: nat, d: int, n: nat)
    requires i < n <= |s|
    ensures Val(b, s[i := s[i] + d], n) == Val(b, s, n) + d * Pow(b, i)
  {
    if n == i + 1 {
      ValAgree(b, s, s[i := s[i] + d], i);
      MulDistributes(s[i], -d, Pow(b, i));
      NegMul(d, Pow(b, i));
    } else {
      ValAddAt(b, s, i, d, n - 1);
    }
  }

  // Cutting a number into a low and a high part.
  lemma {:induction false} ValSplit(b: int, s: seq<int>, m: nat, n: nat)
    requires m + n <= |s|
    ensures Val(b, s, m + n) == Val(b, s, m) + Pow(b, m) * Val(b, s[m..], n)
    decreases n
  {
    if n > 0 {
      ValSplit(b, s, m, n - 1);
      PowAdd(b, m, n - 1);
      ScaleTerm(Pow(b, m), Val(b, s[m..], n - 1), s[m + n - 1], Pow(b, n - 1));
    }
  }

  // A linear combination of limb vectors has the linear combination of the values.
  lemma {:induction false} ValLinear(b: int, s: seq<int>, t: seq<int>, c: int, u: seq<int>, n: nat)
    requires n <= |s| && n <= |t| && n <= |u|
    requires forall k :: 0 <= k < n ==> u[k] == s[k] + c * t[k]
    ensures Val(b, u, n) == Val(b, s, n) + c * Val(b, t, n)
  {
    if n > 0 {
      ValLinear(b, s, t, c, u, n - 1);
      MulAdd(c, Val(b, t, n - 1), t[n - 1], Pow(b, n - 1));
      MulDistributes(s[n - 1], -(c * t[n - 1]), Pow(b, n - 1));
      NegMul(c * t[n - 1], Pow(b, n - 1));
    }
  }

  lemma {:induction false} ValBound(b: int, s: seq<int>, n: nat)
    requires b > 0 && n <= |s| && forall k :: 0 <= k < n ==> 0 <= s[k] < b
    ensures 0 <= Val(b, s, n) < Pow(b, n)
  {
    if n > 0 {
      ValBound(b, s, n - 1);
      PowPositive(b, n - 1);
      MulBetween(s[n - 1], b, Pow(b, n - 1));
    }
  }

  // Digits are unique.
  lemma {:induction false} ValUnique(b: int, s: seq<int>, t: seq<int>, n: nat)
    requires b > 0 && n <= |s| && n <= |t|
    requires forall k :: 0 <= k < n ==> 0 <= s[k] < b && 0 <= t[k] < b
    requires Val(b, s, n) == Val(b, t, n)
    ensures forall k :: 0 <= k < n ==> s[k] == t[k]
  {
    if n > 0 {
      ValBound(b, s, n - 1);
      ValBound(b, t, n - 1);
      ModUnique(Val(b, s, n), Pow(b, n - 1), s[n - 1], Val(b, s, n - 1));
      ModUnique(Val(b, t, n), Pow(b, n - 1), t[n - 1], Val(b, t, n - 1));
      ValUnique(b, s, t, n - 1);
    }
  }

  // ---- congruences ------------------------------------------------------------------------

  // Adding a multiple of the modulus changes nothing.
  lemma ModShift(x: int, k: int, m: int)
    requires m > 0
    ensures (x + k * m) % m == x % m
  {
    DivMod(x, m);
    MulDistributes(x / m, -k, m);
    NegMul(k, m);
    ModUnique(x + k * m, m, x / m + k, x % m);
  }

  lemma ModAdd(x: int, y: int, m: int)
    requires m > 0
    ensures (x + y) % m == (x % m + y % m) % m
  {
    DivMod(x, m);
    DivMod(y, m);
    MulDistributes(x / m, -(y / m), m);
    NegMul(y / m, m);
    ModShift(x % m + y % m, x / m + y / m, m);
  }

  lemma ModSub(x: int, y: int, m: int)
    requires m > 0
    ensures (x - y) % m == (x % m - y % m) % m
  {
    DivMod(x, m);
    DivMod(y, m);
    MulDistributes(x / m, y / m, m);
    ModShift(x % m - y % m, x / m - y / m, m);
  }

  lemma ModMulLeft(x: int, y: int, m: int)
    requires m > 0
    ensures (x % m * y) % m == (x * y) % m
  {
    DivMod(x, m);
    MulSplit(x, x / m, x % m, m, y);
    ModShift(x % m * y, x / m * y, m);
  }

  lemma MulSplit(x: int, q: int, r: int, m: int, y: int)
    requires x == q * m + r
    ensures x * y == r * y + (q * y) * m
  {
    MulDistributes(q * m, -r, y);
    NegMul(r, y);
    MulAssoc(q, m, y);
    MulAssoc(q, y, m);
    Commute(m, y);
  }

  lemma ModMul(x: int, y: int, m: int)
    requires m > 0
    ensures (x * y) % m == ((x % m) * (y % m)) % m
  {
    ModMulLeft(x, y, m);
    var r := x % m;
    ModMulLeft(y, r, m);
    Commute(y % m, r);
    Commute(y, r);
  }

  // ---- products of variables --------------------------------------------------------------

  lemma MulAssoc(x: int, y: int, z: int)
    ensures (x * y) * z == x * (y * z)
  {
  }

  lemma MulDistributes(x: int, y: int, z: int)
    ensures (x - y) * z == x * z - y * z
  {
  }

  lemma MulAdd(c: int, v: int, x: int, p: int)
    ensures c * (v + x * p) == c * v + (c * x) * p
  {
  }

  lemma ScaleTerm(c: int, v: int, x: int, p: int)
    ensures c * (v + x * p) == c * v + x * (c * p)
  {
  }

  lemma Commute(x: int, y: int)
    ensures x * y == y * x
  {
  }

  lemma NegMul(x: int, y: int)
    ensures -x * y == -(x * y)
  {
  }

  lemma TwiceProduct(x: int, y: int)
    ensures x * (2 * y) == 2 * (x * y) && (x * 2) * y == 2 * (x * y)
  {
  }

  lemma ProductBound(x: int, y: int, a: int, b: int)
    requires 0 <= x <= a && 0 <= y <= b
    ensures 0 <= x * y <= a * b
  {
    MulNonneg(x, y);
    MulNonneg(a - x, y);
    MulDistributes(a, x, y);
    MulNonneg(a, b - y);
    MulDistributes(b, y, a);
    Commute(a, b);
    Commute(y, a);
    Commute(b - y, a);
  }

  lemma NegSquare(x: int)
    ensures (-x) * (-x) == x * x
  {
  }

  lemma Shuffle(x: int, y: int, z: int, w: int)
    ensures (x * y) * (z * w) == (x * z) * (y * w)
  {
  }

  lemma MulPositive(x: int, y: int)
    requires x > 0 && y > 0
    ensures x * y > 0
  {
  }

  lemma MulNonneg(x: int, y: int)
    requires x >= 0 && y >= 0
    ensures x * y >= 0
  {
  }

  lemma MulBetween(x: int, b: int, p: int)
    requires 0 <= x < b && p > 0
    ensures 0 <= x * p && x * p + p <= p * b
  {
    MulNonneg(x, p);
    MulNonneg(b - x - 1, p);
    MulDistributes(b, x + 1, p);
    MulDistributes(x, -1, p);
  }
}
