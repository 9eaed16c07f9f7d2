// Little-endian byte strings and comparison in the style of crypto_verify
// (src/tweetnacl/tweetnacl.c, lines 81 to 89).
module Bytes {
  import opened Bits
  import opened Limbs

  ghost predicate IsBytes(s: seq<int>) {
    forall k :: 0 <= k < |s| ==> 0 <= s[k] < 256
  }

  function Zeros(n: nat): (s: seq<int>)
    ensures |s| == n && forall i :: 0 <= i < n ==> s[i] == 0
  {
    seq(n, _ => 0)
  }

  // The number written in little-endian bytes.
  function LEValue(s: seq<int>): int {
    Val(256, s, |s|)
  }

  // The n low bytes of x, least significant first.
  function LEBytes(x: int, n: nat): (s: seq<int>)
    ensures |s| == n && IsBytes(s)
  {
    if n == 0 then [] else LEBytes(x, n - 1) + [x / Pow256(n - 1) % 256]
  }

  function Pow256(n: nat): (p: int)
    ensures p > 0
  {
    PowPositive(256, n);
    Pow(256, n)
  }

  lemma {:induction false} LEValueOfBytes(x: int, n: nat)
    ensures LEValue(LEBytes(x, n)) == x % Pow256(n)
  {
    if n > 0 {
      LEValueOfBytes(x, n - 1);
      var s, t := LEBytes(x, n), LEBytes(x, n - 1);
      ValAgree(256, s, t, n - 1);
      DigitSplit(x, Pow256(n - 1));
    }
  }

  lemma DigitSplit(x: int, p: int)
    requires p > 0
    ensures x % (p * 256) == x % p + (x / p % 256) * p
  {
    DivMod(x, p);
    DivMod(x / p, 256);
    var q, d := x / p / 256, x / p % 256;
    MulBetween(d, 256, p);
    ModUnique(x, p * 256, q, x % p + d * p);
  }

  lemma FirstBytes(s: seq<int>, n: nat)
    requires IsBytes(s) && n <= |s|
    ensures IsBytes(s[..n])
  {
  }

  lemma LastBytes(s: seq<int>, n: nat)
    requires IsBytes(s) && n <= |s|
    ensures IsBytes(s[n..])
  {
  }

  lemma JoinedBytes(s: seq<int>, t: seq<int>)
    requires IsBytes(s) && IsBytes(t)
    ensures IsBytes(s + t)
  {
  }

  // A byte string is determined by its length and its number.
  lemma BytesOfLEValue(s: seq<int>, x: int)
    requires IsBytes(s) && LEValue(s) == x % Pow256(|s|)
    ensures s == LEBytes(x, |s|)
  {
    LEValueOfBytes(x, |s|);
    ValUnique(256, s, LEBytes(x, |s|), |s|);
  }

  lemma LEValueBound(s: seq<int>)
    requires IsBytes(s)
    ensures 0 <= LEValue(s) < Pow256(|s|)
  {
    ValBound(256, s, |s|);
  }

  // Zero bytes on top do not count.
  lemma PaddedValue(s: seq<int>, c: seq<int>)
    requires |s| <= |c| && forall i :: 0 <= i < |c| ==> c[i] == if i < |s| then s[i] else 0
    ensures LEValue(c) == LEValue(s)
  {
    ValOfPrefix(256, c, |s|, |c|);
    ValAgree(256, c, s, |s|);
  }

  lemma PowOf31(n: nat)
    requires n == 31
    ensures Pow(256, n) == 0x100000000000000000000000000000000000000000000000000000000000000
    ensures Pow(256, n + 1) == 0x1_0000_0000_0000_0000_0000_0000_0000_0000_0000_0000_0000_0000_0000_0000_0000_0000
  {
    assert Pow(256, 3) == 0x1000000 && Pow(256, 4) == 0x1_0000_0000;
    PowAdd(256, 4, 3);
    PowAdd(256, 4, 4);
    PowAdd(256, 8, 8);
    PowAdd(256, 16, 8);
    PowAdd(256, 24, n - 24);
  }

  // ---- comparison -------------------------------------------------------------------------

  // vn: 0 when the first n bytes agree and -1 otherwise.
  method VN(x: array<u8>, xo: nat, y: array<u8>, yo: nat, n: nat) returns (r: int)
    requires xo + n <= x.Length && yo + n <= y.Length
    ensures r == 0 || r == -1
    ensures r == 0 <==> x[xo..xo + n] == y[yo..yo + n]
  {
    var d: u32 := 0;
    for i := 0 to n
      invariant d < 256
      invariant d == 0 <==> x[xo..xo + i] == y[yo..yo + i]
    {
      XorBound(x[xo + i], y[yo + i], 8);
      XorZeroIff(x[xo + i], y[yo + i]);
      var e: u32 := Xor(x[xo + i], y[yo + i]);
      OrBound(d, e, 8);
      OrZeroIff(d, e);
      d := Or(d, e);
      SliceGrows(x[..], xo, y[..], yo, i);
    }
    // d - 1 wraps to 2^32 - 1 exactly when d is 0.
    var w: u32 := (d - 1) % 0x1_0000_0000 / 256;
    AndMask(w, 1);
    r := And(w, 1) - 1;
  }

  lemma SliceGrows(x: seq<int>, xo: nat, y: seq<int>, yo: nat, n: nat)
    requires xo + n < |x| && yo + n < |y|
    ensures x[xo..xo + n + 1] == y[yo..yo + n + 1] <==> x[xo..xo + n] == y[yo..yo + n] && x[xo + n] == y[yo + n]
  {
    assert x[xo..xo + n + 1] == x[xo..xo + n] + [x[xo + n]];
    assert y[yo..yo + n + 1] == y[yo..yo + n] + [y[yo + n]];
    if x[xo..xo + n + 1] == y[yo..yo + n + 1] {
      assert x[xo..xo + n] == x[xo..xo + n + 1][..n] && y[yo..yo + n] == y[yo..yo + n + 1][..n];
      assert x[xo + n] == x[xo..xo + n + 1][n] && y[yo + n] == y[yo..yo + n + 1][n];
    }
  }

  lemma SubSlice(m: seq<int>, o: nat, n: nat, i: nat, k: nat)
    requires o + n <= |m| && i + k <= n
    ensures m[o..o + n][i..i + k] == m[o + i..o + i + k]
  {
    var s, t := m[o..o + n][i..i + k], m[o + i..o + i + k];
    assert forall j :: 0 <= j < k ==> s[j] == m[o..o + n][i + j] && t[j] == m[o + i + j];
    forall j | 0 <= j < k
      ensures s[j] == t[j]
    {
      assert m[o..o + n][i + j] == m[o + (i + j)];
    }
  }

  lemma {:induction false} PowMonotone(i: nat, d: nat)
    ensures Pow256(i) <= Pow256(i + d)
    decreases d
  {
    if d > 0 {
      PowMonotone(i, d - 1);
    }
  }

  // ---- bits of a number -------------------------------------------------------------------

  // (x >> i) & 1
  function Bit(x: int, i: nat): int {
    x / Pow2(i) % 2
  }

  // The bit test of the ladders: bit i of the number is bit i mod 8 of byte i div 8.
  lemma BitOfByte(z: seq<int>, i: nat)
    requires IsBytes(z) && i < 8 * |z|
    ensures And(z[i / 8] / Pow2(i % 8), 1) == Bit(LEValue(z), i)
  {
    var j, r := i / 8, i % 8;
    AndMask(z[j] / Pow2(r), 1);
    ValBound(256, z, j);
    Pow256IsPow2(j);
    Pow2Add(8 * j, r);
    SplitAtByte(z, j);
    ByteOfNumber(Val(256, z, j), z[j], LEValue(z[j + 1..]), Pow2(8 * j), r);
  }

  lemma SplitAtByte(z: seq<int>, j: nat)
    requires j < |z|
    ensures LEValue(z) == Val(256, z, j) + Pow2(8 * j) * (z[j] + 256 * LEValue(z[j + 1..]))
  {
    hide *;
    LESplit(z, j);
    LESplit(z[j..], 1);
    assert z[j..][1..] == z[j + 1..];
    OneDigit(z[j..]);
    Pow256IsPow2(j);
  }

  lemma LESplit(s: seq<int>, j: nat)
    requires j <= |s|
    ensures LEValue(s) == Val(256, s, j) + Pow(256, j) * LEValue(s[j..])
  {
    ValSplit(256, s, j, |s| - j);
  }

  lemma OneDigit(s: seq<int>)
    requires |s| > 0
    ensures Val(256, s, 1) == s[0] && Pow(256, 1) == 256
  {
    assert Pow(256, 0) == 1;
  }

  lemma {:induction false} Pow256IsPow2(j: nat)
    ensures Pow(256, j) == Pow2(8 * j)
  {
    if j > 0 {
      Pow256IsPow2(j - 1);
      Pow2Add(8 * (j - 1), 8);
      assert Pow2(8) == 256;
    }
  }

  lemma ByteOfNumber(lo: int, b: int, hi: int, p: int, r: nat)
    requires 0 <= lo < p && 0 <= b < 256 && r < 8
    ensures p * Pow2(r) > 0 && (lo + p * (b + 256 * hi)) / (p * Pow2(r)) % 2 == b / Pow2(r) % 2
  {
    var v := lo + p * (b + 256 * hi);
    Commute(p, b + 256 * hi);
    ModUnique(v, p, b + 256 * hi, lo);
    DivDiv(v, p, Pow2(r));
    ShiftByte(b, hi, r);
  }

  lemma ShiftByte(b: int, hi: int, r: nat)
    requires 0 <= b < 256 && r < 8
    ensures (b + 256 * hi) / Pow2(r) % 2 == b / Pow2(r) % 2
  {
    var p, m := Pow2(r), Pow2(7 - r);
    Pow2Add(8 - r, r);
    assert Pow2(8) == 256;
    ShiftDigit(b, hi, p, m);
  }

  lemma ShiftDigit(b: int, hi: int, p: int, m: int)
    requires p > 0 && (2 * m) * p == 256
    ensures (b + 256 * hi) / p % 2 == b / p % 2
  {
    DivMod(b, p);
    var q := hi * (2 * m);
    MulAssoc(hi, 2 * m, p);
    ModUnique(b + 256 * hi, p, b / p + q, b % p);
    TwiceProduct(hi, m);
    EvenShift(b / p, hi * m);
  }

  lemma EvenShift(x: int, k: int)
    ensures (x + 2 * k) % 2 == x % 2
  {
  }

  lemma DivDiv(x: int, p: int, q: int)
    requires p > 0 && q > 0
    ensures p * q > 0 && x / (p * q) == x / p / q
  {
    MulPositive(p, q);
    DivMod(x, p);
    DivMod(x / p, q);
    var d, r := x / p / q, x / p % q;
    MulBetween(r, q, p);
    Commute(q, p);
    ModUnique(x, p * q, d, r * p + x % p);
  }

  // Eight bytes, least significant first.
  function Word(s: seq<int>, i: nat): int
    requires i + 8 <= |s|
  {
    s[i] + 0x100 * s[i + 1] + 0x10000 * s[i + 2] + 0x1000000 * s[i + 3] + 0x1_0000_0000 * s[i + 4]
    + 0x100_0000_0000 * s[i + 5] + 0x1_0000_0000_0000 * s[i + 6] + 0x100_0000_0000_0000 * s[i + 7]
  }

  lemma WordValue(s: seq<int>)
    requires |s| >= 8
    ensures Val(256, s, 8) == Word(s, 0)
  {
    assert Pow(256, 0) == 1;
    NextDigit(s, 0, 1);
    NextDigit(s, 1, 0x100);
    NextDigit(s, 2, 0x10000);
    NextDigit(s, 3, 0x1000000);
    NextDigit(s, 4, 0x1_0000_0000);
    NextDigit(s, 5, 0x100_0000_0000);
    NextDigit(s, 6, 0x1_0000_0000_0000);
    NextDigit(s, 7, 0x100_0000_0000_0000);
  }

  lemma NextDigit(s: seq<int>, n: nat, p: int)
    requires n < |s| && Pow(256, n) == p
    ensures Val(256, s, n + 1) == Val(256, s, n) + s[n] * p && Pow(256, n + 1) == p * 256
  {
  }

  // ---- carries --------------------------------------------------------------------------------

  // One limb of a carry pass: limb j gives up its carry u to the next one.
  lemma CarryStep(x: seq<int>, r: seq<int>, s: seq<int>, c: int, u: int, u0: int, j: nat)
    requires j < |x| == |r| == |s| && forall k :: 0 <= k < j ==> r[k] == x[k]
    requires Val(256, x, j) + c * Pow(256, j) == Val(256, s, j) + u0
    requires r[j] + 256 * u == s[j] + c
    ensures Val(256, r, j + 1) + u * Pow(256, j + 1) == Val(256, s, j + 1) + u0
  {
    ValAgree(256, x, r, j);
  }

}
