// Poly1305 in seventeen radix-256 limbs (src/tweetnacl/tweetnacl.c, lines 194 to 270) against
// section 2.5 of RFC 8439.
module Poly1305 {
  import opened Bits
  import opened Bytes
  import opened Limbs
  import opened BitLaws

  const P1305: int := 0x3fffffffffffffffffffffffffffffffb   // 2^130 - 5
  const CLAMP: int := 0x0ffffffc0ffffffc0ffffffc0fffffff

  // ---- RFC 8439 -----------------------------------------------------------------------------

  // The accumulator after the message m, started from acc.
  ghost function Absorb(acc: int, m: seq<int>, r: int): int
    decreases |m|
  {
    if |m| == 0 then acc
    else
      var k := if |m| < 16 then |m| else 16;
      Absorb((acc + LEValue(m[..k]) + Pow256(k)) * r % P1305, m[k..], r)
  }

  ghost function Tag(m: seq<int>, key: seq<int>): seq<int>
    requires |key| == 32
  {
    var r := And(LEValue(key[..16]), CLAMP);
    var s := LEValue(key[16..]);
    LEBytes(Absorb(0, m, r) + s, 16)
  }

  // ---- the product of two 17-limb numbers modulo p ----------------------------------------------

  // The factor of h[j] in limb i of the product: what passes 2^136 comes back with weight 320.
  function Coef(r: seq<int>, i: nat, j: nat): int
    requires |r| == 17 && i < 17 && j < 17
  {
    if j <= i then r[i - j] else 320 * r[i + 17 - j]
  }

  function Dot(h: seq<int>, r: seq<int>, i: nat, n: nat): int
    requires |h| == |r| == 17 && i < 17 && n <= 17
  {
    if n == 0 then 0 else Dot(h, r, i, n - 1) + h[n - 1] * Coef(r, i, n - 1)
  }

  function Column(r: seq<int>, j: nat): (c: seq<int>)
    requires |r| == 17 && j < 17
    ensures |c| == 17
  {
    seq(17, i requires 0 <= i < 17 => Coef(r, i, j))
  }

  function Product(h: seq<int>, r: seq<int>, n: nat): (c: seq<int>)
    requires |h| == |r| == 17 && n <= 17
    ensures |c| == 17
  {
    seq(17, i requires 0 <= i < 17 => Dot(h, r, i, n))
  }

  // 2^136 = 64 p + 320 and 2^130 = p + 5
  lemma Powers(n: nat)
    requires n == 16
    ensures Pow(256, n) == 0x1_0000_0000_0000_0000_0000_0000_0000_0000
    ensures 4 * Pow(256, n) == P1305 + 5 && Pow(256, n + 1) == 64 * P1305 + 320
  {
    assert Pow(256, 4) == 0x1_0000_0000;
    PowAdd(256, 4, 4);
    PowAdd(256, 8, 8);
  }

  lemma {:induction false} ValScale(s: seq<int>, c: int, u: seq<int>, n: nat)
    requires n <= |s| && n <= |u| && forall k :: 0 <= k < n ==> u[k] == c * s[k]
    ensures Val(256, u, n) == c * Val(256, s, n)
  {
    if n > 0 {
      ValScale(s, c, u, n - 1);
      MulAdd(c, Val(256, s, n - 1), s[n - 1], Pow(256, n - 1));
    }
  }

  // A column is the number r, shifted by j limbs and folded.
  lemma ColumnValue(r: seq<int>, j: nat)
    requires |r| == 17 && j < 17
    ensures exists k :: Pow(256, j) * LEValue(r) == LEValue(Column(r, j)) + k * P1305
  {
    hide Pow, Val;
    var c, n := Column(r, j), |r| - j;
    var lo, hi := Val(256, r, n), Val(256, r[n..], j);
    ValSplit(256, c, j, n);
    assert forall k :: 0 <= k < j ==> c[k] == 320 * r[n..][k];
    ValScale(r[n..], 320, c, j);
    assert forall k :: 0 <= k < n ==> c[j..][k] == r[k];
    ValAgree(256, c[j..], r, n);
    ValSplit(256, r, n, j);
    PowAdd(256, j, n);
    Powers(|r| - 1);
    ColumnArithmetic(Pow(256, j), Pow(256, n), lo, hi, P1305);
  }

  lemma ColumnArithmetic(pj: int, pn: int, lo: int, hi: int, p: int)
    requires pj * pn == 64 * p + 320
    ensures pj * (lo + pn * hi) == 320 * hi + pj * lo + (64 * hi) * p
  {
    assert pj * (lo + pn * hi) == pj * lo + pj * (pn * hi);
    MulAssoc(pj, pn, hi);
  }

  // The limbs computed by the double loop hold the product modulo p.
  lemma {:induction false} ProductValue(h: seq<int>, r: seq<int>, n: nat)
    requires |h| == |r| == 17 && n <= 17
    ensures LEValue(Product(h, r, n)) % P1305 == (Val(256, h, n) * LEValue(r)) % P1305
  {
    if n == 0 {
      ValOfPrefix(256, Product(h, r, n), 0, 17);
    } else {
      ProductValue(h, r, n - 1);
      var before, after, c := Product(h, r, n - 1), Product(h, r, n), Column(r, n - 1);
      ValLinear(256, before, c, h[n - 1], after, |c|);
      ColumnValue(r, n - 1);
      var k :| Pow(256, n - 1) * LEValue(r) == LEValue(c) + k * P1305;
      AddColumn(LEValue(before), Val(256, h, n - 1), h[n - 1], LEValue(c), Pow(256, n - 1), LEValue(r), k, P1305);
    }
  }

  lemma AddColumn(x: int, v: int, h: int, c: int, p: int, r: int, k: int, m: int)
    requires m > 0 && x % m == (v * r) % m && p * r == c + k * m
    ensures (x + h * c) % m == ((v + h * p) * r) % m
  {
    ColumnProduct(v, h, c, p, r, k, m);
    ModShift(v * r + h * c, h * k, m);
    SameResidue(x, v * r, h * c, m);
  }

  lemma ColumnProduct(v: int, h: int, c: int, p: int, r: int, k: int, m: int)
    requires p * r == c + k * m
    ensures (v + h * p) * r == v * r + h * c + (h * k) * m
  {
    assert (v + h * p) * r == v * r + (h * p) * r;
    MulAssoc(h, p, r);
    assert h * (c + k * m) == h * c + h * (k * m);
    MulAssoc(h, k, m);
  }

  lemma SameResidue(x: int, y: int, d: int, m: int)
    requires m > 0 && x % m == y % m
    ensures (x + d) % m == (y + d) % m
  {
    ModAdd(x, d, m);
    ModAdd(y, d, m);
  }

  // ---- in-place limb arithmetic ---------------------------------------------------------------

  // An accumulator between blocks: bytes, and below 2p.
  ghost predicate Reduced(h: seq<int>) {
    |h| == 17 && IsBytes(h) && LEValue(h) < 2 * P1305
  }

  // h := h + c modulo 2^136.
  method Add1305(h: array<u32>, c: array<u32>)
    requires h.Length == 17 && c.Length == 17 && h != c
    requires IsBytes(h[..]) && IsBytes(c[..])
    modifies h
    ensures IsBytes(h[..]) && LEValue(h[..]) == (old(LEValue(h[..])) + LEValue(c[..])) % Pow256(17)
  {
    hide Pow256;
    ghost var s: seq<int>, t: seq<int> := h[..], c[..];
    var u: u32 := 0;
    for j := 0 to 17
      invariant u <= 1 && c[..] == t
      invariant forall k :: j <= k < 17 ==> h[k] == s[k]
      invariant forall k :: 0 <= k < j ==> 0 <= h[k] < 256
      invariant Val(256, h[..], j) + u * Pow(256, j) == Val(256, s, j) + Val(256, t, j)
    {
      ghost var before: seq<int>, u0: int := h[..], u;
      u := u + (h[j] + c[j]);
      DigitMask(u);
      h[j] := And(u, 255);
      u := u / 256;
      AddStep(before, h[..], s, t, u0, u, j);
    }
    AddResult(h[..], u, LEValue(s) + LEValue(t));
  }

  lemma DigitMask(u: int)
    requires u >= 0
    ensures And(u, 255) == u % 256
  {
    Pow2Values();
    AndMask(u, 8);
  }

  lemma AddStep(x: seq<int>, r: seq<int>, s: seq<int>, t: seq<int>, u0: int, u: int, j: nat)
    requires j < |x| == |r| == |s| == |t| && forall k :: 0 <= k < j ==> r[k] == x[k]
    requires Val(256, x, j) + u0 * Pow(256, j) == Val(256, s, j) + Val(256, t, j)
    requires r[j] + 256 * u == s[j] + t[j] + u0
    ensures Val(256, r, j + 1) + u * Pow(256, j + 1) == Val(256, s, j + 1) + Val(256, t, j + 1)
  {
    ValAgree(256, x, r, j);
  }

  lemma AddResult(h: seq<int>, u: int, v: int)
    requires IsBytes(h) && LEValue(h) + u * Pow(256, |h|) == v
    ensures LEValue(h) == v % Pow256(|h|)
  {
    LEValueBound(h);
    ModUnique(v, Pow256(|h|), u, LEValue(h));
  }

  const T128: int := 0x1_0000_0000_0000_0000_0000_0000_0000_0000

  // The value of limbs 0 to 15.
  function Low(s: seq<int>): int
    requires |s| == 17
  {
    Val(256, s, |s| - 1)
  }

  // Lines 235 to 240 and 244 to 248: a carry pass over limbs 0 to 15, entered with the carry u0.
  method CarryPass(h: array<u32>, u0: u32) returns (u: u32)
    requires h.Length == 17 && u0 <= 0x3000_0000
    requires forall k :: 0 <= k < 16 ==> h[k] <= 0x1600_0000
    modifies h
    ensures h[16] == old(h[16]) && u <= 0x480_0000
    ensures forall k :: 0 <= k < 16 ==> 0 <= h[k] < 256
    ensures Low(h[..]) + u * T128 == old(Low(h[..])) + u0
  {
    ghost var s: seq<int> := h[..];
    u := u0;
    assert Pow(256, 0) == 1;
    for j := 0 to 16
      invariant u <= 0x3000_0000 && (j > 0 ==> u <= 0x480_0000)
      invariant forall k :: j <= k < 17 ==> h[k] == s[k]
      invariant forall k :: 0 <= k < j ==> 0 <= h[k] < 256
      invariant Val(256, h[..], j) + u * Pow(256, j) == Val(256, s, j) + u0
    {
      ghost var before: seq<int>, c: int := h[..], u;
      u := u + h[j];
      DigitMask(u);
      h[j] := And(u, 255);
      u := u / 256;
      CarryStep(before, h[..], s, c, u, u0, j);
    }
    Powers(|s| - 1);
  }

  // Lines 235 to 250: folds what exceeds 2^130 back with weight 5.
  method Fold(h: array<u32>)
    requires h.Length == 17 && forall k :: 0 <= k < 17 ==> h[k] <= 0x1600_0000
    modifies h
    ensures Reduced(h[..])
    ensures LEValue(h[..]) % P1305 == old(LEValue(h[..])) % P1305
  {
    hide LEValue, Reduced, Low;
    ghost var s: seq<int> := h[..];
    var u := CarryPass(h, 0);
    u := u + h[16];
    Pow2Values();
    AndMask(u, 2);
    ghost var top: int, mid: seq<int> := u, h[..];
    h[16] := And(u, 3);
    u := 5 * (u / 4);
    ghost var x: seq<int> := h[..];
    SameLow(mid, x);
    u := CarryPass(h, u);
    ghost var y: seq<int> := h[..];
    FoldBounds(s, x, y, top, u);
    u := u + h[16];
    h[16] := u;
    SameLow(y, h[..]);
    FoldValue(s, x, h[..], top, u);
  }

  lemma SameLow(x: seq<int>, y: seq<int>)
    requires |x| == |y| == 17 && forall k :: 0 <= k < 16 ==> x[k] == y[k]
    ensures Low(x) == Low(y)
  {
    ValAgree(256, x, y, |x| - 1);
  }

  lemma FoldBounds(s: seq<int>, x: seq<int>, y: seq<int>, top: int, u: int)
    requires |s| == |x| == |y| == 17 && 0 <= top <= 0x1c00_0000 && u >= 0
    requires forall k :: 0 <= k < 16 ==> 0 <= x[k] < 256 && 0 <= y[k] < 256
    requires Low(y) + u * T128 == Low(x) + 5 * (top / 4)
    ensures u <= 1
  {
    ValBound(256, x, |x| - 1);
    ValBound(256, y, |y| - 1);
    Powers(|s| - 1);
  }

  lemma FoldValue(s: seq<int>, x: seq<int>, y: seq<int>, top: int, u: int)
    requires |s| == |x| == |y| == 17 && 0 <= top <= 0x1c00_0000
    requires forall k :: 0 <= k < 16 ==> 0 <= x[k] < 256 && 0 <= y[k] < 256
    requires x[16] == top % 4 && y[16] == u && 0 <= u < 256
    requires Low(x) + (top - s[16]) * T128 == Low(s)
    requires Low(y) + (u - x[16]) * T128 == Low(x) + 5 * (top / 4)
    ensures Reduced(y) && LEValue(y) % P1305 == LEValue(s) % P1305
  {
    var n := |s| - 1;
    ValBound(256, x, n);
    Powers(n);
    DivMod(top, 4);
    var p := Pow(256, n);
    ModShift(LEValue(y), top / 4, P1305);
  }

  // Lines 230 to 234: h := h r as unreduced limbs.
  method Multiply(h: array<u32>, r: array<u32>)
    requires h.Length == 17 && r.Length == 17 && h != r && IsBytes(h[..]) && IsBytes(r[..])
    modifies h
    ensures forall k :: 0 <= k < 17 ==> h[k] <= 0x1600_0000
    ensures LEValue(h[..]) % P1305 == (old(LEValue(h[..])) * LEValue(r[..])) % P1305
  {
    var x := new u32[17];
    ghost var s: seq<int>, t: seq<int> := h[..], r[..];
    for i := 0 to 17
      invariant h[..] == s && r[..] == t
      invariant forall k :: 0 <= k < i ==> x[k] == Dot(s, t, k, 17) && x[k] <= 17 * 0x13d8140
    {
      x[i] := MultiplyLimb(h, r, i);
    }
    for i := 0 to 17
      invariant x[..] == Product(s, t, 17)
      invariant r[..] == t && forall k :: 0 <= k < i ==> h[k] == x[k]
      invariant forall k :: 0 <= k < 17 ==> x[k] <= 17 * 0x13d8140
    {
      h[i] := x[i];
    }
    assert h[..] == Product(s, t, |s|);
    ProductValue(s, t, |s|);
  }

  // Lines 231 and 232: limb i of the product.
  method MultiplyLimb(h: array<u32>, r: array<u32>, i: nat) returns (x: u32)
    requires h.Length == 17 && r.Length == 17 && IsBytes(h[..]) && IsBytes(r[..]) && i < 17
    ensures x == Dot(h[..], r[..], i, 17) && x <= 17 * 0x13d8140
  {
    x := 0;
    for j := 0 to 17
      invariant x == Dot(h[..], r[..], i, j) && x <= j * 0x13d8140
    {
      var f: u32 := if j <= i then r[i - j] else 320 * r[i + 17 - j];
      ProductBound(h[j], f, 255, 320 * 255);
      var term: u32 := h[j] * f;
      x := x + term;
    }
  }

  // ---- the key ------------------------------------------------------------------------------

  // The bitwise and of two numbers is taken byte by byte.
  lemma {:induction false} AndBytes(s: seq<int>, t: seq<int>, u: seq<int>, n: nat)
    requires n <= |s| && n <= |t| && n <= |u| && IsBytes(s) && IsBytes(t)
    requires forall k :: 0 <= k < n ==> u[k] == And(s[k], t[k])
    ensures And(Val(256, s, n), Val(256, t, n)) == Val(256, u, n)
  {
    if n > 0 {
      AndBytes(s, t, u, n - 1);
      ValBound(256, s, n - 1);
      ValBound(256, t, n - 1);
      Pow256IsPow2(n - 1);
      AndDigits(Val(256, s, n - 1), Val(256, t, n - 1), s[n - 1], t[n - 1], 8 * (n - 1));
    }
  }

  // The bytes of CLAMP.
  function ClampByte(k: nat): (b: int)
    ensures 0 <= b < 256
  {
    if k % 4 == 3 then 0x0f else if k % 4 == 0 && k > 0 then 0xfc else 0xff
  }

  lemma ClampValue(t: seq<int>)
    requires |t| == 16 && forall k :: 0 <= k < 16 ==> t[k] == ClampByte(k)
    ensures LEValue(t) == CLAMP
  {
    LESplit(t, 8);
    WordValue(t);
    WordValue(t[8..]);
    assert Pow(256, 8) == 0x1_0000_0000_0000_0000 by { PowAdd(256, 4, 4); }
    assert Word(t, 0) == 0x0ffffffc0fffffff;
    assert Word(t[8..], 0) == 0x0ffffffc0ffffffc;
  }

  lemma ClampedByte(x: int, k: nat)
    requires 0 <= x < 256 && k < 16
    ensures 0 <= And(x, ClampByte(k)) < 256
    ensures k !in {3, 4, 7, 8, 11, 12, 15} ==> And(x, ClampByte(k)) == x
  {
    hide And;
    assert k !in {3, 4, 7, 8, 11, 12, 15} ==> ClampByte(k) == 255;
    Pow2Values();
    AndBound(x, ClampByte(k), 8);
    DigitMask(x);
  }

  // Section 2.5 of RFC 8439 requires these bits to be clear: the top four bits of the bytes 3, 7,
  // 11 and 15, and the bottom two bits of the bytes 4, 8 and 12.
  lemma ClampBit(i: nat)
    requires i < 128
    ensures Bit(CLAMP, i) == if i % 32 >= 28 || (i >= 32 && i % 32 < 2) then 0 else 1
  {
    hide LEValue, Bit, ClampByte;
    var t := seq(16, k requires 0 <= k < 16 => ClampByte(k));
    ClampValue(t);
    BitInByte(t, i);
    MaskBit(i / 8, i % 8);
    Place(i, i / 32, i / 8 % 4, i % 8);
  }

  lemma Place(i: nat, q: nat, r: nat, j: nat)
    requires q == i / 32 && r == i / 8 % 4 && j == i % 8
    ensures i / 8 == 4 * q + r && i % 32 == 8 * r + j
    ensures (r == 3 && j >= 4) || (r == 0 && i / 8 > 0 && j < 2) <==> i % 32 >= 28 || (i >= 32 && i % 32 < 2)
  {
    assert i == 8 * (i / 8) + j && i / 8 == 4 * (i / 8 / 4) + r;
    assert i / 8 / 4 == q;
  }

  lemma MaskBit(k: nat, j: nat)
    requires j < 8
    ensures Bit(ClampByte(k), j) == if (k % 4 == 3 && j >= 4) || (k % 4 == 0 && k > 0 && j < 2) then 0 else 1
  {
    hide Pow2;
    SmallPowers(j);
  }

  // The clamped half key k has the bits of k that are not cleared, and no other.
  lemma ClampedBits(k: nat, r: nat)
    requires r == And(k, CLAMP)
    ensures forall i :: 0 <= i < 128 ==> Bit(r, i) == if i % 32 >= 28 || (i >= 32 && i % 32 < 2) then 0 else Bit(k, i)
  {
    hide And, Bit;
    forall i | 0 <= i < 128
      ensures Bit(r, i) == if i % 32 >= 28 || (i >= 32 && i % 32 < 2) then 0 else Bit(k, i)
    {
      AndBit(k, CLAMP, i);
      ClampBit(i);
      BitRange(k, i);
    }
  }

  // Lines 212 to 220: the clamped first half of the key.
  method LoadKey(k: array<u8>, ko: nat) returns (r: array<u32>)
    requires ko + 32 <= k.Length
    ensures fresh(r) && r.Length == 17 && IsBytes(r[..])
    ensures LEValue(r[..]) == And(LEValue(k[ko..ko + 16]), CLAMP)
    ensures forall i :: 0 <= i < 128 ==>
      Bit(LEValue(r[..]), i) == if i % 32 >= 28 || (i >= 32 && i % 32 < 2) then 0 else Bit(LEValue(k[ko..ko + 16]), i)
  {
    r := new u32[17](_ => 0);
    for j := 0 to 16
      invariant forall i :: 0 <= i < j ==> r[i] == k[ko + i]
      invariant r[16] == 0
    {
      r[j] := k[ko + j];
    }
    ghost var s: seq<int> := k[ko..ko + 16];
    MaskKey(r, s);
    KeyValue(s, r[..]);
    LEValueBound(s);
    LEValueBound(r[..]);
    ClampedBits(LEValue(s), LEValue(r[..]));
  }

  method MaskKey(r: array<u32>, ghost s: seq<int>)
    requires r.Length == 17 && |s| == 16 && IsBytes(s) && r[16] == 0
    requires forall i :: 0 <= i < 16 ==> r[i] == s[i]
    modifies r
    ensures r[16] == 0 && forall i :: 0 <= i < 16 ==> r[i] == And(s[i], ClampByte(i)) && 0 <= r[i] < 256
  {
    forall i | 0 <= i < 16
      ensures 0 <= And(s[i], ClampByte(i)) < 256
      ensures i !in {3, 4, 7, 8, 11, 12, 15} ==> And(s[i], ClampByte(i)) == s[i]
    {
      ClampedByte(s[i], i);
    }
    r[3] := And(r[3], 15);
    r[4] := And(r[4], 252);
    r[7] := And(r[7], 15);
    r[8] := And(r[8], 252);
    r[11] := And(r[11], 15);
    r[12] := And(r[12], 252);
    r[15] := And(r[15], 15);
  }

  lemma KeyValue(s: seq<int>, r: seq<int>)
    requires |s| == 16 && |r| == 17 && IsBytes(s) && r[16] == 0
    requires forall i :: 0 <= i < 16 ==> r[i] == And(s[i], ClampByte(i))
    ensures LEValue(r) == And(LEValue(s), CLAMP)
  {
    var t := seq(16, k requires 0 <= k < 16 => ClampByte(k));
    ClampValue(t);
    AndBytes(s, t, r, |s|);
    assert Val(256, r, |r|) == Val(256, r, |s|);
  }

  // ---- the message ----------------------------------------------------------------------------

  // Lines 223 to 226: the next block with its 1 byte.
  method LoadBlock(m: array<u8>, mo: nat, n: nat) returns (c: array<u32>, j: nat)
    requires n > 0 && mo + n <= m.Length
    ensures fresh(c) && c.Length == 17 && IsBytes(c[..])
    ensures j == (if n < 16 then n else 16)
    ensures LEValue(c[..]) == LEValue(m[mo..mo + j]) + Pow256(j)
  {
    c := new u32[17](_ => 0);
    j := 0;
    while j < 16 && j < n
      invariant j <= 16 && j <= n
      invariant forall i :: 0 <= i < j ==> c[i] == m[mo + i]
      invariant forall i :: j <= i < 17 ==> c[i] == 0
    {
      c[j] := m[mo + j];
      j := j + 1;
    }
    c[j] := 1;
    BlockValue(m[mo..mo + j], c[..]);
  }

  lemma BlockValue(b: seq<int>, c: seq<int>)
    requires |b| < |c| && c[|b|] == 1 && forall i :: |b| < i < |c| ==> c[i] == 0
    requires forall i :: 0 <= i < |b| ==> c[i] == b[i]
    ensures LEValue(c) == LEValue(b) + Pow256(|b|)
  {
    ValAgree(256, c, b, |b|);
    ValOfPrefix(256, c, |b| + 1, |c|);
  }

  // Lines 229 to 250: h := (h + c) r modulo p, up to one multiple of p.
  method AbsorbBlock(h: array<u32>, c: array<u32>, r: array<u32>)
    requires h.Length == 17 && c.Length == 17 && r.Length == 17 && h != c && h != r
    requires Reduced(h[..]) && IsBytes(c[..]) && IsBytes(r[..]) && LEValue(c[..]) < P1305
    modifies h
    ensures Reduced(h[..])
    ensures LEValue(h[..]) % P1305 == (old(LEValue(h[..])) % P1305 + LEValue(c[..])) * LEValue(r[..]) % P1305
  {
    hide LEValue, Pow256;
    ghost var v, b, k := LEValue(h[..]), LEValue(c[..]), LEValue(r[..]);
    SumFits(v, b, |h[..]|);
    LEValueBound(h[..]);
    LEValueBound(c[..]);
    Add1305(h, c);
    Multiply(h, r);
    Fold(h);
    Residues(v, b, k, P1305);
  }

  lemma SumFits(v: int, b: int, n: nat)
    requires v < 2 * P1305 && b < P1305 && n == 17
    ensures v + b < Pow256(n)
    ensures 0 <= v && 0 <= b ==> (v + b) % Pow256(n) == v + b
  {
    Powers(n - 1);
  }

  lemma Residues(v: int, b: int, k: int, m: int)
    requires m > 0
    ensures ((v + b) * k) % m == (v % m + b) * k % m
  {
    DivMod(v, m);
    var q, r := v / m, v % m;
    ShiftedProduct(q, r + b, k, m);
    ModShift((r + b) * k, q * k, m);
  }

  lemma ShiftedProduct(q: int, r: int, k: int, m: int)
    ensures (q * m + r) * k == r * k + (q * k) * m
  {
    assert (q * m + r) * k == (q * m) * k + r * k;
    assert (q * m) * k == (q * k) * m;
  }

  // A block with its 1 byte is below p.
  lemma BlockBelowP(b: seq<int>)
    requires IsBytes(b) && |b| <= 16
    ensures LEValue(b) + Pow256(|b|) < P1305
  {
    LEValueBound(b);
    PowMonotone(|b|, 16 - |b|);
    Powers(|b| + (16 - |b|));
  }

  // Lines 222 to 251: the whole message.
  method AbsorbMessage(h: array<u32>, r: array<u32>, m: array<u8>, mo: nat, n: nat)
    requires h.Length == 17 && r.Length == 17 && h != r && mo + n <= m.Length
    requires Reduced(h[..]) && IsBytes(r[..])
    modifies h
    ensures Reduced(h[..])
    ensures LEValue(h[..]) % P1305 == Absorb(old(LEValue(h[..])) % P1305, m[mo..mo + n], LEValue(r[..]))
  {
    hide Reduced, LEValue;
    ghost var t: seq<int>, k, total: int := m[mo..mo + n], LEValue(r[..]), Absorb(LEValue(h[..]) % P1305, m[mo..mo + n], LEValue(r[..]));
    var i := 0;
    while i < n
      invariant i <= n && r[..] == old(r[..]) && m[mo..mo + n] == t
      invariant Reduced(h[..])
      invariant Absorb(LEValue(h[..]) % P1305, t[i..], k) == total
    {
      var c, j := LoadBlock(m, mo + i, n - i);
      assert m[mo + i..mo + i + j] == t[i..][..j];
      BlockBelowP(t[i..][..j]);
      AbsorbBlock(h, c, r);
      assert t[i..][j..] == t[i + j..];
      i := i + j;
    }
  }

  // ---- the tag --------------------------------------------------------------------------------

  lemma MinusPValue(c: seq<int>)
    requires |c| == 17 && c[0] == 5 && c[16] == 252 && forall i :: 0 < i < 16 ==> c[i] == 0
    ensures LEValue(c) == Pow256(17) - P1305
  {
    var n := |c| - 1;
    LESplit(c, 1);
    OneDigit(c);
    HighByte(c[1..], n - 1);
    assert Pow(256, n) == Pow(256, n - 1) * 256;
    Powers(n);
    assert Pow256(17) == Pow(256, n + 1);
  }

  lemma {:induction false} HighByte(s: seq<int>, n: nat)
    requires n + 1 == |s| && forall i :: 0 <= i < n ==> s[i] == 0
    ensures LEValue(s) == s[n] * Pow(256, n)
  {
    ValOfPrefix(256, s, 0, n);
  }

  // Lines 253 to 256: subtract p unless that is negative, without branching.
  method Freeze(h: array<u32>)
    requires h.Length == 17 && Reduced(h[..])
    modifies h
    ensures IsBytes(h[..]) && LEValue(h[..]) == old(LEValue(h[..])) % P1305
  {
    hide LEValue, Pow256;
    var g := new u32[17](i requires 0 <= i < 17 reads h => h[i]);
    assert g[..] == h[..];
    ghost var v: int, old_h: seq<int> := LEValue(h[..]), h[..];
    var minusp := new u32[17](_ => 0);
    minusp[0], minusp[16] := 5, 252;
    MinusPValue(minusp[..]);
    LEValueBound(h[..]);
    Add1305(h, minusp);
    ghost var d: seq<int> := h[..];
    SignByte(d, v);
    Select(h, g);
    assert h[..] == if v < P1305 then old_h else d;
  }

  // Lines 255 and 256: h := g if the top bit of h is set.
  method Select(h: array<u32>, g: array<u32>)
    requires h.Length == 17 && g.Length == 17 && h != g && IsBytes(h[..]) && IsBytes(g[..])
    modifies h
    ensures h[..] == if old(h[16]) / 128 == 1 then g[..] else old(h[..])
  {
    hide And, Xor;
    var sign: int := h[16] / 128;
    var s: u32 := (0 - sign) % 0x1_0000_0000;
    for j := 0 to 17
      invariant g[..] == old(g[..])
      invariant forall k :: j <= k < 17 ==> h[k] == old(h[k])
      invariant forall k :: 0 <= k < j ==> h[k] == (if s == 0 then old(h[k]) else g[k])
    {
      SelectByte(g[j], h[j], s);
      h[j] := Xor(h[j], And(s, Xor(g[j], h[j])));
    }
  }

  // v - p modulo 2^136 has its top bit set exactly when v < p.
  lemma SignByte(d: seq<int>, v: int)
    requires |d| == 17 && IsBytes(d) && 0 <= v < 2 * P1305
    requires LEValue(d) == (v + (Pow256(17) - P1305)) % Pow256(17)
    ensures d[16] / 128 == if v < P1305 then 1 else 0
    ensures v % P1305 == if v < P1305 then v else LEValue(d)
  {
    var n := |d| - 1;
    Powers(n);
    ValBound(256, d, n);
    assert Pow256(17) == Pow(256, n + 1);
    var top := Pow(256, n + 1);
    ModUnique(v + (top - P1305), top, if v < P1305 then 0 else 1, if v < P1305 then v + (top - P1305) else v - P1305);
    ModUnique(v, P1305, if v < P1305 then 0 else 1, if v < P1305 then v else v - P1305);
  }

  lemma SelectByte(g: int, h: int, s: int)
    requires 0 <= g < 256 && 0 <= h < 256 && (s == 0 || s == 0xffff_ffff)
    ensures Xor(h, And(s, Xor(g, h))) == if s == 0 then h else g
  {
    hide And, Xor;
    Pow2Values();
    XorBound(g, h, 8);
    AndCommutes(s, Xor(g, h));
    WordMask(Xor(g, h));
    AndZero(Xor(g, h));
    XorZero(h);
    XorCommutes(g, h);
    XorCancels(h, g);
  }

  lemma WordMask(x: int)
    requires 0 <= x < 256
    ensures And(x, 0xffff_ffff) == x
  {
    hide And;
    Pow2Values();
    AndMask(x, 32);
  }

  // Lines 258 to 260: add the second half of the key.
  method AddKey(h: array<u32>, k: array<u8>, ko: nat)
    requires ko + 32 <= k.Length && h.Length == 17 && IsBytes(h[..])
    modifies h
    ensures IsBytes(h[..])
    ensures LEValue(h[..]) == (old(LEValue(h[..])) + old(LEValue(k[ko + 16..ko + 32]))) % Pow256(17)
  {
    hide LEValue, Pow256;
    var c := new u32[17](_ => 0);
    for j := 0 to 16
      invariant h[..] == old(h[..]) && k[..] == old(k[..])
      invariant forall i :: 0 <= i < j ==> c[i] == k[ko + 16 + i]
      invariant c[16] == 0
    {
      c[j] := k[ko + j + 16];
    }
    PaddedValue(k[ko + 16..ko + 32], c[..]);
    Add1305(h, c);
  }

  // Line 261: the low sixteen bytes.
  method StoreLow(out: array<u8>, oo: nat, h: array<u32>, ghost v: int)
    requires oo + 16 <= out.Length && h.Length == 17 && IsBytes(h[..]) && LEValue(h[..]) == v % Pow256(17)
    modifies out
    ensures out[oo..oo + 16] == LEBytes(v, 16)
    ensures out[..oo] == old(out[..oo]) && out[oo + 16..] == old(out[oo + 16..])
  {
    hide LEValue, Pow256;
    ghost var t: seq<int> := h[..];
    for j := 0 to 16
      invariant h[..] == t
      invariant out[oo..oo + j] == t[..j]
      invariant out[..oo] == old(out[..oo]) && out[oo + 16..] == old(out[oo + 16..])
    {
      out[oo + j] := h[j];
      assert out[oo..oo + j + 1] == out[oo..oo + j] + [t[j]];
    }
    LowBytes(t, v);
  }

  lemma LowBytes(t: seq<int>, v: int)
    requires |t| == 17 && IsBytes(t) && LEValue(t) == v % Pow256(17)
    ensures t[..16] == LEBytes(v, 16)
  {
    BytesOfLEValue(t, v);
    assert LEBytes(v, |t|) == LEBytes(v, |t| - 1) + [v / Pow256(|t| - 1) % 256];
  }

  // crypto_onetimeauth: out[oo..oo+16] := the tag of m[mo..mo+n] under k[ko..ko+32].  The output
  // may overlap the message and the key: it is written after both were read.
  method OneTimeAuth(out: array<u8>, oo: nat, m: array<u8>, mo: nat, n: nat, k: array<u8>, ko: nat) returns (ret: int)
    requires oo + 16 <= out.Length && mo + n <= m.Length && ko + 32 <= k.Length
    modifies out
    ensures ret == 0
    ensures out[oo..oo + 16] == Tag(old(m[mo..mo + n]), old(k[ko..ko + 32]))
    ensures out[..oo] == old(out[..oo]) && out[oo + 16..] == old(out[oo + 16..])
  {
    hide LEValue, Reduced;
    var r := LoadKey(k, ko);
    var h := new u32[17](_ => 0);
    ZeroStart(h[..]);
    AbsorbMessage(h, r, m, mo, n);
    Freeze(h);
    ghost var key: seq<int> := k[ko..ko + 32];
    assert key[..16] == k[ko..ko + 16] && key[16..] == k[ko + 16..ko + 32];
    ghost var v := LEValue(h[..]) + LEValue(k[ko + 16..ko + 32]);
    AddKey(h, k, ko);
    StoreLow(out, oo, h, v);
    ret := 0;
  }

  lemma ZeroStart(h: seq<int>)
    requires |h| == 17 && forall i :: 0 <= i < 17 ==> h[i] == 0
    ensures Reduced(h) && LEValue(h) == 0
  {
    ValOfPrefix(256, h, 0, |h|);
  }
}
