// Selection, packing and unpacking of field elements (src/tweetnacl/tweetnacl.c, lines 317 to 367).
module FieldBytes {
  import opened Bits
  import opened Bytes
  import opened Limbs
  import opened Field25519

  // ---- constant-time selection ------------------------------------------------------------

  // Swaps p and q when b is 1, by masked exclusive-or.
  method Sel25519(p: array<i64>, q: array<i64>, b: int)
    requires p.Length == 16 && q.Length == 16 && p != q && (b == 0 || b == 1)
    modifies p, q
    ensures p[..] == if b == 1 then old(q[..]) else old(p[..])
    ensures q[..] == if b == 1 then old(p[..]) else old(q[..])
    ensures El(p) == if b == 1 then old(El(q)) else old(El(p))
    ensures El(q) == if b == 1 then old(El(p)) else old(El(q))
    ensures forall n: nat :: old(Weight(p, n)) && old(Weight(q, n)) ==> Weight(p, n) && Weight(q, n)
  {
    var c: i64 := Not(b - 1);
    for i := 0 to 16
      invariant forall k :: 0 <= k < i ==> p[k] == (if b == 1 then old(q[k]) else old(p[k]))
      invariant forall k :: 0 <= k < i ==> q[k] == (if b == 1 then old(p[k]) else old(q[k]))
      invariant forall k :: i <= k < 16 ==> p[k] == old(p[k]) && q[k] == old(q[k])
    {
      SelectWord(p[i], q[i], b);
      var d: i64 := Xor(p[i], q[i]);
      var t: i64 := And(c, d);
      p[i] := Xor(p[i], t);
      q[i] := Xor(q[i], t);
    }
  }

  lemma SelectWord(x: i64, y: i64, b: int)
    requires b == 0 || b == 1
    ensures -0x8000_0000_0000_0000 <= Xor(x, y) < 0x8000_0000_0000_0000
    ensures And(Not(b - 1), Xor(x, y)) == if b == 1 then Xor(x, y) else 0
    ensures Xor(x, And(Not(b - 1), Xor(x, y))) == if b == 1 then y else x
    ensures Xor(y, And(Not(b - 1), Xor(x, y))) == if b == 1 then x else y
  {
    Pow2Values();
    XorSignedBound(x, y, 63);
    XorCancels(x, y);
    XorCancels(y, x);
    XorCommutes(x, y);
    XorZero(x);
    XorZero(y);
  }

  // ---- packing ----------------------------------------------------------------------------

  // A borrow of limb i - 1 is taken from limb i.
  lemma BorrowMoves(m: seq<int>, r: seq<int>, i: nat, br: int)
    requires 1 <= i < |m| == |r|
    requires r[i - 1] == m[i - 1] + W * br
    requires forall k :: 0 <= k < i - 1 ==> r[k] == m[k]
    ensures Val(W, r, i + 1) == Val(W, m, i) + (r[i] + br) * Pow(W, i)
  {
    ValAgree(W, m, r, i - 1);
    var p := Pow(W, i - 1);
    MulDistributes(m[i - 1], -(W * br), p);
    NegMul(W * br, p);
    MulAssoc(br, W, p);
    Commute(W, p);
    Commute(W, br);
    MulDistributes(r[i], -br, Pow(W, i));
    NegMul(br, Pow(W, i));
  }

  lemma SubtractLimb(m: seq<int>, r: seq<int>, s: seq<int>, p: seq<int>, i: nat, br: int)
    requires 1 <= i < |m| == |r| == |s| == |p|
    requires Val(W, m, i) == Val(W, s, i) - Val(W, p, i)
    requires r[i - 1] == m[i - 1] + W * br && r[i] == s[i] - p[i] - br
    requires forall k :: 0 <= k < i - 1 ==> r[k] == m[k]
    ensures Val(W, r, i + 1) == Val(W, s, i + 1) - Val(W, p, i + 1)
  {
    BorrowMoves(m, r, i, br);
  }

  // m := t - p with all limbs but the last normalised; the result b is the borrow out.
  method SubtractP(t: array<i64>, m: array<i64>) returns (b: int)
    requires t.Length == 16 && m.Length == 16 && t != m && Digits(t[..])
    modifies m
    ensures Num(m[..]) == Num(t[..]) - P
    ensures b == if Num(t[..]) < P then 1 else 0
    ensures b == 0 ==> Digits(m[..])
  {
    hide And, Val;
    SubtractLow(t, m);
    ghost var before: seq<int>, s: seq<int>, n := m[..], t[..], 15;
    BorrowBit(m[14]);
    m[15] := t[15] - 0x7fff - And(m[14] / 0x10000, 1);
    BorrowBit(m[15]);
    b := And(m[15] / 0x10000, 1);
    m[14] := And(m[14], 0xffff);
    SubtractLimb(before, m[..], s, PLimbs(), n, -(before[14] / W));
    SignOfTop(m[..], n);
  }

  // The first limb and the loop over limbs 1 to 14; limb 14 is not yet masked.
  method SubtractLow(t: array<i64>, m: array<i64>)
    requires t.Length == 16 && m.Length == 16 && t != m && Digits(t[..])
    modifies m
    ensures forall k :: 0 <= k < 14 ==> 0 <= m[k] < W
    ensures -W <= m[14] < W
    ensures var n := |m[..]| - 1; Val(W, m[..], n) == Val(W, t[..], n) - Val(W, PLimbs(), n)
  {
    ghost var s: seq<int>, p := t[..], PLimbs();
    m[0] := t[0] - 0xffed;
    FirstLimb(m[..], s, p);
    for i := 1 to 15
      invariant t[..] == s
      invariant forall k :: 0 <= k < i - 1 ==> 0 <= m[k] < W
      invariant -W <= m[i - 1] < W
      invariant Val(W, m[..], i) == Val(W, s, i) - Val(W, p, i)
    {
      ghost var before: seq<int> := m[..];
      BorrowBit(m[i - 1]);
      m[i] := t[i] - 0xffff - And(m[i - 1] / 0x10000, 1);
      m[i - 1] := And(m[i - 1], 0xffff);
      SubtractLimb(before, m[..], s, p, i, -(before[i - 1] / W));
    }
  }

  lemma FirstLimb(m: seq<int>, s: seq<int>, p: seq<int>)
    requires |m| > 0 && |s| > 0 && |p| > 0 && m[0] == s[0] - p[0]
    ensures Val(W, m, 1) == Val(W, s, 1) - Val(W, p, 1)
  {
  }

  // Bits 16 and below of a limb in [-2^16, 2^16).
  lemma BorrowBit(x: int)
    requires -W <= x < W
    ensures And(x / 0x10000, 1) == -(x / W) == if x < 0 then 1 else 0
    ensures And(x, 0xffff) == x + W * -(x / W) && 0 <= And(x, 0xffff) < W
  {
    Pow2Values();
    AndMask(x, 16);
    AndMask(x / W, 1);
  }

  // The sign of a number is the sign of its top limb when the others are digits.
  lemma SignOfTop(m: seq<int>, n: nat)
    requires n + 1 == |m| && forall k :: 0 <= k < n ==> 0 <= m[k] < W
    ensures Num(m) < 0 <==> m[n] < 0
  {
    ValBound(W, m, n);
    TopDominates(Val(W, m, n), m[n], Pow(W, n));
  }

  lemma TopDominates(lo: int, x: int, p: int)
    requires 0 <= lo < p
    ensures lo + x * p < 0 <==> x < 0
  {
    if x < 0 {
      MulNonneg(-x - 1, p);
      MulDistributes(-x, 1, p);
      NegMul(x, p);
    } else {
      MulNonneg(x, p);
    }
  }

  // A third carry pass over a Tight vector leaves sixteen digits.
  lemma ThirdCarry(s: seq<int>)
    requires Tight(s)
    ensures Digits(Carried(s))
  {
    CarrySign(s, |s|);
  }

  lemma {:induction false} CarrySign(s: seq<int>, n: nat)
    requires Tight(s) && 1 <= n <= |s|
    ensures -1 <= CarryIn(s, n) <= 1
    ensures CarryIn(s, n) == 1 ==> s[0] >= W
    ensures CarryIn(s, n) == -1 ==> s[0] < 0
  {
    if n > 1 {
      CarrySign(s, n - 1);
    }
  }

  // t becomes the digits of the least non-negative residue of its value.
  method Normalise(t: array<i64>)
    requires t.Length == 16 && Wide(t[..])
    modifies t
    ensures Digits(t[..]) && Num(t[..]) == old(El(t))
  {
    ghost var x := El(t);
    TwoCarries(t[..]);
    Car25519(t);
    Car25519(t);
    ThirdCarry(t[..]);
    Car25519(t);
    DigitsBelow3P(t[..]);
    var m := new i64[16];
    for j := 0 to 2
      invariant Digits(t[..]) && El(t) == x
      invariant 0 <= Num(t[..]) < if j == 0 then 3 * P else if j == 1 then 2 * P else P
    {
      var b := SubtractP(t, m);
      SubtractOnce(t[..], m[..]);
      Sel25519(t, m, 1 - b);
    }
    ResSmall(Num(t[..]));
  }

  lemma SubtractOnce(t: seq<int>, m: seq<int>)
    requires |t| == |m| == 16 && Num(m) == Num(t) - P
    ensures Fe(m) == Fe(t)
  {
    FeOf(m, t, -1);
  }

  lemma DigitsBelow3P(t: seq<int>)
    requires Digits(t)
    ensures 0 <= Num(t) < 3 * P
  {
    ValBound(W, t, |t|);
    PowLimbs(|t|);
  }

  // o[0..32] := the bytes of the least non-negative residue of n.
  method Pack25519(o: array<u8>, n: array<i64>)
    requires o.Length >= 32 && n.Length == 16 && Wide(n[..])
    modifies o
    ensures o[..32] == LEBytes(El(n), 32)
    ensures o[32..] == old(o[32..])
  {
    var t := new i64[16](i requires 0 <= i < 16 reads n => n[i]);
    assert t[..] == n[..];
    Normalise(t);
    StoreLimbs(o, t);
    LimbBytes(t[..], o[..32]);
    PackedBytes(t[..], o[..32]);
  }

  method StoreLimbs(o: array<u8>, t: array<i64>)
    requires o.Length >= 32 && Digits(t[..])
    modifies o
    ensures t[..] == old(t[..])
    ensures forall k :: 0 <= k < 32 ==> o[k] == (if k % 2 == 0 then t[k / 2] % 256 else t[k / 2] / 256)
    ensures o[32..] == old(o[32..])
  {
    hide And;
    for i := 0 to 16
      invariant t[..] == old(t[..])
      invariant forall k :: 0 <= k < 2 * i ==> o[k] == (if k % 2 == 0 then t[k / 2] % 256 else t[k / 2] / 256)
      invariant o[32..] == old(o[32..])
    {
      LowHalf(t[i]);
      o[2 * i] := And(t[i], 0xff);
      o[2 * i + 1] := t[i] / 256;
    }
  }

  lemma LowHalf(x: int)
    requires 0 <= x < W
    ensures And(x, 0xff) == x % 256 && 0 <= x % 256 < 256 && 0 <= x / 256 < 256
  {
    Pow2Values();
    AndMask(x, 8);
  }

  lemma LimbBytes(s: seq<int>, o: seq<int>)
    requires Digits(s) && |o| == 32
    requires forall k :: 0 <= k < 32 ==> o[k] == (if k % 2 == 0 then s[k / 2] % 256 else s[k / 2] / 256)
    ensures forall k :: 0 <= k < 16 ==> s[k] == o[2 * k] + 256 * o[2 * k + 1]
  {
  }

  // Two radix-256 digits make a radix-65536 digit.
  lemma {:induction false} PairValue(s: seq<int>, o: seq<int>, n: nat)
    requires n <= |s| && 2 * n <= |o|
    requires forall k :: 0 <= k < n ==> s[k] == o[2 * k] + 256 * o[2 * k + 1]
    ensures Val(256, o, 2 * n) == Val(W, s, n)
  {
    if n > 0 {
      PairValue(s, o, n - 1);
      PowOfPow(256, 2, n - 1);
      assert Pow(256, 2) == W;
      var p := Pow(W, n - 1);
      assert Pow(256, 2 * n - 1) == p * 256;
      PairTerm(o[2 * n - 2], o[2 * n - 1], p);
    }
  }

  lemma PairTerm(x: int, y: int, p: int)
    ensures (x + 256 * y) * p == x * p + y * (p * 256)
  {
  }

  lemma PackedBytes(s: seq<int>, o: seq<int>)
    requires Digits(s) && 0 <= Num(s) < P && |o| == 32 && IsBytes(o)
    requires forall k :: 0 <= k < 16 ==> s[k] == o[2 * k] + 256 * o[2 * k + 1]
    ensures o == LEBytes(Num(s), |o|)
  {
    PairValue(s, o, |s|);
    LEValueBound(o);
    SmallMod(Num(s), Pow256(|o|));
    BytesOfLEValue(o, Num(s));
  }

  lemma SmallMod(x: int, m: int)
    requires 0 <= x < m
    ensures x % m == x
  {
  }

  // Equality of field elements, by comparing canonical bytes.
  method Neq25519(a: array<i64>, b: array<i64>) returns (r: int)
    requires a.Length == 16 && b.Length == 16 && Wide(a[..]) && Wide(b[..])
    ensures r == 0 || r == -1
    ensures r == 0 <==> El(a) == El(b)
  {
    var c, d := new u8[32], new u8[32];
    Pack25519(c, a);
    Pack25519(d, b);
    r := VN(c, 0, d, 0, 32);
    CanonicalBytes(El(a), El(b));
  }

  // The packed form is canonical: two residues have the same bytes only if they are equal.
  lemma CanonicalBytes(x: int, y: int)
    requires 0 <= x < P && 0 <= y < P
    ensures LEBytes(x, 32) == LEBytes(y, 32) ==> x == y
  {
    LEValueOfBytes(x, 32);
    LEValueOfBytes(y, 32);
    PBelowPow256(32);
    SmallMod(x, Pow256(32));
    SmallMod(y, Pow256(32));
  }

  lemma PBelowPow256(n: nat)
    requires n == 32
    ensures 2 * P < Pow256(n)
  {
    PowLimbs(16);
    PowOfPow(256, 2, 16);
    assert Pow(256, 2) == W;
  }

  method Par25519(a: array<i64>) returns (r: u8)
    requires a.Length == 16 && Wide(a[..])
    ensures r == El(a) % 2
  {
    var d := new u8[32];
    Pack25519(d, a);
    AndMask(d[0], 1);
    r := And(d[0], 1);
    LowByte(El(a), 32);
  }

  lemma {:induction false} LowByte(x: int, n: nat)
    requires n > 0
    ensures LEBytes(x, n)[0] == x % 256
    ensures LEBytes(x, n)[0] % 2 == x % 2
  {
    if n > 1 {
      LowByte(x, n - 1);
    }
  }

  // ---- unpacking --------------------------------------------------------------------------

  // The field element that 32 bytes denote: bit 255 is ignored.
  function Decode(n: seq<int>): int
    requires |n| == 32
  {
    LEValue(n[..31] + [n[31] % 128])
  }

  // Two bytes, the low one first.
  function Pair(lo: int, hi: int): int {
    lo + 256 * hi
  }

  method Unpack25519(o: array<i64>, n: array<u8>)
    requires o.Length == 16 && n.Length >= 32
    modifies o
    ensures Weight(o, 1) && Digits(o[..])
    ensures Num(o[..]) == Decode(n[..32]) && El(o) == Decode(n[..32]) % P
  {
    for i := 0 to 16
      invariant forall k :: 0 <= k < i ==> o[k] == Pair(n[2 * k], n[2 * k + 1])
    {
      o[i] := Pair(n[2 * i], n[2 * i + 1]);
    }
    Mask15(o[15]);
    o[15] := And(o[15], 0x7fff);
    UnpackedValue(o[..], n[..32]);
    ResIsMod(Num(o[..]));
  }

  lemma Mask15(x: int)
    requires 0 <= x < W
    ensures And(x, 0x7fff) == x % 0x8000
  {
    assert Pow2(15) == 0x8000;
    AndMask(x, 15);
  }

  lemma UnpackedValue(s: seq<int>, n: seq<int>)
    requires |s| == 16 && |n| == 32
    requires forall k :: 0 <= k < 15 ==> s[k] == Pair(n[2 * k], n[2 * k + 1])
    requires 0 <= n[30] < 256 && 0 <= n[31] < 256 && s[15] == Pair(n[30], n[31]) % 0x8000
    ensures Num(s) == Decode(n)
  {
    var d := n[..31] + [n[31] % 128];
    forall k | 0 <= k < 16
      ensures s[k] == d[2 * k] + 256 * d[2 * k + 1]
    {
      if k < 15 {
        assert s[k] == Pair(n[2 * k], n[2 * k + 1]);
      } else {
        TopLimb(n[30], n[31]);
      }
    }
    PairValue(s, d, |s|);
  }

  lemma TopLimb(lo: int, hi: int)
    requires 0 <= lo < 256 && 0 <= hi < 256
    ensures Pair(lo, hi) % 0x8000 == lo + 256 * (hi % 128)
  {
  }

  // Packing what was unpacked gives the bytes of (n mod 2^255) mod p.
  method Repack(o: array<u8>, n: array<u8>)
    requires o.Length >= 32 && n.Length >= 32
    modifies o
    ensures o[..32] == LEBytes(old(Decode(n[..32])) % P, 32)
  {
    var t := new i64[16];
    Unpack25519(t, n);
    Pack25519(o, t);
  }
}
