// Reduction modulo the group order L = 2^252 + 27742317777372353535851937790883648493
// (src/tweetnacl/tweetnacl.c, lines 730 to 764).
module ScalarModL {
  import opened Bits
  import opened Bytes
  import opened Limbs

  // The largest limb that a caller passes: a byte plus 32 products of bytes.
  const LIMB_MAX: int := 2081055

  function LByte(k: nat): (b: int)
    requires k < 32
    ensures 0 <= b < 256
  {
    if k < 8 then [0xed, 0xd3, 0xf5, 0x5c, 0x1a, 0x63, 0x12, 0x58][k]
    else if k < 16 then [0xd6, 0x9c, 0xf7, 0xa2, 0xde, 0xf9, 0xde, 0x14][k - 8]
    else if k < 31 then 0
    else 0x10
  }

  function LBytes(): (s: seq<int>)
    ensures |s| == 32 && IsBytes(s)
  {
    seq(32, k requires 0 <= k < 32 => LByte(k))
  }

  // What most proofs use of L; its value is in OrderValue.
  type Positive = m: int | m > 1000 witness 1001

  ghost function OrderNumber(): (m: Positive) {
    LBytesValue();
    NumberOf(256, LBytes())
  }

  // L is the number in the bytes of the source's table.
  ghost const ORDER: Positive := OrderNumber()

  lemma LBytesValue()
    ensures LEValue(LBytes()) == 0x1000000000000000000000000000000014def9dea2f79cd65812631a5cf5d3ed
  {
    hide Val, Pow, Word;
    var s := LBytes();
    WordValue(s);
    WordValue(s[8..]);
    WordValue(s[16..]);
    WordValue(s[24..]);
    LESplit(s, 8);
    LESplit(s[8..], 8);
    LESplit(s[16..], 8);
    assert s[8..][8..] == s[16..] && s[16..][8..] == s[24..];
    PowOf8(8);
    WordOfL(0);
    WordOfL(1);
    WordOfL(2);
    WordOfL(3);
    assert s[0..] == s;
  }

  // Word number j of L.
  function LWord(j: nat): int
    requires j < 4
  {
    if j == 0 then 0x5812631a5cf5d3ed else if j == 1 then 0x14def9dea2f79cd6 else if j == 2 then 0 else 0x1000000000000000
  }

  lemma WordOfL(j: nat)
    requires j < 4
    ensures Word(LBytes()[8 * j..], 0) == LWord(j)
  {
    hide LByte;
    var i := 8 * j;
    assert forall k :: 0 <= k < 8 ==> LBytes()[i..][k] == LByte(i + k);
    BytesOfL(j);
  }

  lemma BytesOfL(j: nat)
    requires j < 4
    ensures var i := 8 * j;
      LByte(i) + 0x100 * LByte(i + 1) + 0x10000 * LByte(i + 2) + 0x1000000 * LByte(i + 3) + 0x1_0000_0000 * LByte(i + 4)
      + 0x100_0000_0000 * LByte(i + 5) + 0x1_0000_0000_0000 * LByte(i + 6) + 0x100_0000_0000_0000 * LByte(i + 7) == LWord(j)
  {
    if j == 0 {
    } else if j == 1 {
    } else if j == 2 {
    }
  }

  lemma PowOf8(n: nat)
    requires n == 8
    ensures Pow(256, n) == 0x1_0000_0000_0000_0000
  {
    PowAdd(256, 4, n - 4);
    assert Pow(256, 4) == 0x1_0000_0000;
  }

  lemma OrderValue()
    ensures ORDER == LEValue(LBytes()) == 0x1000000000000000000000000000000014def9dea2f79cd65812631a5cf5d3ed
  {
    hide Val;
    LBytesValue();
  }

  // ---- one row of the elimination loop --------------------------------------------------------

  // What is known of the limbs before row i: limbs up to i - 32 are still inputs, the window above
  // them was normalised by the previous rows, and limbs above i are gone.
  ghost predicate RowReady(x: seq<int>, i: int) {
    |x| == 64 && 31 <= i <= 63 &&
    (forall k :: 0 <= k <= i - 32 ==> 0 <= x[k] <= LIMB_MAX) &&
    (i == 63 ==> forall k :: 0 <= k < 64 ==> 0 <= x[k] <= LIMB_MAX) &&
    (i < 63 ==> forall k :: 0 <= k && i - 32 < k <= i - 12 ==> -128 <= x[k] <= 127) &&
    (i < 63 ==> forall k :: i - 12 < k <= 50 ==> -129 <= x[k] <= 129) &&
    (forall k :: 51 <= k < 64 ==> -0x200000 <= x[k] <= 0x200000) &&
    (forall k :: i < k < 64 ==> x[k] == 0)
  }

  // Bound on the carry after t steps of row i.  Bytes 16 to 19 of L are zero, so that the carry
  // dies out before it reaches limb i - 12.
  function CarryMax(i: int, t: nat): int {
    if t == 0 then 0
    else if t <= 16 then 0x4000000
    else if i == 63 then [270400, 9300, 8300, 8300, 8300][if t - 17 < 5 then t - 17 else 4]
    else [262200, 1030, 6, 1, 1][if t - 17 < 5 then t - 17 else 4]
  }

  // One step of a row: x[j] takes the carry and its multiple of L and is brought to a signed byte.
  lemma StepBounds(i: int, t: nat, xj: int, xi: int, b: int, carry: int)
    requires t < 20 && 32 <= i <= 63 && -0x200000 <= xi <= 0x200000 && 0 <= b < 256
    requires t >= 16 ==> b == 0
    requires -CarryMax(i, t) <= carry <= CarryMax(i, t)
    requires t > 0 && i < 63 ==> -128 <= xj <= 127
    requires 0 <= xj <= LIMB_MAX || -128 <= xj <= 127
    ensures var y := xj + carry - 16 * xi * b; var c := (y + 128) / 256;
      -0x4_0000_0000 <= y <= 0x4_0000_0000 && -CarryMax(i, t + 1) <= c <= CarryMax(i, t + 1) && -128 <= y - 256 * c <= 127
  {
    ByteTimes(xi, b);
  }

  lemma ByteTimes(x: int, b: int)
    requires -0x200000 <= x <= 0x200000 && 0 <= b < 256
    ensures -0x200000 * 255 <= x * b <= 0x200000 * 255
    ensures 16 * x * b == 16 * (x * b)
    ensures b == 0 ==> x * b == 0
  {
    MulNonneg(0x200000 - x, b);
    MulNonneg(0x200000 + x, b);
  }

  lemma StepValue(x: seq<int>, j: nat, xi: int, b: int, p: int, pb: int, carry: int, c: int, lv: int, v: int, base: int)
    requires j < |x| && p == Pow(256, j) && p == base * pb
    requires LEValue(x) + carry * p == v - (16 * xi * base) * lv
    ensures var y := x[j] + carry - 16 * xi * b - c * 256;
      LEValue(x[j := y]) + c * Pow(256, j + 1) == v - (16 * xi * base) * (lv + b * pb)
  {
    var d := carry - 16 * xi * b - c * 256;
    ValAddAt(256, x, j, d, |x|);
    assert x[j := x[j] + d] == x[j := x[j] + carry - 16 * xi * b - c * 256];
  }

  // 16 L = 16 (L mod 2^160) + 2^256: this is why the loop may stop after byte 19 and drop x[i].
  lemma OrderTail(n: nat)
    requires n == 20
    ensures 16 * ORDER == 16 * Val(256, LBytes(), n) + Pow(256, n + 12)
  {
    hide Val;
    var s := LBytes();
    var k := |s| - 1;
    OrderValue();
    ZeroTail(s, n, k);
    assert s[k] == 16 && k + 1 == n + 12;
    assert Pow(256, k + 1) == Pow(256, k) * 256;
  }

  lemma {:induction false} ZeroTail(s: seq<int>, m: nat, n: nat)
    requires m <= n < |s| && forall k :: m <= k < n ==> s[k] == 0
    ensures Val(256, s, n + 1) == Val(256, s, m) + s[n] * Pow(256, n)
  {
    if m < n {
      ZeroTail(s, m, n - 1);
    }
  }

  lemma RowValue(v: int, xi: int, base: int, lv: int, top: int, order: int)
    requires 16 * order == 16 * lv + top
    ensures v - (16 * xi * base) * lv - xi * (base * top) == v - (xi * base) * (16 * order)
  {
    var k := xi * base;
    assert (16 * xi * base) * lv == k * (16 * lv);
    assert xi * (base * top) == k * top;
  }

  // The value of the limbs and the carry after t steps of row i: t digits of L are accounted for.
  ghost predicate RowBalance(after: int, carry: int, before: int, xi: int, i: nat, t: nat)
    requires i >= 32 && t <= 32
  {
    after + carry * Pow(256, i - 32 + t) == before - (16 * xi * Pow(256, i - 32)) * Val(256, LBytes(), t)
  }

  lemma BalanceStep(x: seq<int>, i: nat, t: nat, xi: int, b: int, carry: int, c: int, v: int)
    requires |x| == 64 && t < 20 && 32 <= i <= 63 && b == LByte(t)
    requires RowBalance(LEValue(x), carry, v, xi, i, t)
    ensures RowBalance(LEValue(x[i - 32 + t := x[i - 32 + t] + carry - 16 * xi * b - c * 256]), c, v, xi, i, t + 1)
  {
    PowAdd(256, i - 32, t);
    StepValue(x, i - 32 + t, xi, b, Pow(256, i - 32 + t), Pow(256, t), carry, c, Val(256, LBytes(), t), v, Pow(256, i - 32));
  }

  // Lines 739 to 741.
  method RowStep(x: array<i64>, i: nat, t: nat, carry: i64, ghost v: int) returns (c: i64)
    requires x.Length == 64 && t < 20 && 32 <= i <= 63
    requires -0x200000 <= x[i] <= 0x200000 && -CarryMax(i, t) <= carry <= CarryMax(i, t)
    requires t > 0 && i < 63 ==> -128 <= x[i - 32 + t] <= 127
    requires 0 <= x[i - 32 + t] <= LIMB_MAX || -128 <= x[i - 32 + t] <= 127
    requires RowBalance(LEValue(x[..]), carry, v, x[i], i, t)
    modifies x
    ensures forall k :: 0 <= k < 64 && k != i - 32 + t ==> x[k] == old(x[k])
    ensures -128 <= x[i - 32 + t] <= 127 && -CarryMax(i, t + 1) <= c <= CarryMax(i, t + 1)
    ensures RowBalance(LEValue(x[..]), c, v, x[i], i, t + 1)
  {
    hide RowBalance, LEValue;
    var j := i - 32 + t;
    ghost var before: seq<int>, xi, b: int := x[..], x[i], LByte(t);
    StepBounds(i, t, x[j], x[i], LByte(t), carry);
    x[j] := x[j] + carry - 16 * x[i] * LByte(t);
    c := (x[j] + 128) / 256;
    x[j] := x[j] - c * 256;
    BalanceStep(before, i, t, xi, b, carry, c, v);
    assert x[..] == before[j := before[j] + carry - 16 * xi * b - c * 256];
  }

  // The inner loop of row i, lines 737 to 742.
  method RowLoop(x: array<i64>, i: nat) returns (carry: i64)
    requires x.Length == 64 && 32 <= i <= 63 && RowReady(x[..], i)
    modifies x
    ensures forall k :: 0 <= k < 64 && !(i - 32 <= k < i - 12) ==> x[k] == old(x[k])
    ensures forall k :: i - 32 <= k < i - 12 ==> -128 <= x[k] <= 127
    ensures -CarryMax(i, 20) <= carry <= CarryMax(i, 20)
    ensures RowBalance(LEValue(x[..]), carry, old(LEValue(x[..])), old(x[i]), i, i - (i - 32) - 12)
  {
    hide RowBalance, LEValue, CarryMax;
    ghost var v, xi := LEValue(x[..]), x[i];
    carry := 0;
    RowStart(v, xi, i);
    for j := i - 32 to i - 12
      invariant forall k :: 0 <= k < 64 && !(i - 32 <= k < j) ==> x[k] == old(x[k])
      invariant forall k :: i - 32 <= k < j ==> -128 <= x[k] <= 127
      invariant -CarryMax(i, j - (i - 32)) <= carry <= CarryMax(i, j - (i - 32))
      invariant RowBalance(LEValue(x[..]), carry, v, xi, i, j - (i - 32))
    {
      carry := RowStep(x, i, j - (i - 32), carry, v);
    }
  }

  lemma RowStart(v: int, xi: int, i: nat)
    requires i >= 32
    ensures RowBalance(v, 0, v, xi, i, 0) && CarryMax(i, 0) == 0
  {
  }

  // One row: x[i] is eliminated and the value drops by a multiple of L.
  method Row(x: array<i64>, i: nat)
    requires x.Length == 64 && 32 <= i <= 63 && RowReady(x[..], i)
    modifies x
    ensures RowReady(x[..], i - 1)
    ensures LEValue(x[..]) == old(LEValue(x[..])) - (old(x[i]) * Pow(256, i - 32)) * (16 * ORDER)
  {
    hide RowBalance, LEValue, Pow;
    ghost var v, xi: int := LEValue(x[..]), x[i];
    var carry := RowLoop(x, i);
    ghost var s: seq<int> := x[..];
    x[i - 12] := x[i - 12] + carry;
    x[i] := 0;
    RowEnds(s, carry, v, xi, i);
    assert x[..] == s[i - 12 := s[i - 12] + carry][i := 0];
  }

  lemma RowEnds(s: seq<int>, carry: int, v: int, xi: int, i: nat)
    requires |s| == 64 && 32 <= i <= 63 && s[i] == xi && RowBalance(LEValue(s), carry, v, xi, i, i - (i - 32) - 12)
    ensures LEValue(s[i - 12 := s[i - 12] + carry][i := 0]) == v - (xi * Pow(256, i - 32)) * (16 * ORDER)
  {
    var n := i - 12 - (i - 32);
    RowUpdates(s, carry, xi, i);
    OrderTail(n);
    PowAdd(256, i - 32, n + 12);
    RowValue(v, xi, Pow(256, i - 32), Val(256, LBytes(), n), Pow(256, n + 12), ORDER);
  }

  lemma RowUpdates(s: seq<int>, carry: int, xi: int, i: nat)
    requires |s| == 64 && 32 <= i <= 63 && s[i] == xi
    ensures LEValue(s[i - 12 := s[i - 12] + carry][i := 0]) == LEValue(s) + carry * Pow(256, i - 12) - xi * Pow(256, i)
  {
    var t := s[i - 12 := s[i - 12] + carry];
    ValAddAt(256, s, i - 12, carry, |s|);
    ValAddAt(256, t, i, -xi, |t|);
    NegMul(xi, Pow(256, i));
  }

  // ---- the final subtraction ------------------------------------------------------------------

  lemma {:induction false} SmallLimbs(s: seq<int>, n: nat)
    requires n <= |s| && forall k :: 0 <= k < n ==> -129 <= s[k] <= 129
    ensures -129 * Pow(256, n) <= 255 * Val(256, s, n) <= 129 * Pow(256, n)
  {
    if n > 0 {
      SmallLimbs(s, n - 1);
      PowPositive(256, n - 1);
      MulNonneg(129 - s[n - 1], Pow(256, n - 1));
      MulNonneg(129 + s[n - 1], Pow(256, n - 1));
    }
  }

  // After all rows, taking floor(x[31] / 16) multiples of L leaves a value in (-L, L).
  lemma TopQuotient(s: seq<int>, n: nat)
    requires |s| == 64 && RowReady(s, 31) && n == 31
    ensures -9 <= s[n] / 16 <= 8
    ensures 0 - ORDER < Val(256, s, n + 1) - s[n] / 16 * ORDER < ORDER
  {
    hide Val;
    OrderValue();
    SmallLimbs(s, n);
    PowOf31(n);
    WithNext(s, n);
    var q, r, lo, p := s[n] / 16, s[n] % 16, Val(256, s, n), 0x100000000000000000000000000000000000000000000000000000000000000;
    assert s[n] * Pow(256, n) == q * (16 * p) + r * p;
  }

  lemma WithNext(s: seq<int>, n: nat)
    requires n < |s|
    ensures Val(256, s, n + 1) == Val(256, s, n) + s[n] * Pow(256, n)
  {
  }

  // Lines 746 to 751: x := x - q L with q = floor(x[31] / 16), normalised to bytes; carry is the
  // part above 2^256.
  method SubtractTop(x: array<i64>) returns (carry: i64)
    requires x.Length == 64 && RowReady(x[..], 31)
    modifies x
    ensures forall k :: 0 <= k < 32 ==> 0 <= x[k] <= 255
    ensures forall k :: 32 <= k < 64 ==> x[k] == 0
    ensures -20 <= carry <= 20
    ensures TopBalance(x[..], carry, old(x[..]), old(x[31]) / 16, |x[..]| - 32)
  {
    hide TopBalance, RowReady;
    ghost var s: seq<int> := x[..];
    ghost var q := s[31] / 16;
    carry := 0;
    TopStart(s, q);
    TopQuotient(s, |s| - 33);
    for j := 0 to 32
      invariant forall k :: 0 <= k < j ==> 0 <= x[k] <= 255
      invariant forall k :: j <= k < 64 ==> x[k] == s[k]
      invariant -20 <= carry <= 20
      invariant TopBalance(x[..], carry, s, q, j)
    {
      ReadyLimb(s, j);
      carry := SubtractDigit(x, j, carry, s, q);
    }
    ReadyLimb(s, 0);
  }

  lemma ReadyLimb(s: seq<int>, j: nat)
    requires |s| == 64 && RowReady(s, 31) && j < 32
    ensures -129 <= s[j] <= 129
    ensures forall k :: 32 <= k < 64 ==> s[k] == 0
  {
  }

  // Lines 748 to 750.
  method SubtractDigit(x: array<i64>, j: nat, carry: i64, ghost s: seq<int>, ghost q: int) returns (c: i64)
    requires x.Length == 64 == |s| && j < 32 && -20 <= carry <= 20
    requires -129 <= x[j] <= 129 && x[j] == s[j] && q == x[31] / 16 && -9 <= q <= 8
    requires TopBalance(x[..], carry, s, q, j)
    modifies x
    ensures forall k :: 0 <= k < 64 && k != j ==> x[k] == old(x[k])
    ensures 0 <= x[j] <= 255 && -20 <= c <= 20
    ensures TopBalance(x[..], c, s, q, j + 1)
  {
    hide TopBalance;
    ghost var before: seq<int> := x[..];
    QuotientTimesByte(q, LByte(j));
    x[j] := x[j] + carry - x[31] / 16 * LByte(j);
    c := x[j] / 256;
    Pow2Values();
    AndMask(x[j], 8);
    x[j] := And(x[j], 255);
    TopStep(before, x[..], carry, c, s, q, j);
  }

  ghost predicate TopBalance(x: seq<int>, carry: int, s: seq<int>, q: int, j: nat)
    requires |x| >= 32 && |s| >= 32 && j <= 32
  {
    Val(256, x, j) + carry * Pow(256, j) == Val(256, s, j) - q * Val(256, LBytes(), j)
  }

  lemma TopStart(s: seq<int>, q: int)
    requires |s| >= 32
    ensures TopBalance(s, 0, s, q, 0)
  {
  }

  lemma QuotientTimesByte(q: int, b: int)
    requires -9 <= q <= 8 && 0 <= b < 256
    ensures -9 * 255 <= q * b <= 8 * 255
  {
    MulNonneg(8 - q, b);
    MulNonneg(q + 9, b);
  }

  lemma TopStep(x: seq<int>, r: seq<int>, carry: int, c: int, s: seq<int>, q: int, j: nat)
    requires |x| == |r| == |s| == 64 && j < 32
    requires TopBalance(x, carry, s, q, j)
    requires forall k :: 0 <= k < j ==> r[k] == x[k]
    requires r[j] + 256 * c == s[j] + carry - q * LByte(j)
    ensures TopBalance(r, c, s, q, j + 1)
  {
    ValAgree(256, x, r, j);
    TopArithmetic(r[j], c, s[j], carry, q, LByte(j), Pow(256, j), Val(256, LBytes(), j));
  }

  lemma TopArithmetic(r: int, c: int, s: int, carry: int, q: int, b: int, p: int, lv: int)
    requires r + 256 * c == s + carry - q * b
    ensures r * p + c * (p * 256) - carry * p == s * p - q * (lv + b * p) + q * lv
  {
    assert (r + 256 * c) * p == (s + carry - q * b) * p;
    assert (r + 256 * c) * p == r * p + c * (p * 256);
    MulDistributes(s + carry, q * b, p);
    assert (s + carry) * p == s * p + carry * p;
    MulAssoc(q, b, p);
    MulAdd(q, lv, b, p);
  }

  // Line 752: a negative value gets one L back.
  method AddBack(x: array<i64>, carry: i64)
    requires x.Length == 64 && (carry == 0 || carry == -1)
    requires forall k :: 0 <= k < 32 ==> 0 <= x[k] <= 255
    modifies x
    ensures forall k :: 0 <= k < 32 ==> x[k] == old(x[k]) - carry * LByte(k)
    ensures forall k :: 0 <= k < 32 ==> 0 <= x[k] <= 510
    ensures forall k :: 32 <= k < 64 ==> x[k] == old(x[k])
  {
    for j := 0 to 32
      invariant forall k :: 0 <= k < j ==> x[k] == old(x[k]) - carry * LByte(k)
      invariant forall k :: j <= k < 64 ==> x[k] == old(x[k])
    {
      x[j] := x[j] - carry * LByte(j);
    }
  }

  // Lines 753 to 756: the last carry pass; what exceeds 2^256 is dropped.
  method StoreBytes(r: array<u8>, ro: nat, x: array<i64>)
    requires x.Length == 64 && ro + 32 <= r.Length
    requires forall k :: 0 <= k < 32 ==> 0 <= x[k] <= 510
    requires x[32] == 0
    modifies r, x
    ensures r[..ro] == old(r[..ro]) && r[ro + 32..] == old(r[ro + 32..])
    ensures LEValue(r[ro..ro + 32]) == old(Val(256, x[..], 32)) % Pow256(32)
  {
    hide LEValue, Pow256, Val;
    ghost var y: seq<int> := x[..];
    StoredStart(y);
    for i := 0 to 32
      invariant forall k :: i < k <= 32 ==> x[k] == y[k]
      invariant y[i] <= x[i] <= y[i] + 2
      invariant r[..ro] == old(r[..ro]) && r[ro + 32..] == old(r[ro + 32..])
      invariant StoredBalance(r[ro..ro + i], y, x[i] - y[i])
    {
      Pow2Values();
      AndMask(x[i], 8);
      ghost var done: seq<int>, c, xi: int := r[ro..ro + i], x[i] - y[i], x[i];
      x[i + 1] := x[i + 1] + x[i] / 256;
      r[ro + i] := And(x[i], 255);
      assert r[ro..ro + i + 1] == done + [xi % 256];
      StoreStep(done, y, c, xi);
    }
    StoredResult(r[ro..ro + 32], y, x[32] - y[32]);
  }

  ghost predicate StoredBalance(r: seq<int>, y: seq<int>, c: int)
    requires |r| <= |y|
  {
    IsBytes(r) && LEValue(r) + c * Pow256(|r|) == Val(256, y, |r|)
  }

  lemma StoredStart(y: seq<int>)
    ensures StoredBalance([], y, 0)
  {
  }

  lemma StoreStep(r: seq<int>, y: seq<int>, c: int, xi: int)
    requires |r| < |y| && StoredBalance(r, y, c) && xi == y[|r|] + c
    ensures StoredBalance(r + [xi % 256], y, xi / 256)
  {
    var t, p := r + [xi % 256], Pow(256, |r|);
    ValAgree(256, r, t, |r|);
    DivMod(xi, 256);
  }

  lemma StoredResult(r: seq<int>, y: seq<int>, c: int)
    requires |r| <= |y| && StoredBalance(r, y, c)
    ensures LEValue(r) == Val(256, y, |r|) % Pow256(|r|)
  {
    LEValueBound(r);
    ModUnique(Val(256, y, |r|), Pow256(|r|), c, LEValue(r));
  }

  // ---- the whole reduction --------------------------------------------------------------------

  // The residue of the eliminated limbs: the carry of the subtraction is 0 or -1 ...
  lemma FinalCarry(s: seq<int>, x: seq<int>, carry: int, n: nat)
    requires |s| == |x| == 64 && n == 32 && RowReady(s, 31)
    requires forall k :: 0 <= k < 32 ==> 0 <= x[k] <= 255
    requires TopBalance(x, carry, s, s[31] / 16, n)
    ensures carry == 0 || carry == -1
    ensures (Val(256, x, n) - carry * ORDER) % Pow256(n) == LEValue(s) % ORDER
  {
    hide RowReady, LBytes, Val;
    TopQuotient(s, n - 1);
    PowOf31(n - 1);
    ValBound(256, x, n);
    OrderDigits(n);
    ReadyValue(s, n);
    OrderValue();
    FinalArithmetic(Val(256, s, n), s[31] / 16, Val(256, x, n), carry, Val(256, x, n) - carry * ORDER, Pow256(n));
  }

  lemma OrderDigits(n: nat)
    requires n == 32
    ensures Val(256, LBytes(), n) == ORDER
  {
    OrderValue();
  }

  // ... and adding L back when it is -1 gives the residue.
  lemma FinalValue(x: seq<int>, y: seq<int>, carry: int, n: nat)
    requires |x| == |y| == 64 && n == 32
    requires forall k :: 0 <= k < 32 ==> y[k] == x[k] - carry * LByte(k)
    ensures Val(256, y, n) == Val(256, x, n) - carry * ORDER
  {
    ValLinear(256, x, LBytes(), -carry, y, n);
    OrderDigits(n);
    NegMul(carry, ORDER);
  }

  lemma ReadyValue(s: seq<int>, n: nat)
    requires |s| == 64 && RowReady(s, 31) && n == 32
    ensures LEValue(s) == Val(256, s, n)
  {
    ValOfPrefix(256, s, n, |s|);
  }

  lemma FinalArithmetic(v: int, q: int, vx: int, carry: int, y: int, top: int)
    requires 2 * ORDER < top && 0 <= vx < top && vx + carry * top == v - q * ORDER
    requires 0 - ORDER < v - q * ORDER < ORDER && y == vx - carry * ORDER
    ensures carry == 0 || carry == -1
    ensures y % top == v % ORDER
  {
    var w := v - q * ORDER;
    ModUnique(w, top, carry, vx);
    ModUnique(w, top, if w < 0 then -1 else 0, if w < 0 then w + top else w);
    var z := if w < 0 then w + ORDER else w;
    ModUnique(y, top, if w < 0 then 1 else 0, z);
    ModUnique(v, ORDER, if w < 0 then q - 1 else q, z);
  }

  method ModL(r: array<u8>, ro: nat, x: array<i64>)
    requires x.Length == 64 && ro + 32 <= r.Length
    requires forall k :: 0 <= k < 64 ==> 0 <= x[k] <= LIMB_MAX
    modifies r, x
    ensures LEValue(r[ro..ro + 32]) == old(LEValue(x[..])) % ORDER
    ensures r[..ro] == old(r[..ro]) && r[ro + 32..] == old(r[ro + 32..])
  {
    hide Val, LEValue, RowReady, TopBalance;
    EliminateRows(x);
    ghost var s: seq<int> := x[..];
    var carry := SubtractTop(x);
    ghost var low: seq<int> := x[..];
    FinalCarry(s, low, carry, |low| - 32);
    AddBack(x, carry);
    FinalValue(low, x[..], carry, |low| - 32);
    StoreBytes(r, ro, x);
  }

  // Lines 736 to 745.
  method EliminateRows(x: array<i64>)
    requires x.Length == 64
    requires forall k :: 0 <= k < 64 ==> 0 <= x[k] <= LIMB_MAX
    modifies x
    ensures RowReady(x[..], 31)
    ensures LEValue(x[..]) % ORDER == old(LEValue(x[..])) % ORDER
  {
    hide LEValue, Pow;
    for i := 64 downto 32
      invariant RowReady(x[..], i - 1)
      invariant LEValue(x[..]) % ORDER == old(LEValue(x[..])) % ORDER
    {
      ghost var v, k := LEValue(x[..]), x[i] * Pow(256, i - 32);
      Row(x, i);
      DropMultiple(v, k);
    }
  }

  lemma DropMultiple(v: int, k: int)
    ensures (v - k * (16 * ORDER)) % ORDER == v % ORDER
  {
    ModShift(v, -16 * k, ORDER);
    MulAssoc(-16, k, ORDER);
  }

  // reduce: 64 bytes to the 32 bytes of their number modulo L.
  method Reduce(r: array<u8>)
    requires r.Length >= 64
    modifies r
    ensures r[..32] == LEBytes(old(LEValue(r[..64])) % ORDER, 32)
    ensures forall k :: 32 <= k < 64 ==> r[k] == 0
  {
    var x := new i64[64](i requires 0 <= i < 64 reads r => r[i]);
    ghost var s: seq<int> := r[..64];
    assert x[..] == s;
    for i := 0 to 64
      invariant forall k :: 0 <= k < i ==> r[k] == 0
      invariant x[..] == s
    {
      r[i] := 0;
    }
    ModL(r, 0, x);
    ReducedBytes(r[..32], LEValue(s));
    assert r[32..64] == r[0 + 32..][..32];
  }

  lemma ReducedBytes(r: seq<int>, v: int)
    requires |r| == 32 && IsBytes(r) && LEValue(r) == v % ORDER
    ensures r == LEBytes(v % ORDER, 32)
  {
    LEValueBound(r);
    ModUnique(v % ORDER, Pow256(|r|), 0, v % ORDER);
    BytesOfLEValue(r, v % ORDER);
  }
}
