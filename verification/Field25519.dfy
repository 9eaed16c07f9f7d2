// Arithmetic modulo p = 2^255 - 19 on sixteen signed limbs of radix 2^16 (src/tweetnacl/tweetnacl.c,
// lines 301 to 413).  A field element is any limb vector; its meaning is the residue Fe.
module Field25519 {
  import opened Bits
  import opened Limbs

  const W: int := 0x10000

  // The integer held in a limb vector.
  function Num(s: seq<int>): int {
    Val(W, s, |s|)
  }

  // ---- the modulus ------------------------------------------------------------------------

  // p is the number in the limbs that pack25519 subtracts.
  function PLimb(k: nat): int {
    if k == 0 then 0xffed else if k == 15 then 0x7fff else 0xffff
  }

  function PLimbs(): (s: seq<int>)
    ensures |s| == 16
  {
    seq(16, k requires 0 <= k < 16 => PLimb(k))
  }

  lemma {:induction false} AllOnes(s: seq<int>, n: nat)
    requires n <= |s| && forall k :: 0 <= k < |s| ==> s[k] == W - 1
    ensures Val(W, s, n) == Pow(W, n) - 1
  {
    if n > 0 {
      AllOnes(s, n - 1);
      MulDistributes(W, 1, Pow(W, n - 1));
    }
  }

  lemma PLimbsValue(n: nat)
    requires n == 15
    ensures Num(PLimbs()) == 0x8000 * Pow(W, n) - 19 && Pow(W, n) > 0
  {
    hide Val;
    var ones := seq(n + 1, _ => W - 1);
    AllOnes(ones, |ones|);
    ValAddAt(W, ones, 0, -18, |ones|);
    var s := ones[0 := ones[0] - 18];
    ValAddAt(W, s, n, -0x8000, |s|);
    assert PLimbs() == s[n := s[n] - 0x8000];
    assert Pow(W, n + 1) == Pow(W, n) * W && Pow(W, 0) == 1;
    PowPositive(W, n);
  }

  // What most proofs use of p; its value is in PValue.
  type Modulus = m: int | m > 1000 witness 1001

  ghost function PNumber(): (m: Modulus) {
    PLimbsValue(15);
    NumberOf(W, PLimbs())
  }

  ghost const P: Modulus := PNumber()

  // 2^256 = 2p + 38
  lemma PowLimbs(n: nat)
    requires n == 16
    ensures Pow(W, n) == 2 * P + 38
  {
    PLimbsValue(n - 1);
  }

  // p = 2^255 - 19
  lemma PValue()
    ensures P == 0x7fffffffffffffffffffffffffffffffffffffffffffffffffffffffffffffed
  {
    PowLimbs(16);
    PowOf16(16);
  }

  lemma PowOf16(n: nat)
    requires n == 16
    ensures Pow(W, n) == 0x1_0000_0000_0000_0000_0000_0000_0000_0000_0000_0000_0000_0000_0000_0000_0000_0000
  {
    assert Pow(W, 4) == 0x1_0000_0000_0000_0000;
    PowAdd(W, 4, 4);
    PowAdd(W, 8, n - 8);
  }

  // ---- residues ---------------------------------------------------------------------------

  ghost function Mod(x: int, m: Modulus): int {
    x % m
  }

  // The residue of x modulo p.  Congruence of x and y is Res(x) == Res(y).  Defined by what it is, so
  // that proofs see the remainder only through ResIsMod.
  ghost function Res(x: int): (r: int)
    ensures 0 <= r < P
  {
    assert IsResidue(x, Mod(x, P));
    var r :| IsResidue(x, r);
    assert Mod(x, P) == r;
    r
  }

  ghost predicate IsResidue(x: int, r: int) {
    forall m: Modulus :: m == P ==> Mod(x, m) == r
  }

  lemma ResIsMod(x: int)
    ensures Res(x) == x % P
  {
    assert Mod(x, P) == Res(x);
  }

  lemma ResSmall(x: int)
    requires 0 <= x < P
    ensures Res(x) == x && x % P == x
  {
    ResIsMod(x);
  }

  lemma ResShift(x: int, k: int)
    ensures Res(x + k * P) == Res(x)
  {
    hide Res;
    ResIsMod(x);
    ResIsMod(x + k * P);
    ModShift(x, k, P);
  }

  lemma ResOfNegative(x: int)
    requires 0 < x < P
    ensures Res(-x) == P - x
  {
    ResIsMod(-x);
    ModUnique(-x, P, -1, P - x);
  }

  lemma ResRes(x: int)
    ensures Res(Res(x)) == Res(x)
  {
    ResSmall(Res(x));
  }

  lemma ResSum(x: int, y: int)
    ensures Res(x + y) == Res(Res(x) + Res(y)) && Res(x - y) == Res(Res(x) - Res(y))
  {
    hide Res;
    ResIsMod(x);
    ResIsMod(y);
    ResIsMod(x + y);
    ResIsMod(x - y);
    ResIsMod(Res(x) + Res(y));
    ResIsMod(Res(x) - Res(y));
    ModAdd(x, y, P);
    ModSub(x, y, P);
  }

  lemma ResProduct(x: int, y: int)
    ensures Res(x * y) == Res(Res(x) * Res(y))
  {
    hide Res;
    ResIsMod(x);
    ResIsMod(y);
    ResIsMod(x * y);
    ResIsMod(Res(x) * Res(y));
    ModMul(x, y, P);
  }

  // ---- field elements ---------------------------------------------------------------------

  // The field element that sixteen limbs stand for.
  ghost function Fe(s: seq<int>): (r: int)
    requires |s| == 16
    ensures 0 <= r < P
  {
    Res(Num(s))
  }

  ghost function FAdd(x: int, y: int): int { Res(x + y) }
  ghost function FSub(x: int, y: int): int { Res(x - y) }
  ghost function FMul(x: int, y: int): int { Res(x * y) }

  // The limb range in which M leaves its result.
  ghost predicate Tight(s: seq<int>) {
    |s| == 16 && -38 <= s[0] < W + 38 && forall k :: 1 <= k < 16 ==> 0 <= s[k] < W
  }

  // The field element in an array of limbs.
  ghost function El(a: array<i64>): (x: int)
    requires a.Length == 16
    reads a
    ensures 0 <= x < P
  {
    Fe(a[..])
  }

  // Every limb of a is at most n times 2^17 in absolute value: a Tight vector weighs 1, and the
  // weights of the operands of a sum or a difference add up.
  ghost predicate Weight(a: array<i64>, n: nat)
    reads a
  {
    a.Length == 16 && forall k :: 0 <= k < 16 ==> -(n * 0x20000) <= a[k] <= n * 0x20000
  }

  // The limb range that M accepts.
  ghost predicate Loose(s: seq<int>) {
    |s| == 16 && forall k :: 0 <= k < 16 ==> -0x4000000 <= s[k] <= 0x4000000
  }

  // The limb range that the carry chain accepts.
  ghost predicate Wide(s: seq<int>) {
    |s| == 16 && forall k :: 0 <= k < 16 ==> -0x4000_0000_0000_0000 <= s[k] <= 0x4000_0000_0000_0000
  }

  ghost predicate Digits(s: seq<int>) {
    |s| == 16 && forall k :: 0 <= k < 16 ==> 0 <= s[k] < W
  }

  // ---- the carry chain --------------------------------------------------------------------

  // The carry that enters limb i.
  function CarryIn(s: seq<int>, i: nat): (c: int)
    requires i <= |s|
    ensures i == 0 ==> c == 0
  {
    if i == 0 then 0 else (s[i - 1] + CarryIn(s, i - 1)) / W
  }

  // The carry out of the last limb.
  function TopCarry(s: seq<int>): int {
    CarryIn(s, |s|)
  }

  // What the carry chain leaves in limb i before the last carry is folded back.
  function LowLimb(s: seq<int>, i: nat): (x: int)
    requires i < |s|
    ensures 0 <= x < W
  {
    (s[i] + CarryIn(s, i)) % W
  }

  function LowLimbs(s: seq<int>): (r: seq<int>)
    requires |s| == 16
    ensures |r| == 16
  {
    seq(16, i requires 0 <= i < 16 => LowLimb(s, i))
  }

  // One pass of the carry chain: the carry out of limb 15 re-enters limb 0 with weight 38.
  function Carried(s: seq<int>): (r: seq<int>)
    requires |s| == 16
    ensures |r| == 16
  {
    var low := LowLimbs(s);
    low[0 := low[0] + 38 * TopCarry(s)]
  }

  lemma {:induction false} CarryBound(s: seq<int>, b: int, i: nat)
    requires b >= 0 && i <= |s| && forall k :: 0 <= k < i ==> -b * W <= s[k] <= b * W
    ensures -2 * b - 1 <= CarryIn(s, i) <= 2 * b + 1
  {
    if i > 0 {
      CarryBound(s, b, i - 1);
    }
  }

  lemma {:induction false} LowLimbsValue(s: seq<int>, n: nat)
    requires |s| == 16 && n <= 16
    ensures Val(W, LowLimbs(s), n) == Val(W, s, n) - CarryIn(s, n) * Pow(W, n)
  {
    if n > 0 {
      LowLimbsValue(s, n - 1);
      DivMod(s[n - 1] + CarryIn(s, n - 1), W);
      CarryMoves(s[n - 1], CarryIn(s, n - 1), CarryIn(s, n), LowLimb(s, n - 1), Pow(W, n - 1), W);
    }
  }

  lemma CarryMoves(x: int, cin: int, cout: int, low: int, p: int, w: int)
    requires low == x + cin - cout * w
    ensures -cin * p + low * p == x * p - cout * (p * w)
  {
    MulDistributes(x + cin, cout * w, p);
    MulDistributes(x, -cin, p);
    NegMul(cin, p);
    MulAssoc(cout, w, p);
    Commute(w, p);
  }

  // A carry pass changes the integer by a multiple of 2p.
  lemma CarriedValue(s: seq<int>)
    requires |s| == 16
    ensures Num(Carried(s)) == Num(s) - 2 * P * TopCarry(s)
    ensures Fe(Carried(s)) == Fe(s)
  {
    hide *;
    FoldedNum(s);
    LowLimbsNum(s);
    FeOf(Carried(s), s, -2 * TopCarry(s));
  }

  lemma CarriedUnfold(s: seq<int>)
    requires |s| == 16
    ensures Carried(s) == LowLimbs(s)[0 := LowLimbs(s)[0] + 38 * TopCarry(s)]
  {
  }

  lemma FoldedNum(s: seq<int>)
    requires |s| == 16
    ensures Num(Carried(s)) == Num(LowLimbs(s)) + 38 * TopCarry(s)
  {
    hide *;
    CarriedUnfold(s);
    AddLow(LowLimbs(s), 38 * TopCarry(s), Carried(s));
  }

  lemma LowLimbsNum(s: seq<int>)
    requires |s| == 16
    ensures Num(LowLimbs(s)) == Num(s) - (2 * P + 38) * TopCarry(s)
  {
    LowLimbsValue(s, |s|);
    LowLimbsTop(s);
  }

  // Limb vectors whose numbers differ by a multiple of p are the same field element.
  lemma FeOf(s: seq<int>, t: seq<int>, k: int)
    requires |s| == |t| == 16 && Num(s) == Num(t) + k * P
    ensures Fe(s) == Fe(t)
  {
    ResShift(Num(t), k);
  }

  lemma LowLimbsTop(s: seq<int>)
    requires |s| == 16
    ensures CarryIn(s, |s|) * Pow(W, |s|) == (2 * P + 38) * TopCarry(s)
  {
    PowLimbs(|s|);
  }

  lemma AddLow(s: seq<int>, d: int, r: seq<int>)
    requires |s| == 16 && r == s[0 := s[0] + d]
    ensures Num(r) == Num(s) + d
  {
    ValAddAt(W, s, 0, d, |s|);
  }

  method Car25519(o: array<i64>)
    requires o.Length == 16 && Wide(o[..])
    modifies o
    ensures o[..] == Carried(old(o[..]))
    ensures Fe(o[..]) == Fe(old(o[..]))
  {
    hide LowLimb, CarryIn, Fe, Num;
    ghost var s: seq<int> := o[..];
    for i := 0 to 16
      invariant forall k :: 0 <= k < i ==> o[k] == LowLimb(s, k) + (if i == 16 && k == 0 then 38 * TopCarry(s) else 0)
      invariant i < 16 ==> o[i] == s[i] + CarryIn(s, i)
      invariant forall k :: i < k < 16 ==> o[k] == s[k]
    {
      CarryBound(s, 0x4000_0000_0000, i);
      CarryBound(s, 0x4000_0000_0000, i + 1);
      CarryStep(o, i, s);
    }
    CarriedValue(s);
  }

  // The body of the loop: move the carry of limb i into the next limb.
  method CarryStep(o: array<i64>, i: nat, ghost s: seq<int>)
    requires o.Length == 16 && i < 16 == |s|
    requires o[i] == s[i] + CarryIn(s, i)
    requires -0x5000_0000_0000_0000 < o[i] < 0x5000_0000_0000_0000
    requires i < 15 ==> -0x5000_0000_0000_0000 < o[i + 1] < 0x5000_0000_0000_0000
    requires i == 15 ==> 0 <= o[0] < 0x10000
    modifies o
    ensures o[i] == LowLimb(s, i)
    ensures i < 15 ==> o[i + 1] == old(o[i + 1]) + CarryIn(s, i + 1)
    ensures i == 15 ==> o[0] == old(o[0]) + 38 * TopCarry(s)
    ensures forall k :: 0 <= k < 16 && k != i && k != (if i < 15 then i + 1 else 0) ==> o[k] == old(o[k])
  {
    o[i] := o[i] + 0x10000;
    var c: i64 := o[i] / 0x10000;
    var next := if i < 15 then i + 1 else 0;
    o[next] := o[next] + (c - 1) + (if i == 15 then 37 * (c - 1) else 0);
    o[i] := o[i] - c * 0x10000;
  }

  // ---- multiplication ---------------------------------------------------------------------

  const B2: int := 0x10_0000_0000_0000   // bound on a product of two Loose limbs

  lemma LimbProduct(x: int, y: int)
    requires -0x4000000 <= x <= 0x4000000 && -0x4000000 <= y <= 0x4000000
    ensures -B2 <= x * y <= B2
  {
    if x >= 0 { BoundedTimes(x, y); } else { BoundedTimes(-x, y); NegMul(x, y); }
  }

  lemma BoundedTimes(x: int, y: int)
    requires 0 <= x <= 0x4000000 && -0x4000000 <= y <= 0x4000000
    ensures -B2 <= x * y <= B2
  {
    MulNonneg(x, 0x4000000 - y);
    MulNonneg(x, 0x4000000 + y);
  }

  lemma MulLeft(c: int, v: int, w: int)
    ensures c * (v + w) == c * v + c * w && (v + w) * c == v * c + w * c
  {
  }

  // The nested loop of M: t becomes the 31-limb product of a and b.
  method Schoolbook(a: array<i64>, b: array<i64>) returns (t: array<i64>)
    requires Loose(a[..]) && Loose(b[..])
    ensures fresh(t) && t.Length == 31
    ensures Num(t[..]) == Num(a[..]) * Num(b[..])
    ensures forall k :: 0 <= k < 31 ==> -16 * B2 <= t[k] <= 16 * B2
  {
    t := new i64[31](_ => 0);
    ghost var sa: seq<int>, sb: seq<int> := a[..], b[..];
    ValOfPrefix(W, t[..], 0, |t[..]|);
    for i := 0 to 16
      invariant a[..] == sa && b[..] == sb
      invariant forall k :: 0 <= k < 31 ==> -(i * B2) <= t[k] <= i * B2
      invariant Num(t[..]) == Val(W, sa, i) * Num(sb)
    {
      AddRow(t, i, a, b);
      MulLeft(Num(sb), Val(W, sa, i), sa[i] * Pow(W, i));
    }
  }

  method AddRow(t: array<i64>, i: nat, a: array<i64>, b: array<i64>)
    requires t.Length == 31 && t != a && t != b && i < 16
    requires Loose(a[..]) && Loose(b[..])
    requires forall k :: 0 <= k < 31 ==> -(i * B2) <= t[k] <= i * B2
    modifies t
    ensures forall k :: 0 <= k < 31 ==> -(i + 1) * B2 <= t[k] <= (i + 1) * B2
    ensures Num(t[..]) == old(Num(t[..])) + (a[i] * Pow(W, i)) * Num(b[..])
  {
    hide Val, Pow;
    ghost var sb: seq<int>, v := b[..], Num(t[..]);
    ValOfNone(W, sb);
    for j := 0 to 16
      invariant b[..] == sb && a[..] == old(a[..])
      invariant forall k :: 0 <= k < 31 && i <= k < i + j ==> -(i + 1) * B2 <= t[k] <= (i + 1) * B2
      invariant forall k :: 0 <= k < 31 && !(i <= k < i + j) ==> -(i * B2) <= t[k] <= i * B2
      invariant Num(t[..]) == v + (a[i] * Pow(W, i)) * Val(W, sb, j)
    {
      LimbProduct(a[i], b[j]);
      var product: i64 := a[i] * b[j];
      ghost var before: seq<int> := t[..];
      t[i + j] := t[i + j] + product;
      assert t[..] == before[i + j := before[i + j] + product];
      ValAddAt(W, before, i + j, product, |before|);
      RowTerm(W, sb, a[i], i, j);
    }
  }

  // Limbs 16 to 30 weigh 2^256 = 38 (mod p) times limbs 0 to 14.
  method FoldHigh(t: array<i64>)
    requires t.Length == 31
    requires forall k :: 0 <= k < 31 ==> -16 * B2 <= t[k] <= 16 * B2
    modifies t
    ensures Wide(t[..16])
    ensures forall k :: 0 <= k < 15 ==> t[k] == old(t[k]) + 38 * old(t[k + 16])
    ensures t[15] == old(t[15])
  {
    for i := 0 to 15
      invariant forall k :: i <= k < 31 ==> t[k] == old(t[k])
      invariant forall k :: 0 <= k < i ==> t[k] == old(t[k]) + 38 * old(t[k + 16])
    {
      var term: i64 := 38 * t[i + 16];
      t[i] := t[i] + term;
    }
  }

  lemma FoldedValue(s: seq<int>, r: seq<int>)
    requires |s| == 31 && |r| == 16 && r[15] == s[15]
    requires forall k :: 0 <= k < 15 ==> r[k] == s[k] + 38 * s[k + 16]
    ensures Fe(r) == Res(Num(s))
  {
    var hi := s[16..] + [0];
    FoldedLinear(s, r, hi);
    SplitHigh(s, hi);
    ResShift(Num(r), 2 * Num(hi));
  }

  lemma FoldedLinear(s: seq<int>, r: seq<int>, hi: seq<int>)
    requires |s| == 31 && |r| == |hi| == 16 && r[15] == s[15] && hi[15] == 0
    requires forall k :: 0 <= k < 15 ==> r[k] == s[k] + 38 * s[k + 16] && hi[k] == s[k + 16]
    ensures Num(r) == Num(s[..16]) + 38 * Num(hi)
  {
    var lo := s[..16];
    forall k | 0 <= k < 16
      ensures r[k] == lo[k] + 38 * hi[k]
    {
      if k < 15 {
        assert r[k] == s[k] + 38 * s[k + 16];
      }
    }
    ValLinear(W, lo, hi, 38, r, |r|);
  }

  lemma SplitHigh(s: seq<int>, hi: seq<int>)
    requires |s| == 31 && hi == s[16..] + [0]
    ensures Num(s) == Num(s[..16]) + (2 * P + 38) * Num(hi)
  {
    var m := |s| - 15;
    ValSplit(W, s, m, |s| - m);
    ValAgree(W, s, s[..16], m);
    ValAgree(W, s[m..], hi, |s| - m);
    PowLimbs(m);
  }

  // o := a * b.  The output may be one of the inputs.
  method M(o: array<i64>, a: array<i64>, b: array<i64>, ghost m: nat, ghost n: nat)
    requires o.Length == 16 && Weight(a, m) && Weight(b, n) && m <= 512 && n <= 512
    modifies o
    ensures Tight(o[..]) && Weight(o, 1)
    ensures El(o) == FMul(old(El(a)), old(El(b)))
  {
    ResProduct(Num(a[..]), Num(b[..]));
    var t := Schoolbook(a, b);
    ghost var product: seq<int> := t[..];
    FoldHigh(t);
    FoldedValue(product, t[..16]);
    CopyLimbs(o, t);
    TwoCarries(o[..]);
    Car25519(o);
    Car25519(o);
  }

  method CopyLimbs(o: array<i64>, t: array<i64>)
    requires o.Length == 16 && t.Length >= 16 && o != t
    modifies o
    ensures o[..] == t[..16]
  {
    for i := 0 to 16
      invariant forall k :: 0 <= k < i ==> o[k] == t[k]
    {
      o[i] := t[i];
    }
  }

  method S(o: array<i64>, a: array<i64>, ghost m: nat)
    requires o.Length == 16 && Weight(a, m) && m <= 512
    modifies o
    ensures Tight(o[..]) && Weight(o, 1)
    ensures El(o) == FMul(old(El(a)), old(El(a)))
  {
    M(o, a, a, m, m);
  }

  // The sums, and the differences, of the limbs fit into a word.
  ghost predicate SumFits(a: array<i64>, b: array<i64>)
    reads a, b
  {
    a.Length == 16 && b.Length == 16 && forall k :: 0 <= k < 16 ==> -0x8000_0000_0000_0000 <= a[k] + b[k] < 0x8000_0000_0000_0000
  }

  ghost predicate DifferenceFits(a: array<i64>, b: array<i64>)
    reads a, b
  {
    a.Length == 16 && b.Length == 16 && forall k :: 0 <= k < 16 ==> -0x8000_0000_0000_0000 <= a[k] - b[k] < 0x8000_0000_0000_0000
  }

  // o := a + b and o := a - b, limb by limb and without carrying; the output may be an input.  The
  // weights of the operands add up.
  method A(o: array<i64>, a: array<i64>, b: array<i64>, ghost m: nat, ghost n: nat)
    requires o.Length == 16 && (SumFits(a, b) || (Weight(a, m) && Weight(b, n) && m + n <= 512))
    modifies o
    ensures old(Weight(a, m) && Weight(b, n)) ==> Weight(o, m + n)
    ensures El(o) == FAdd(old(El(a)), old(El(b)))
  {
    ghost var x: seq<int>, y: seq<int> := a[..], b[..];
    assert forall k :: 0 <= k < 16 ==> -0x8000_0000_0000_0000 <= x[k] + y[k] < 0x8000_0000_0000_0000;
    for i := 0 to 16
      invariant forall k :: 0 <= k < i ==> o[k] == x[k] + y[k]
      invariant forall k :: i <= k < 16 ==> a[k] == x[k] && b[k] == y[k]
    {
      o[i] := a[i] + b[i];
    }
    SumValue(x, y, o[..]);
  }

  lemma SumValue(x: seq<int>, y: seq<int>, r: seq<int>)
    requires |x| == |y| == |r| == 16 && forall k :: 0 <= k < 16 ==> r[k] == x[k] + y[k]
    ensures Fe(r) == FAdd(Fe(x), Fe(y))
  {
    ValLinear(W, x, y, 1, r, |x|);
    ResSum(Num(x), Num(y));
  }

  method Z(o: array<i64>, a: array<i64>, b: array<i64>, ghost m: nat, ghost n: nat)
    requires o.Length == 16 && (DifferenceFits(a, b) || (Weight(a, m) && Weight(b, n) && m + n <= 512))
    modifies o
    ensures old(Weight(a, m) && Weight(b, n)) ==> Weight(o, m + n)
    ensures El(o) == FSub(old(El(a)), old(El(b)))
  {
    ghost var x: seq<int>, y: seq<int> := a[..], b[..];
    assert forall k :: 0 <= k < 16 ==> -0x8000_0000_0000_0000 <= x[k] - y[k] < 0x8000_0000_0000_0000;
    for i := 0 to 16
      invariant forall k :: 0 <= k < i ==> o[k] == x[k] - y[k]
      invariant forall k :: i <= k < 16 ==> a[k] == x[k] && b[k] == y[k]
    {
      o[i] := a[i] - b[i];
    }
    DifferenceValue(x, y, o[..]);
  }

  lemma DifferenceValue(x: seq<int>, y: seq<int>, r: seq<int>)
    requires |x| == |y| == |r| == 16 && forall k :: 0 <= k < 16 ==> r[k] == x[k] - y[k]
    ensures Fe(r) == FSub(Fe(x), Fe(y))
  {
    ValLinear(W, x, y, -1, r, |x|);
    ResSum(Num(x), Num(y));
  }

  method Set25519(r: array<i64>, a: array<i64>)
    requires r.Length == 16 && a.Length == 16
    modifies r
    ensures r[..] == old(a[..]) && El(r) == old(El(a))
    ensures forall n: nat :: old(Weight(a, n)) ==> Weight(r, n)
  {
    for i := 0 to 16
      invariant forall k :: 0 <= k < i ==> r[k] == old(a[k])
      invariant forall k :: i <= k < 16 ==> a[k] == old(a[k])
    {
      r[i] := a[i];
    }
  }

  // Two carry passes bring any Wide vector into the Tight range.
  lemma TwoCarries(s: seq<int>)
    requires Wide(s)
    ensures Wide(Carried(s)) && Tight(Carried(Carried(s)))
  {
    OneCarry(s);
    SecondCarry(Carried(s));
  }

  lemma OneCarry(s: seq<int>)
    requires Wide(s)
    ensures Wide(Carried(s))
    ensures -0x20_0000_0000_0000 < Carried(s)[0] < 0x20_0000_0000_0000
    ensures forall k :: 1 <= k < 16 ==> 0 <= Carried(s)[k] < W
  {
    CarryBound(s, 0x4000_0000_0000, |s|);
  }

  // Once limbs 1 to 15 are digits, the carry dies out on its way up.
  lemma SecondCarry(s: seq<int>)
    requires |s| == 16 && -0x20_0000_0000_0000 < s[0] < 0x20_0000_0000_0000
    requires forall k :: 1 <= k < 16 ==> 0 <= s[k] < W
    ensures -1 <= TopCarry(s) <= 1 && Tight(Carried(s))
  {
    FirstCarries(s);
    SmallCarry(s, 4, |s|);
  }

  lemma FirstCarries(s: seq<int>)
    requires |s| == 16 && -0x20_0000_0000_0000 < s[0] < 0x20_0000_0000_0000
    requires forall k :: 1 <= k < 16 ==> 0 <= s[k] < W
    ensures -1 <= CarryIn(s, 4) <= 1
  {
    assert -0x20_0000_0000 <= CarryIn(s, 1) <= 0x20_0000_0000;
    assert -0x20_0001 <= CarryIn(s, 2) <= 0x20_0001;
    assert -0x22 <= CarryIn(s, 3) <= 0x22;
  }

  lemma {:induction false} SmallCarry(s: seq<int>, i: nat, n: nat)
    requires 1 <= i <= n <= |s| && -1 <= CarryIn(s, i) <= 1
    requires forall k :: i <= k < n ==> 0 <= s[k] < W
    ensures -1 <= CarryIn(s, n) <= 1
  {
    if i < n {
      SmallCarry(s, i, n - 1);
    }
  }
}
