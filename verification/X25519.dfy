// X25519 (src/tweetnacl/tweetnacl.c, lines 415 to 468) against the pseudo-code of section 5 of
// RFC 7748.
module X25519 {
  import opened Bits
  import opened Bytes
  import opened Limbs
  import opened Field25519
  import opened FieldBytes
  import opened FieldPower

  // ---- RFC 7748, section 5 ------------------------------------------------------------------

  // decodeScalar25519, on the bytes.
  function ClampedBytes(n: seq<int>): (s: seq<int>)
    requires |n| == 32
    ensures |s| == 32
  {
    [And(n[0], 248)] + n[1..31] + [Or(And(n[31], 127), 64)]
  }

  datatype Ladder = Ladder(x2: int, z2: int, x3: int, z3: int, swap: int)

  const A24: int := 121665

  function CSwap(swap: int, s: Ladder): Ladder {
    if swap == 1 then s.(x2 := s.x3, x3 := s.x2, z2 := s.z3, z3 := s.z2) else s
  }

  // The differential addition and doubling of one loop round.
  ghost function Formulas(x1: int, s: Ladder): Ladder {
    var A := FAdd(s.x2, s.z2);
    var AA := FMul(A, A);
    var B := FSub(s.x2, s.z2);
    var BB := FMul(B, B);
    var E := FSub(AA, BB);
    var C := FAdd(s.x3, s.z3);
    var D := FSub(s.x3, s.z3);
    var DA := FMul(D, A);
    var CB := FMul(C, B);
    var sum, dif := FAdd(DA, CB), FSub(DA, CB);
    s.(x3 := FMul(sum, sum),
       z3 := FMul(x1, FMul(dif, dif)),
       x2 := FMul(AA, BB),
       z2 := FMul(E, FAdd(AA, FMul(A24, E))))
  }

  // One round for the bit kt, with the swap of the RFC that is carried over to the next round.
  ghost function Round(x1: int, kt: int, s: Ladder): Ladder {
    var t := CSwap(Xor(s.swap, kt), s);
    Formulas(x1, t).(swap := kt)
  }

  // The state after the rounds t = 254, ..., from.
  ghost function Rounds(x1: int, k: int, from: nat): Ladder
    requires from <= 255
    decreases 255 - from
  {
    if from == 255 then Ladder(1, 0, x1, 1, 0) else Round(x1, Bit(k, from), Rounds(x1, k, from + 1))
  }

  // X25519(k, u) for the scalar k and the u-coordinate x1, as a field element and as bytes.
  ghost function LadderResult(k: int, x1: int): int {
    var s := Rounds(x1, k, 0);
    var t := CSwap(s.swap, s);
    FMul(t.x2, FInv(t.z2))
  }

  ghost function Spec(n: seq<int>, p: seq<int>): seq<int>
    requires |n| == 32 && |p| == 32
  {
    LEBytes(LadderResult(LEValue(ClampedBytes(n)), Decode(p) % P), 32)
  }

  // ---- the eager double selection -------------------------------------------------------------

  // What the source keeps between rounds: the RFC state with its pending swap carried out.
  function Settled(s: Ladder): Ladder {
    CSwap(s.swap, s).(swap := 0)
  }

  // Swapping before and after every round with the bit of that round is the lazy swap of the RFC.
  lemma EagerSwap(x1: int, kt: int, s: Ladder)
    requires (s.swap == 0 || s.swap == 1) && (kt == 0 || kt == 1)
    ensures Settled(Round(x1, kt, s)) == CSwap(kt, Formulas(x1, CSwap(kt, Settled(s))))
  {
    assert Xor(0, 0) == 0 && Xor(0, 1) == 1 && Xor(1, 0) == 1 && Xor(1, 1) == 0;
  }

  // ---- the source's ladder --------------------------------------------------------------------

  // The field operations of one round in the order of the source, with its in-place reuse of
  // a, b, c and d undone.
  ghost function SourceFormulas(x1: int, s: Ladder): Ladder {
    var e := FAdd(s.x2, s.z2);
    var a := FSub(s.x2, s.z2);
    var c := FAdd(s.x3, s.z3);
    var b := FSub(s.x3, s.z3);
    var d := FMul(e, e);
    var f := FMul(a, a);
    var a1 := FMul(c, a);
    var c1 := FMul(b, e);
    var e1 := FAdd(a1, c1);
    var a2 := FSub(a1, c1);
    var b1 := FMul(a2, a2);
    var c2 := FSub(d, f);
    var a3 := FAdd(FMul(c2, A24), d);
    s.(x2 := FMul(d, f), z2 := FMul(c2, a3), x3 := FMul(e1, e1), z3 := FMul(b1, x1))
  }

  lemma FMulCommutes(x: int, y: int)
    ensures FMul(x, y) == FMul(y, x)
  {
  }

  lemma FAddCommutes(x: int, y: int)
    ensures FAdd(x, y) == FAdd(y, x)
  {
  }

  lemma SquareOfDifference(x: int, y: int)
    ensures FMul(FSub(x, y), FSub(x, y)) == FMul(FSub(y, x), FSub(y, x))
  {
    ResProduct(x - y, x - y);
    ResProduct(y - x, y - x);
    NegSquare(x - y);
  }

  lemma SourceOrder(x1: int, s: Ladder)
    ensures SourceFormulas(x1, s) == Formulas(x1, s)
  {
    hide FAdd, FSub, FMul;
    var A, B := FAdd(s.x2, s.z2), FSub(s.x2, s.z2);
    var C, D := FAdd(s.x3, s.z3), FSub(s.x3, s.z3);
    var AA, BB := FMul(A, A), FMul(B, B);
    var E, DA, CB := FSub(AA, BB), FMul(D, A), FMul(C, B);
    FAddCommutes(DA, CB);
    SquareOfDifference(DA, CB);
    FMulCommutes(E, A24);
    FAddCommutes(FMul(E, A24), AA);
    FMulCommutes(FMul(FSub(CB, DA), FSub(CB, DA)), x1);
  }

  // The field element held by the arrays of the ladder.
  ghost function State(a: array<i64>, b: array<i64>, c: array<i64>, d: array<i64>): Ladder
    requires a.Length == b.Length == c.Length == d.Length == 16
    reads a, b, c, d
  {
    Ladder(El(a), El(c), El(b), El(d), 0)
  }

  ghost predicate Ready(a: array<i64>, b: array<i64>, c: array<i64>, d: array<i64>)
    reads a, b, c, d
  {
    a.Length == b.Length == c.Length == d.Length == 16 &&
    Weight(a, 1) && Weight(b, 1) && Weight(c, 1) && Weight(d, 1)
  }

  // Lines 437 to 454: the field operations of one round, in place.
  method RoundInPlace(a: array<i64>, b: array<i64>, c: array<i64>, d: array<i64>, e: array<i64>, f: array<i64>,
                      x: array<i64>, a24: array<i64>)
    requires Ready(a, b, c, d) && e.Length == f.Length == x.Length == a24.Length == 16
    requires a != b && a != c && a != d && a != e && a != f && a != x && a != a24
    requires b != c && b != d && b != e && b != f && b != x && b != a24
    requires c != d && c != e && c != f && c != x && c != a24
    requires d != e && d != f && d != x && d != a24
    requires e != f && e != x && e != a24 && f != x && f != a24
    requires Weight(x, 1) && Weight(a24, 1) && El(a24) == A24
    modifies a, b, c, d, e, f
    ensures Ready(a, b, c, d)
    ensures State(a, b, c, d) == Formulas(old(El(x)), old(State(a, b, c, d)))
  {
    hide El, Weight, FAdd, FSub, FMul, Formulas;
    SourceOrder(El(x), State(a, b, c, d));
    A(e, a, c, 1, 1);
    Z(a, a, c, 1, 1);
    A(c, b, d, 1, 1);
    Z(b, b, d, 1, 1);
    S(d, e, 2);
    S(f, a, 2);
    M(a, c, a, 2, 2);
    M(c, b, e, 2, 2);
    A(e, a, c, 1, 1);
    Z(a, a, c, 1, 1);
    S(b, a, 2);
    Z(c, d, f, 1, 1);
    M(a, c, a24, 2, 1);
    A(a, a, d, 1, 1);
    M(c, c, a, 2, 2);
    M(a, d, f, 1, 1);
    M(d, b, x, 1, 1);
    S(b, e, 2);
  }

  // Lines 434 to 456: select, compute, select back.
  method SelectedRound(a: array<i64>, b: array<i64>, c: array<i64>, d: array<i64>, e: array<i64>, f: array<i64>,
                       x: array<i64>, a24: array<i64>, r: int)
    requires Ready(a, b, c, d) && e.Length == f.Length == x.Length == a24.Length == 16
    requires a != b && a != c && a != d && a != e && a != f && a != x && a != a24
    requires b != c && b != d && b != e && b != f && b != x && b != a24
    requires c != d && c != e && c != f && c != x && c != a24
    requires d != e && d != f && d != x && d != a24
    requires e != f && e != x && e != a24 && f != x && f != a24
    requires Weight(x, 1) && Weight(a24, 1) && El(a24) == A24 && (r == 0 || r == 1)
    modifies a, b, c, d, e, f
    ensures Ready(a, b, c, d)
    ensures State(a, b, c, d) == CSwap(r, Formulas(old(El(x)), CSwap(r, old(State(a, b, c, d)))))
  {
    hide El, Weight, Formulas;
    Sel25519(a, b, r);
    Sel25519(c, d, r);
    RoundInPlace(a, b, c, d, e, f, x, a24);
    Sel25519(a, b, r);
    Sel25519(c, d, r);
  }

  method Clamp(n: array<u8>) returns (z: array<u8>)
    requires n.Length >= 32
    ensures fresh(z) && z.Length == 32 && z[..] == ClampedBytes(n[..32])
  {
    z := new u8[32];
    for i := 0 to 31
      invariant forall k :: 0 <= k < i ==> z[k] == n[k]
    {
      z[i] := n[i];
    }
    Pow2Values();
    AndBound(n[0], 248, 8);
    AndBound(n[31], 127, 8);
    OrBound(And(n[31], 127), 64, 8);
    z[31] := Or(And(n[31], 127), 64);
    z[0] := And(z[0], 248);
  }

  method Constant(lo: i64, hi: i64) returns (g: array<i64>)
    requires 0 <= lo < 0x10000 && 0 <= hi < 0x8000
    ensures fresh(g) && Weight(g, 1) && El(g) == lo + 0x10000 * hi
  {
    g := new i64[16](_ => 0);
    g[0], g[1] := lo, hi;
    TwoLimbs(g[..], |g[..]|);
    PValue();
    ResSmall(lo + 0x10000 * hi);
  }

  lemma {:induction false} TwoLimbs(s: seq<int>, n: nat)
    requires 2 <= n <= |s| && forall k :: 2 <= k < |s| ==> s[k] == 0
    ensures Val(W, s, n) == s[0] + W * s[1]
  {
    if n > 2 {
      TwoLimbs(s, n - 1);
    } else {
      assert Val(W, s, n - 1) == s[0];
      assert Pow(W, n - 1) == W;
    }
  }

  // Lines 428 to 432: the initial state.
  method StartLadder(x: array<i64>, ghost k: int)
    returns (a: array<i64>, b: array<i64>, c: array<i64>, d: array<i64>)
    requires Weight(x, 1) && x.Length == 16
    ensures fresh(a) && fresh(b) && fresh(c) && fresh(d)
    ensures a != b && a != c && a != d && b != c && b != d && c != d
    ensures Ready(a, b, c, d) && State(a, b, c, d) == Settled(Rounds(El(x), k, 255))
  {
    hide El, Weight, Formulas;
    a := Constant(1, 0);
    b := new i64[16];
    Set25519(b, x);
    c := Constant(0, 0);
    d := Constant(1, 0);
  }

  // Lines 433 to 457: the 255 rounds.
  method RunLadder(z: array<u8>, x: array<i64>) returns (a: array<i64>, c: array<i64>)
    requires z.Length == 32 && Weight(x, 1) && x.Length == 16
    ensures fresh(a) && fresh(c) && a != c && a.Length == c.Length == 16 && Weight(a, 1) && Weight(c, 1)
    ensures var s := Settled(Rounds(El(x), LEValue(z[..]), 0)); El(a) == s.x2 && El(c) == s.z2
  {
    hide El, Weight, Formulas, Settled, LEValue;
    ghost var k, x1, bytes: seq<int> := LEValue(z[..]), El(x), z[..];
    var b, d;
    a, b, c, d := StartLadder(x, k);
    var a24 := Constant(0xDB41, 1);
    var e, f := new i64[16], new i64[16];
    for i := 255 downto 0
      invariant z[..] == bytes && Ready(a, b, c, d)
      invariant Weight(x, 1) && El(x) == x1 && Weight(a24, 1) && El(a24) == A24
      invariant State(a, b, c, d) == Settled(Rounds(x1, k, i))
    {
      var r := ScalarBit(z, i);
      RoundsStep(x1, k, i);
      SelectedRound(a, b, c, d, e, f, x, a24, r);
    }
  }

  method ScalarBit(z: array<u8>, i: nat) returns (r: int)
    requires z.Length == 32 && i < 256
    ensures r == Bit(LEValue(z[..]), i)
  {
    BitOfByte(z[..], i);
    r := And(z[i / 8] / Pow2(i % 8), 1);
  }

  // One round of the source takes the settled RFC state of the previous round to that of the next.
  lemma RoundsStep(x1: int, k: int, i: nat)
    requires i < 255
    ensures var r := Bit(k, i);
      (r == 0 || r == 1) &&
      Settled(Rounds(x1, k, i)) == CSwap(r, Formulas(x1, CSwap(r, Settled(Rounds(x1, k, i + 1)))))
  {
    EagerSwap(x1, Bit(k, i), Rounds(x1, k, i + 1));
  }

  // Lines 458 to 466: q := x2 / z2, packed.
  method Finish(q: array<u8>, a: array<i64>, c: array<i64>)
    requires q.Length >= 32 && a.Length == c.Length == 16 && Weight(a, 1) && Weight(c, 1)
    modifies q
    ensures q[..32] == LEBytes(FMul(El(a), FInv(El(c))), 32)
    ensures q[32..] == old(q[32..])
  {
    hide El, Weight, FMul;
    // the windows x+16 and x+32 of the source's scratch array
    var num, den := new i64[16], new i64[16];
    Set25519(num, a);
    Set25519(den, c);
    Inv25519(den, den, 1);
    M(num, num, den, 1, 1);
    Pack25519(q, num);
  }

  // q may be one of the inputs: it is written only at the end.
  method CryptoScalarmult(q: array<u8>, n: array<u8>, p: array<u8>) returns (ret: int)
    requires q.Length >= 32 && n.Length >= 32 && p.Length >= 32
    modifies q
    ensures ret == 0
    ensures q[..32] == Spec(old(n[..32]), old(p[..32]))
    ensures q[32..] == old(q[32..])
  {
    var z := Clamp(n);
    var x := new i64[16];
    Unpack25519(x, p);
    var a, c := RunLadder(z, x);
    Finish(q, a, c);
    ret := 0;
  }
}
