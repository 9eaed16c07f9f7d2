// SHA-512 (src/tweetnacl/tweetnacl.c, lines 57 to 79 and 532 to 635) against FIPS 180-4.
module Sha512 {
  import opened Bits
  import opened Bytes
  import opened Limbs

  const M64: int := 0x1_0000_0000_0000_0000

  // ---- FIPS 180-4, sections 3.2 and 4.1.3 -----------------------------------------------------

  function Add64(x: u64, y: u64): u64 {
    (x + y) % M64
  }

  function Xor64(x: u64, y: u64): u64 {
    Pow2Values();
    XorBound(x, y, 64);
    Xor(x, y)
  }

  function And64(x: u64, y: u64): u64 {
    Pow2Values();
    AndBound(x, y, 64);
    And(x, y)
  }

  function Not64(x: u64): u64 {
    M64 - 1 - x
  }

  // x >> c
  function Shr(x: u64, c: nat): u64 {
    ShiftBound(x, Pow2(c));
    x / Pow2(c)
  }

  lemma ShiftBound(x: int, p: int)
    requires 0 <= x < M64 && p > 0
    ensures 0 <= x / p < M64
  {
    DivMod(x, p);
    if x / p >= M64 {
      MulNonneg(x / p - M64, p);
      MulDistributes(x / p, M64, p);
      MulNonneg(M64, p - 1);
    } else if x / p < 0 {
      MulNonneg(-1 - x / p, p);
      MulDistributes(-1, x / p, p);
    }
  }

  // R: rotation to the right.
  function Rotr(x: u64, c: nat): u64
    requires 0 < c < 64
  {
    Pow2Values();
    OrBound(Shr(x, c), x * Pow2(64 - c) % M64, 64);
    Or(Shr(x, c), x * Pow2(64 - c) % M64)
  }

  function Ch(x: u64, y: u64, z: u64): u64 {
    Xor64(And64(x, y), And64(Not64(x), z))
  }

  function Maj(x: u64, y: u64, z: u64): u64 {
    Xor64(Xor64(And64(x, y), And64(x, z)), And64(y, z))
  }

  function BigSigma0(x: u64): u64 {
    Xor64(Xor64(Rotr(x, 28), Rotr(x, 34)), Rotr(x, 39))
  }

  function BigSigma1(x: u64): u64 {
    Xor64(Xor64(Rotr(x, 14), Rotr(x, 18)), Rotr(x, 41))
  }

  function Sigma0(x: u64): u64 {
    Xor64(Xor64(Rotr(x, 1), Rotr(x, 8)), Shr(x, 7))
  }

  function Sigma1(x: u64): u64 {
    Xor64(Xor64(Rotr(x, 19), Rotr(x, 61)), Shr(x, 6))
  }

  // The round constants, in rows of eight.
  function K(t: nat): u64
    requires t < 80
  {
    KRow(t / 8)[t % 8]
  }

  function KRow(r: nat): (k: seq<u64>)
    requires r < 10
    ensures |k| == 8
  {
    if r == 0 then
      [0x428a2f98d728ae22, 0x7137449123ef65cd, 0xb5c0fbcfec4d3b2f, 0xe9b5dba58189dbbc,
       0x3956c25bf348b538, 0x59f111f1b605d019, 0x923f82a4af194f9b, 0xab1c5ed5da6d8118]
    else if r == 1 then
      [0xd807aa98a3030242, 0x12835b0145706fbe, 0x243185be4ee4b28c, 0x550c7dc3d5ffb4e2,
       0x72be5d74f27b896f, 0x80deb1fe3b1696b1, 0x9bdc06a725c71235, 0xc19bf174cf692694]
    else if r == 2 then
      [0xe49b69c19ef14ad2, 0xefbe4786384f25e3, 0x0fc19dc68b8cd5b5, 0x240ca1cc77ac9c65,
       0x2de92c6f592b0275, 0x4a7484aa6ea6e483, 0x5cb0a9dcbd41fbd4, 0x76f988da831153b5]
    else if r == 3 then
      [0x983e5152ee66dfab, 0xa831c66d2db43210, 0xb00327c898fb213f, 0xbf597fc7beef0ee4,
       0xc6e00bf33da88fc2, 0xd5a79147930aa725, 0x06ca6351e003826f, 0x142929670a0e6e70]
    else if r == 4 then
      [0x27b70a8546d22ffc, 0x2e1b21385c26c926, 0x4d2c6dfc5ac42aed, 0x53380d139d95b3df,
       0x650a73548baf63de, 0x766a0abb3c77b2a8, 0x81c2c92e47edaee6, 0x92722c851482353b]
    else if r == 5 then
      [0xa2bfe8a14cf10364, 0xa81a664bbc423001, 0xc24b8b70d0f89791, 0xc76c51a30654be30,
       0xd192e819d6ef5218, 0xd69906245565a910, 0xf40e35855771202a, 0x106aa07032bbd1b8]
    else if r == 6 then
      [0x19a4c116b8d2d0c8, 0x1e376c085141ab53, 0x2748774cdf8eeb99, 0x34b0bcb5e19b48a8,
       0x391c0cb3c5c95a63, 0x4ed8aa4ae3418acb, 0x5b9cca4f7763e373, 0x682e6ff3d6b2b8a3]
    else if r == 7 then
      [0x748f82ee5defb2fc, 0x78a5636f43172f60, 0x84c87814a1f0ab72, 0x8cc702081a6439ec,
       0x90befffa23631e28, 0xa4506cebde82bde9, 0xbef9a3f7b2c67915, 0xc67178f2e372532b]
    else if r == 8 then
      [0xca273eceea26619c, 0xd186b8c721c0c207, 0xeada7dd6cde0eb1e, 0xf57d4f7fee6ed178,
       0x06f067aa72176fba, 0x0a637dc5a2c898a6, 0x113f9804bef90dae, 0x1b710b35131c471b]
    else
      [0x28db77f523047d84, 0x32caab7b40c72493, 0x3c9ebe0a15c9bebc, 0x431d67c49c100d4c,
       0x4cc5d4becb3e42b6, 0x597f299cfc657e2a, 0x5fcb6fab3ad6faec, 0x6c44198c4a475817]
  }

  // ---- FIPS 180-4, section 6.4.2 ---------------------------------------------------------------

  // Sum of four words.
  function Sum4(x: u64, y: u64, z: u64, w: u64): u64 {
    (x + y + z + w) % M64
  }

  // The message schedule W_t of a block of sixteen words.
  function W(b: seq<u64>, t: nat): u64
    requires |b| == 16
  {
    if t < 16 then b[t] else Sum4(Sigma1(W(b, t - 2)), W(b, t - 7), Sigma0(W(b, t - 15)), W(b, t - 16))
  }

  datatype State = State(a: u64, b: u64, c: u64, d: u64, e: u64, f: u64, g: u64, h: u64)

  // Step 3 of the compression for the round constant k and the schedule word w.
  function Round(s: State, k: u64, w: u64): State {
    var t1 := (s.h + BigSigma1(s.e) + Ch(s.e, s.f, s.g) + k + w) % M64;
    var t2 := (BigSigma0(s.a) + Maj(s.a, s.b, s.c)) % M64;
    State(Add64(t1, t2), s.a, s.b, s.c, Add64(s.d, t1), s.e, s.f, s.g)
  }

  function Rounds(s: State, b: seq<u64>, t: nat): State
    requires |b| == 16 && t <= 80
  {
    if t == 0 then s else Round(Rounds(s, b, t - 1), K(t - 1), W(b, t - 1))
  }

  // The working variables after all rounds.
  function CompressRounds(s: State, b: seq<u64>): State
    requires |b| == 16
  {
    Rounds(s, b, 5 * |b|)
  }

  // Step 4: the working variables are added to the chaining value.
  function AddState(s: State, t: State): State {
    State(Add64(s.a, t.a), Add64(s.b, t.b), Add64(s.c, t.c), Add64(s.d, t.d),
          Add64(s.e, t.e), Add64(s.f, t.f), Add64(s.g, t.g), Add64(s.h, t.h))
  }

  function Compress(s: State, b: seq<u64>): State
    requires |b| == 16
  {
    AddState(s, CompressRounds(s, b))
  }

  // ---- big-endian words -----------------------------------------------------------------------

  // The big-endian number in the first n bytes of b[o..].
  function BEValue(b: seq<int>, o: nat, n: nat): int
    requires o + n <= |b|
  {
    if n == 0 then 0 else 256 * BEValue(b, o, n - 1) + b[o + n - 1]
  }

  // The n low bytes of x, most significant first.
  function BEBytes(x: int, n: nat): (s: seq<int>)
    ensures |s| == n && IsBytes(s)
    decreases n
  {
    if n == 0 then [] else BEBytes(x / 256, n - 1) + [x % 256]
  }

  lemma {:induction false} BEValueAgree(b: seq<int>, o: nat, c: seq<int>, p: nat, n: nat)
    requires o + n <= |b| && p + n <= |c| && b[o..o + n] == c[p..p + n]
    ensures BEValue(b, o, n) == BEValue(c, p, n)
  {
    if n > 0 {
      assert b[o..o + n - 1] == b[o..o + n][..n - 1] && c[p..p + n - 1] == c[p..p + n][..n - 1];
      assert b[o + n - 1] == b[o..o + n][n - 1] == c[p..p + n][n - 1] == c[p + n - 1];
      BEValueAgree(b, o, c, p, n - 1);
    }
  }

  lemma {:induction false} BEValueBound(b: seq<int>, o: nat, n: nat)
    requires o + n <= |b| && IsBytes(b)
    ensures 0 <= BEValue(b, o, n) < Pow256(n)
  {
    if n > 0 {
      BEValueBound(b, o, n - 1);
    }
  }

  lemma {:induction false} BERoundTrip(x: int, n: nat)
    ensures BEValue(BEBytes(x, n), 0, n) == x % Pow256(n)
    decreases n
  {
    if n > 0 {
      var s, t := BEBytes(x / 256, n - 1), BEBytes(x, n);
      assert s[0..n - 1] == t[0..n - 1] && t[n - 1] == x % 256;
      BEValueAgree(s, 0, t, 0, n - 1);
      BERoundTrip(x / 256, n - 1);
      HighSplit(x, Pow256(n - 1));
      assert Pow256(n) == Pow256(n - 1) * 256;
    }
  }

  lemma HighSplit(x: int, p: int)
    requires p > 0
    ensures x % (p * 256) == 256 * (x / 256 % p) + x % 256
  {
    DivMod(x / 256, p);
    var q, r := x / 256 / p, x / 256 % p;
    assert q * (p * 256) == 256 * (q * p);
    ModUnique(x, p * 256, q, 256 * r + x % 256);
  }

  lemma {:induction false} BEBytesOfValue(b: seq<int>, n: nat)
    requires n == |b| && IsBytes(b)
    ensures BEBytes(BEValue(b, 0, n), n) == b
  {
    if n > 0 {
      var t := b[..n - 1];
      assert t[0..n - 1] == b[0..n - 1];
      BEValueAgree(t, 0, b, 0, n - 1);
      BEBytesOfValue(t, n - 1);
      assert BEValue(b, 0, n) / 256 == BEValue(b, 0, n - 1);
      assert b == t + [b[n - 1]];
    }
  }

  // dl64
  function BE64(b: seq<int>, o: nat): u64
    requires o + 8 <= |b| && IsBytes(b)
  {
    BEValueBound(b, o, 8);
    Pow256Of8(8);
    BEValue(b, o, 8)
  }

  lemma Pow256Of8(n: nat)
    requires n == 8
    ensures Pow256(n) == M64
  {
    Pow256IsPow2(n);
    Pow2Values();
  }

  lemma BE64RoundTrip(x: u64, b: seq<int>, o: nat)
    requires o + 8 <= |b| && IsBytes(b) && b[o..o + 8] == BEBytes(x, 8)
    ensures BE64(b, o) == x
  {
    hide BEBytes, BEValue, Pow256;
    BERoundTrip(x, 8);
    Pow256Of8(8);
    assert BEBytes(x, 8)[0..8] == BEBytes(x, 8);
    BEValueAgree(b, o, BEBytes(x, 8), 0, 8);
  }

  // ---- blocks ---------------------------------------------------------------------------------

  // The sixteen words of the block at offset o.
  function Block(m: seq<int>, o: nat): (b: seq<u64>)
    requires o + 128 <= |m| && IsBytes(m)
    ensures |b| == 16
  {
    seq(16, i requires 0 <= i < 16 => BE64(m, o + 8 * i))
  }

  function LoadState(x: seq<int>): State
    requires |x| >= 64 && IsBytes(x)
  {
    State(BE64(x, 0), BE64(x, 8), BE64(x, 16), BE64(x, 24), BE64(x, 32), BE64(x, 40), BE64(x, 48), BE64(x, 56))
  }

  function StateWords(s: State): (w: seq<u64>)
    ensures |w| == 8
  {
    [s.a, s.b, s.c, s.d, s.e, s.f, s.g, s.h]
  }

  // The first n words of w, big-endian.
  function Joined(w: seq<u64>, n: nat): (b: seq<int>)
    requires n <= |w|
    ensures |b| == 8 * n && IsBytes(b)
  {
    if n == 0 then [] else Joined(w, n - 1) + BEBytes(w[n - 1], 8)
  }

  function StateBytes(s: State): (b: seq<int>)
    ensures |b| == 64 && IsBytes(b)
  {
    Joined(StateWords(s), |StateWords(s)|)
  }

  // The compression folded over the whole blocks of m.
  function Blocks(s: State, m: seq<int>): State
    requires IsBytes(m)
    decreases |m|
  {
    if |m| < 128 then s else Blocks(Compress(s, Block(m, 0)), m[128..])
  }

  lemma {:induction false} JoinedSlice(w: seq<u64>, n: nat, i: nat)
    requires i < n <= |w|
    ensures Joined(w, n)[8 * i..8 * i + 8] == BEBytes(w[i], 8)
  {
    hide BEBytes;
    if i < n - 1 {
      JoinedSlice(w, n - 1, i);
      assert Joined(w, n)[8 * i..8 * i + 8] == Joined(w, n - 1)[8 * i..8 * i + 8];
    } else {
      assert Joined(w, n)[8 * i..8 * i + 8] == BEBytes(w[i], 8);
    }
  }

  lemma StoredWord(s: State, i: nat)
    requires i < 8
    ensures BE64(StateBytes(s), 8 * i) == StateWords(s)[i]
  {
    JoinedSlice(StateWords(s), |StateWords(s)|, i);
    BE64RoundTrip(StateWords(s)[i], StateBytes(s), 8 * i);
  }

  // Storing and loading the chaining value changes nothing.
  lemma LoadStored(s: State)
    ensures LoadState(StateBytes(s)) == s
  {
    hide BE64, StateBytes;
    StoredWord(s, 0);
    StoredWord(s, 1);
    StoredWord(s, 2);
    StoredWord(s, 3);
    StoredWord(s, 4);
    StoredWord(s, 5);
    StoredWord(s, 6);
    StoredWord(s, 7);
  }

  // Loading a state and storing it again changes nothing.
  lemma StoreLoaded(x: seq<int>)
    requires |x| == 64 && IsBytes(x)
    ensures StateBytes(LoadState(x)) == x
  {
    hide StateBytes, LoadState, BE64;
    var y := StateBytes(LoadState(x));
    forall k | 0 <= k < 64
      ensures x[k] == y[k]
    {
      var i := k / 8;
      StoreLoadedWord(x, i);
      assert y[k] == y[8 * i..8 * i + 8][k - 8 * i] == x[8 * i..8 * i + 8][k - 8 * i] == x[k];
    }
  }

  lemma StoreLoadedWord(x: seq<int>, i: nat)
    requires |x| == 64 && IsBytes(x) && i < 8
    ensures StateBytes(LoadState(x))[8 * i..8 * i + 8] == x[8 * i..8 * i + 8]
  {
    hide BEBytes, BEValue, Joined;
    var w := StateWords(LoadState(x));
    JoinedSlice(w, |w|, i);
    var b := x[8 * i..8 * i + 8];
    BEBytesOfValue(b, |b|);
    assert b[0..|b|] == b;
    BEValueAgree(b, 0, x, 8 * i, 8);
  }

  // Hashing m1 || m2 is hashing m1 and then m2, when m1 is a whole number of blocks.
  lemma {:induction false} BlocksAppend(s: State, m1: seq<int>, m2: seq<int>)
    requires IsBytes(m1) && IsBytes(m2) && |m1| % 128 == 0
    ensures IsBytes(m1 + m2) && Blocks(s, m1 + m2) == Blocks(Blocks(s, m1), m2)
    decreases |m1|
  {
    hide Compress, BE64;
    if |m1| == 0 {
      assert m1 + m2 == m2;
    } else {
      var m := m1 + m2;
      assert m[128..] == m1[128..] + m2;
      SameBlock(m1, 0, m, 0);
      BlocksAppend(Compress(s, Block(m1, 0)), m1[128..], m2);
    }
  }

  lemma SameBlock(m: seq<int>, o: nat, n: seq<int>, p: nat)
    requires o + 128 <= |m| && p + 128 <= |n| && IsBytes(m) && IsBytes(n)
    requires m[o..o + 128] == n[p..p + 128]
    ensures Block(m, o) == Block(n, p)
  {
    hide BEValue;
    forall i | 0 <= i < 16
      ensures BE64(m, o + 8 * i) == BE64(n, p + 8 * i)
    {
      SubSlice(m, o, 128, 8 * i, 8);
      SubSlice(n, p, 128, 8 * i, 8);
      BEValueAgree(m, o + 8 * i, n, p + 8 * i, 8);
    }
  }

  // ---- the source -----------------------------------------------------------------------------

  method Dl64(x: array<u8>, o: nat) returns (u: u64)
    requires o + 8 <= x.Length
    ensures u == BE64(x[..], o)
  {
    hide Or, Pow256;
    u := 0;
    for i := 0 to 8
      invariant u == BEValue(x[..], o, i) && u < Pow256(i)
    {
      ShiftIn(u, x[o + i], i);
      OrDisjoint(u, x[o + i], 8);
      u := Or(u * 256, x[o + i]);
    }
  }

  lemma ShiftIn(u: int, b: int, i: nat)
    requires 0 <= u < Pow256(i) && 0 <= b < 256 && i < 8
    ensures Pow2(8) == 256 && u * 256 + b < Pow256(i + 1) <= M64
  {
    assert Pow2(8) == 256;
    Pow256Of8(i + 1 + (7 - i));
    PowMonotone(i + 1, 7 - i);
  }

  method Ts64(x: array<u8>, o: nat, w: u64)
    requires o + 8 <= x.Length
    modifies x
    ensures x[o..o + 8] == BEBytes(w, 8)
    ensures x[..o] == old(x[..o]) && x[o + 8..] == old(x[o + 8..])
  {
    var u: u64 := w;
    for i := 8 downto 0
      invariant BEBytes(u, i) + x[o + i..o + 8] == BEBytes(w, 8)
      invariant x[..o] == old(x[..o]) && x[o + 8..] == old(x[o + 8..])
    {
      ghost var tail := x[o + i + 1..o + 8];
      x[o + i] := u % 256;
      assert x[o + i..o + 8] == [u % 256] + tail;
      assert BEBytes(u, i + 1) + tail == BEBytes(u / 256, i) + ([u % 256] + tail);
      u := u / 256;
    }
    assert BEBytes(u, 0) + x[o..o + 8] == x[o..o + 8];
  }

  // Lines 576 to 580: one round on the eight working words, in place.
  method RoundInPlace(a: array<u64>, k: u64, w: u64)
    requires a.Length == 8
    modifies a
    ensures Working(a[..]) == Round(Working(old(a[..])), k, w)
  {
    hide Ch, Maj, BigSigma0, BigSigma1;
    var b := new u64[8](j requires 0 <= j < 8 reads a => a[j]);
    var t := Add64(Add64(Add64(Add64(a[7], BigSigma1(a[4])), Ch(a[4], a[5], a[6])), k), w);
    SumOfFive(a[7], BigSigma1(a[4]), Ch(a[4], a[5], a[6]), k, w);
    SumOfThree(t, BigSigma0(a[0]), Maj(a[0], a[1], a[2]));
    b[7] := Add64(Add64(t, BigSigma0(a[0])), Maj(a[0], a[1], a[2]));
    b[3] := Add64(b[3], t);
    ghost var v := b[..];
    for j := 0 to 8
      invariant b[..] == v
      invariant forall i :: 0 <= i < j ==> a[(i + 1) % 8] == v[i]
    {
      a[(j + 1) % 8] := b[j];
    }
    assert a[(7 + 1) % 8] == v[7] && a[(0 + 1) % 8] == v[0] && a[(1 + 1) % 8] == v[1] && a[(2 + 1) % 8] == v[2];
    assert a[(3 + 1) % 8] == v[3] && a[(4 + 1) % 8] == v[4] && a[(5 + 1) % 8] == v[5] && a[(6 + 1) % 8] == v[6];
  }

  // The working variables a to h held in an array.
  function Working(a: seq<u64>): State
    requires |a| == 8
  {
    State(a[0], a[1], a[2], a[3], a[4], a[5], a[6], a[7])
  }

  lemma SumOfFive(x: u64, y: u64, z: u64, v: u64, w: u64)
    ensures Add64(Add64(Add64(Add64(x, y), z), v), w) == (x + y + z + v + w) % M64
  {
    ModAbsorbs(x + y, z);
    ModAbsorbs(x + y + z, v);
    ModAbsorbs(x + y + z + v, w);
  }

  lemma ModAbsorbs(x: int, y: int)
    ensures (x % M64 + y) % M64 == (x + y) % M64
  {
  }

  lemma SumOfThree(x: u64, y: u64, z: u64)
    ensures Add64(Add64(x, y), z) == Add64(x, (y + z) % M64)
  {
    ModAbsorbs(x + y, z);
    ModAbsorbs(y + z, x);
  }

  lemma SumOfFour(x: u64, y: u64, z: u64, w: u64)
    ensures Add64(w, Add64(Add64(y, z), x)) == Sum4(x, y, z, w)
  {
    ModAbsorbs(y + z, x);
    ModAbsorbs(y + z + x, w);
  }

  // Lines 581 to 583: the next sixteen words of the schedule replace the last sixteen, in place,
  // although the operands of word j lie partly in the old and partly in the new half.
  method NextWords(w: array<u64>, ghost b: seq<u64>, ghost t: nat)
    requires w.Length == 16 && |b| == 16
    requires forall k :: 0 <= k < 16 ==> w[k] == W(b, t + k)
    modifies w
    ensures forall k :: 0 <= k < 16 ==> w[k] == W(b, t + 16 + k)
  {
    hide Sigma0, Sigma1;
    for j := 0 to 16
      invariant forall k :: 0 <= k < j ==> w[k] == W(b, t + 16 + k)
      invariant forall k :: j <= k < 16 ==> w[k] == W(b, t + k)
    {
      WordOperands(w[..], b, t, j);
      SumOfFour(Sigma1(w[(j + 14) % 16]), w[(j + 9) % 16], Sigma0(w[(j + 1) % 16]), w[j]);
      w[j] := Add64(w[j], Add64(Add64(w[(j + 9) % 16], Sigma0(w[(j + 1) % 16])), Sigma1(w[(j + 14) % 16])));
    }
  }

  lemma WordOperands(w: seq<u64>, b: seq<u64>, t: nat, j: nat)
    requires |w| == |b| == 16 && j < 16
    requires forall k :: 0 <= k < j ==> w[k] == W(b, t + 16 + k)
    requires forall k :: j <= k < 16 ==> w[k] == W(b, t + k)
    ensures w[(j + 9) % 16] == W(b, t + 16 + j - 7)
    ensures w[(j + 1) % 16] == W(b, t + 16 + j - 15)
    ensures w[(j + 14) % 16] == W(b, t + 16 + j - 2)
    ensures w[j] == W(b, t + 16 + j - 16)
  {
    hide W;
    assert (j + 9) % 16 == if j < 7 then j + 9 else j - 7;
    assert (j + 1) % 16 == if j < 15 then j + 1 else 0;
    assert (j + 14) % 16 == if j < 2 then j + 14 else j - 2;
  }

  // Lines 573 to 584: the eighty rounds of one block.
  method EightyRounds(a: array<u64>, m: array<u8>, mo: nat)
    requires a.Length == 8 && mo + 128 <= m.Length
    modifies a
    ensures Working(a[..]) == CompressRounds(Working(old(a[..])), Block(old(m[..]), mo))
  {
    hide Round, W, K, Working;
    ghost var s, b := Working(a[..]), Block(m[..], mo);
    var w := LoadBlock(m, mo);
    for i := 0 to 80
      invariant forall k :: 0 <= k < 16 ==> w[k] == W(b, i - i % 16 + k)
      invariant Working(a[..]) == Rounds(s, b, i)
    {
      ScheduleIndex(i);
      RoundInPlace(a, K(i), w[i % 16]);
      if i % 16 == 15 {
        NextWords(w, b, i - i % 16);
      }
    }
  }

  lemma ScheduleIndex(i: nat)
    ensures i - i % 16 + i % 16 == i && i - i % 16 >= 0
    ensures (i + 1) - (i + 1) % 16 == if i % 16 == 15 then i - i % 16 + 16 else i - i % 16
  {
  }

  method LoadBlock(m: array<u8>, mo: nat) returns (w: array<u64>)
    requires mo + 128 <= m.Length
    ensures fresh(w) && w.Length == 16 && w[..] == Block(m[..], mo)
    ensures forall k :: 0 <= k < 16 ==> w[k] == W(w[..], k)
  {
    hide BE64;
    w := new u64[16];
    for i := 0 to 16
      invariant m[..] == old(m[..])
      invariant forall k :: 0 <= k < i ==> w[k] == Block(m[..], mo)[k]
    {
      w[i] := Dl64(m, mo + 8 * i);
    }
  }

  // Lines 586 to 589.
  method FeedForward(a: array<u64>, z: array<u64>)
    requires a.Length == 8 && z.Length == 8 && a != z
    modifies a, z
    ensures Working(a[..]) == Working(z[..]) == AddState(Working(old(z[..])), Working(old(a[..])))
  {
    hide Add64;
    for i := 0 to 8
      invariant forall k :: 0 <= k < i ==> a[k] == z[k] == Add64(old(a[k]), old(z[k]))
      invariant forall k :: i <= k < 8 ==> a[k] == old(a[k]) && z[k] == old(z[k])
    {
      a[i] := Add64(a[i], z[i]);
      z[i] := a[i];
    }
    AddStateCommutes(old(a[..]), old(z[..]), a[..]);
  }

  lemma AddStateCommutes(a: seq<u64>, z: seq<u64>, r: seq<u64>)
    requires |a| == |z| == |r| == 8 && forall k :: 0 <= k < 8 ==> r[k] == Add64(a[k], z[k])
    ensures Working(r) == AddState(Working(z), Working(a))
  {
  }

  // Line 566.
  method LoadWords(x: array<u8>) returns (z: array<u64>)
    requires x.Length >= 64
    ensures fresh(z) && z.Length == 8 && Working(z[..]) == LoadState(x[..])
  {
    hide BE64;
    z := new u64[8];
    for i := 0 to 8
      invariant x[..] == old(x[..])
      invariant forall k :: 0 <= k < i ==> z[k] == WordAt(x[..], k)
    {
      z[i] := Dl64(x, 8 * i);
    }
  }

  function WordAt(x: seq<int>, k: nat): u64
    requires 8 * k + 8 <= |x| && IsBytes(x)
  {
    BE64(x, 8 * k)
  }

  // Line 595.
  method StoreWords(x: array<u8>, z: array<u64>)
    requires x.Length >= 64 && z.Length == 8
    modifies x
    ensures x[..64] == StateBytes(Working(old(z[..]))) && x[64..] == old(x[64..])
  {
    hide BEBytes;
    ghost var v := z[..];
    for i := 0 to 8
      invariant z[..] == v
      invariant x[..8 * i] == Joined(v, i)
      invariant x[64..] == old(x[64..])
    {
      ghost var before: seq<int> := x[..];
      Ts64(x, 8 * i, z[i]);
      assert x[..8 * i + 8] == x[..8 * i] + x[8 * i..8 * i + 8];
      assert x[64..] == x[8 * i + 8..][56 - 8 * i..] && before[64..] == before[8 * i + 8..][56 - 8 * i..];
    }
    assert v == StateWords(Working(v));
  }

  // The compression of the block at off is one step of the fold over what is left of the message.
  lemma NextBlock(m: seq<int>, mo: nat, n: nat, off: nat, v: State)
    requires IsBytes(m) && mo + n <= |m| && off + 128 <= n
    ensures Blocks(v, m[mo..mo + n][off..]) == Blocks(Compress(v, Block(m, mo + off)), m[mo..mo + n][off + 128..])
  {
    hide Compress, BE64;
    var msg := m[mo..mo + n];
    var t := msg[off..];
    assert t[128..] == msg[off + 128..];
    SubSlice(m, mo, n, off, 128);
    assert t[0..128] == msg[off..off + 128];
    SameBlock(t, 0, m, mo + off);
  }

  // Lines 573 to 589: one block.
  method CompressBlock(a: array<u64>, z: array<u64>, m: array<u8>, mo: nat)
    requires a.Length == 8 && z.Length == 8 && a != z && mo + 128 <= m.Length
    requires Working(a[..]) == Working(z[..])
    modifies a, z
    ensures Working(a[..]) == Working(z[..]) == Compress(Working(old(z[..])), Block(old(m[..]), mo))
  {
    hide Working, AddState, CompressRounds, Block;
    ghost var s, b := Working(z[..]), Block(m[..], mo);
    EightyRounds(a, m, mo);
    FeedForward(a, z);
  }

  // crypto_hashblocks on x[0..64] and m[mo..mo+n]; what does not fill a block is left over.
  method HashBlocks(x: array<u8>, m: array<u8>, mo: nat, n: nat) returns (rest: nat)
    requires x.Length >= 64 && mo + n <= m.Length && x != m
    modifies x
    ensures rest == n % 128
    ensures x[..64] == StateBytes(Blocks(LoadState(old(x[..])), m[mo..mo + n]))
    ensures x[64..] == old(x[64..])
  {
    hide LoadState, StateBytes, Compress, Working, Block;
    ghost var msg: seq<int>, s, t := m[mo..mo + n], LoadState(x[..]), 0;
    var z := LoadWords(x);
    var a := new u64[8](i requires 0 <= i < 8 reads z => z[i]);
    assert a[..] == z[..];
    var off := 0;
    rest := n;
    while rest >= 128
      invariant off + rest == n && off == 128 * t
      invariant x[..] == old(x[..]) && m[..] == old(m[..])
      invariant Working(a[..]) == Working(z[..])
      invariant Blocks(Working(z[..]), msg[off..]) == Blocks(s, msg)
    {
      NextBlock(m[..], mo, n, off, Working(z[..]));
      CompressBlock(a, z, m, mo + off);
      off := off + 128;
      rest := rest - 128;
      t := t + 1;
    }
    Remainder(n, t, rest);
    StoreWords(x, z);
  }

  lemma Remainder(n: nat, t: nat, rest: nat)
    requires 128 * t + rest == n && rest < 128
    ensures n % 128 == rest
  {
  }

  // ---- FIPS 180-4, section 5.1.2 ---------------------------------------------------------------

  // The initial hash value, section 5.3.5, in bytes.
  function IVBytes(): (s: seq<u8>)
    ensures |s| == 64
  {
    IVRow(0) + IVRow(1) + IVRow(2) + IVRow(3) + IVRow(4) + IVRow(5) + IVRow(6) + IVRow(7)
  }

  function IVRow(r: nat): (s: seq<u8>)
    requires r < 8
    ensures |s| == 8
  {
    if r == 0 then [0x6a, 0x09, 0xe6, 0x67, 0xf3, 0xbc, 0xc9, 0x08]
    else if r == 1 then [0xbb, 0x67, 0xae, 0x85, 0x84, 0xca, 0xa7, 0x3b]
    else if r == 2 then [0x3c, 0x6e, 0xf3, 0x72, 0xfe, 0x94, 0xf8, 0x2b]
    else if r == 3 then [0xa5, 0x4f, 0xf5, 0x3a, 0x5f, 0x1d, 0x36, 0xf1]
    else if r == 4 then [0x51, 0x0e, 0x52, 0x7f, 0xad, 0xe6, 0x82, 0xd1]
    else if r == 5 then [0x9b, 0x05, 0x68, 0x8c, 0x2b, 0x3e, 0x6c, 0x1f]
    else if r == 6 then [0x1f, 0x83, 0xd9, 0xab, 0xfb, 0x41, 0xbd, 0x6b]
    else [0x5b, 0xe0, 0xcd, 0x19, 0x13, 0x7e, 0x21, 0x79]
  }

  // The least z with n + 1 + z = 112 (mod 128).
  function PadZeros(n: nat): (z: nat)
    ensures z < 128 && (n + 1 + z) % 128 == 112
  {
    (239 - n % 128) % 128
  }

  // 0x80, zeros, and the length in bits as a 128-bit number.
  function Pad(n: nat): (p: seq<int>)
    ensures IsBytes(p) && |p| == 17 + PadZeros(n)
  {
    [0x80] + Zeros(PadZeros(n)) + BEBytes(8 * n, 16)
  }

  // SHA-512 of m.
  function Hash(m: seq<int>): (h: seq<int>)
    requires IsBytes(m)
    ensures |h| == 64 && IsBytes(h)
  {
    hide StateBytes, Blocks, LoadState, Pad, IVBytes;
    JoinedBytes(m, Pad(|m|));
    StateBytes(Blocks(LoadState(IVBytes()), m + Pad(|m|)))
  }

  // What follows the last whole block: at most 127 bytes of the message, and the padding.
  function Tail(m: seq<int>): seq<int> {
    m[|m| - |m| % 128..] + Pad(|m|)
  }

  // The bulk call and the call on the tail together hash the padded message.
  lemma HashInTwoParts(m: seq<int>, s: State)
    requires IsBytes(m)
    ensures IsBytes(Tail(m)) && Blocks(Blocks(s, m), Tail(m)) == Blocks(s, m + Pad(|m|))
  {
    hide Compress, Pad;
    var t := |m| - |m| % 128;
    var head, rest := m[..t], m[t..];
    assert m == head + rest;
    BlocksAppend(s, head, rest);
    assert m + Pad(|m|) == head + Tail(m);
    BlocksAppend(s, head, Tail(m));
  }

  // The low 64 bits and the 3 bits above them, as the source splits the length.
  lemma LengthBytes(n: nat)
    requires n < M64
    ensures BEBytes(8 * n, 16) == Zeros(7) + [n / 0x2000_0000_0000_0000] + BEBytes(8 * n % M64, 8)
  {
    BESplit(8 * n, 8, 8);
    Pow256Of8(8);
    var hi := 8 * n / M64;
    assert hi == n / 0x2000_0000_0000_0000 && hi < 8;
    SmallBE(hi, 8);
  }

  lemma {:induction false} BESplit(x: int, i: nat, j: nat)
    ensures BEBytes(x, i + j) == BEBytes(x / Pow256(j), i) + BEBytes(x % Pow256(j), j)
    decreases j
  {
    if j == 0 {
      assert BEBytes(x, i) == BEBytes(x, i) + [];
    } else {
      var p := Pow256(j - 1);
      BESplit(x / 256, i, j - 1);
      DivDiv(x, 256, p);
      Commute(256, p);
      HighSplit(x, p);
      var r := x % (p * 256);
      assert r / 256 == x / 256 % p && r % 256 == x % 256;
      assert BEBytes(x / 256 / p, i) + (BEBytes(x / 256 % p, j - 1) + [x % 256])
          == (BEBytes(x / 256 / p, i) + BEBytes(x / 256 % p, j - 1)) + [x % 256];
    }
  }

  lemma {:induction false} SmallBE(x: int, n: nat)
    requires 0 <= x < 256 && n >= 1
    ensures BEBytes(x, n) == seq(n - 1, _ => 0) + [x]
  {
    ZeroBE(n - 1);
  }

  lemma {:induction false} ZeroBE(n: nat)
    ensures BEBytes(0, n) == seq(n, _ => 0)
  {
    if n > 0 {
      ZeroBE(n - 1);
    }
  }

  // Lines 623 to 629.
  method BuildTail(m: array<u8>, mo: nat, n: u64) returns (x: array<u8>, len: nat)
    requires mo + n <= m.Length
    ensures fresh(x) && x.Length == 256 && len <= 256 && x[..len] == Tail(m[mo..mo + n])
  {
    hide BEBytes;
    var r := n % 128;
    x := new u8[256](_ => 0);
    for i := 0 to r
      invariant m[..] == old(m[..])
      invariant forall j :: 0 <= j < i ==> x[j] == m[mo + (n - r) + j]
      invariant forall j :: i <= j < 256 ==> x[j] == 0
    {
      x[i] := m[mo + (n - r) + i];
    }
    x[r] := 128;
    len := if r < 112 then 128 else 256;
    x[len - 9] := n / 0x2000_0000_0000_0000;
    ghost var head: seq<int> := x[..len - 8];
    Ts64(x, len - 8, 8 * n % 0x1_0000_0000_0000_0000);
    TailBytes(m[mo..mo + n], head, r, len);
    assert x[..len] == x[..len - 8] + x[len - 8..len];
  }

  lemma TailBytes(m: seq<int>, head: seq<int>, r: nat, len: nat)
    requires |m| < M64 && r == |m| % 128 && len == (if r < 112 then 128 else 256) && |head| == len - 8
    requires forall j :: 0 <= j < r ==> head[j] == m[|m| - r + j]
    requires head[r] == 128 && head[len - 9] == |m| / 0x2000_0000_0000_0000
    requires forall j :: r < j < len - 9 ==> head[j] == 0
    ensures head + BEBytes(8 * |m| % M64, 8) == Tail(m)
  {
    hide BEBytes, PadZeros, Zeros;
    LengthBytes(|m|);
    TailZeros(|m|, r, len);
    var hi, low := |m| / 0x2000_0000_0000_0000, BEBytes(8 * |m| % M64, 8);
    HeadParts(m[|m| - r..], head, PadZeros(|m|), hi);
    Regroup(m[|m| - r..], [0x80], Zeros(PadZeros(|m|)), Zeros(7), [hi], low);
  }

  lemma TailZeros(n: nat, r: nat, len: nat)
    requires r == n % 128 && len == (if r < 112 then 128 else 256)
    ensures PadZeros(n) == len - 17 - r && r <= n
  {
  }

  lemma HeadParts(t: seq<int>, head: seq<int>, z: nat, hi: int)
    requires |head| == |t| + z + 9 && head[|t|] == 0x80 && head[|head| - 1] == hi
    requires forall j :: 0 <= j < |t| ==> head[j] == t[j]
    requires forall j :: |t| < j < |head| - 1 ==> head[j] == 0
    ensures head == t + ([0x80] + Zeros(z) + Zeros(7) + [hi])
  {
  }

  lemma Regroup(a: seq<int>, b: seq<int>, c: seq<int>, d: seq<int>, e: seq<int>, f: seq<int>)
    ensures a + (b + c + d + e) + f == a + (b + c + (d + e + f))
  {
    assert b + c + d + e + f == b + c + (d + e + f);
    assert a + (b + c + d + e) + f == a + (b + c + d + e + f);
  }

  // crypto_hash of m[mo..mo+n].
  method CryptoHash(out: array<u8>, m: array<u8>, mo: nat, n: u64) returns (ret: int)
    requires out.Length >= 64 && mo + n <= m.Length
    modifies out
    ensures ret == 0
    ensures out[..64] == Hash(old(m[mo..mo + n])) && out[64..] == old(out[64..])
  {
    hide LoadState, StateBytes, Tail, Pad;
    ghost var msg: seq<int>, s := m[mo..mo + n], LoadState(IVBytes());
    var h := new u8[64](i requires 0 <= i < 64 => IVBytes()[i]);
    assert h[..] == IVBytes();
    var rest := HashBlocks(h, m, mo, n);
    var x, len := BuildTail(m, mo, n);
    HashInTwoParts(msg, s);
    LoadStored(Blocks(s, msg));
    assert h[..] == h[..64];
    rest := HashBlocks(h, x, 0, len);
    assert x[0..0 + len] == x[..len];
    CopyOut(out, h);
    ret := 0;
  }

  // Line 632.
  method CopyOut(out: array<u8>, h: array<u8>)
    requires out.Length >= 64 && h.Length == 64 && out != h
    modifies out
    ensures out[..64] == h[..] && out[64..] == old(out[64..])
  {
    for i := 0 to 64
      invariant h[..] == old(h[..])
      invariant forall j :: 0 <= j < i ==> out[j] == h[j]
      invariant out[64..] == old(out[64..])
    {
      out[i] := h[i];
    }
  }
}
