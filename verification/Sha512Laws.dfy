// What the functions of FIPS 180-4 do, bit by bit and by example, apart from their definitions in
// Sha512 that the source is proved against.
module Sha512Laws {
  import opened Bits
  import opened Bytes
  import opened BitLaws
  import opened Sha512

  // ---- sections 3.2 and 4.1.3: the word functions ------------------------------------------------

  lemma WordSize()
    ensures Pow2(64) == M64
  {
    Pow2Values();
  }

  lemma Xor64Bit(x: u64, y: u64, i: nat)
    ensures Bit(Xor64(x, y), i) == (Bit(x, i) + Bit(y, i)) % 2
  {
    XorBit(x, y, i);
  }

  lemma And64Bit(x: u64, y: u64, i: nat)
    ensures Bit(And64(x, y), i) == if Bit(x, i) == 1 then Bit(y, i) else 0
  {
    AndBit(x, y, i);
  }

  // The complement flips every bit of the word.
  lemma Not64Bit(x: u64, i: nat)
    requires i < 64
    ensures Bit(Not64(x), i) == 1 - Bit(x, i)
  {
    hide Pow2;
    WordSize();
    Complement(x, 64, i);
  }

  lemma {:induction false} Complement(x: int, n: nat, i: nat)
    requires i < n
    ensures Bit(Pow2(n) - 1 - x, i) == 1 - Bit(x, i)
    decreases i
  {
    hide Bit;
    var y := Pow2(n) - 1 - x;
    assert Pow2(n) == 2 * Pow2(n - 1);
    if i == 0 {
      LowestBit(x);
      LowestBit(y);
    } else {
      HigherBit(x, i - 1);
      HigherBit(y, i - 1);
      Complement(x / 2, n - 1, i - 1);
      assert y / 2 == Pow2(n - 1) - 1 - x / 2;
    }
  }

  // Ch takes the bit of y where x has a 1, and that of z where x has a 0.
  lemma ChBit(x: u64, y: u64, z: u64, i: nat)
    requires i < 64
    ensures Bit(Ch(x, y, z), i) == if Bit(x, i) == 1 then Bit(y, i) else Bit(z, i)
  {
    hide Xor64, And64, Not64, Bit;
    Xor64Bit(And64(x, y), And64(Not64(x), z), i);
    And64Bit(x, y, i);
    And64Bit(Not64(x), z, i);
    Not64Bit(x, i);
    BitRange(x, i);
    BitRange(y, i);
    BitRange(z, i);
  }

  // So x selects y, and the complement of x selects z.
  lemma ChSelects(x: u64, y: u64, z: u64)
    ensures And64(x, Ch(x, y, z)) == And64(x, y) && And64(Not64(x), Ch(x, y, z)) == And64(Not64(x), z)
  {
    hide Ch, And64, Not64, Bit, Pow2;
    forall i | 0 <= i < 64
      ensures Bit(And64(x, Ch(x, y, z)), i) == Bit(And64(x, y), i)
      ensures Bit(And64(Not64(x), Ch(x, y, z)), i) == Bit(And64(Not64(x), z), i)
    {
      ChBit(x, y, z, i);
      Not64Bit(x, i);
      BitRange(x, i);
      And64Bit(x, Ch(x, y, z), i);
      And64Bit(x, y, i);
      And64Bit(Not64(x), Ch(x, y, z), i);
      And64Bit(Not64(x), z, i);
    }
    WordSize();
    SameBits(And64(x, Ch(x, y, z)), And64(x, y), 64);
    SameBits(And64(Not64(x), Ch(x, y, z)), And64(Not64(x), z), 64);
  }

  // Maj takes the bit that two of the three have.
  lemma MajBit(x: u64, y: u64, z: u64, i: nat)
    ensures Bit(Maj(x, y, z), i) == if Bit(x, i) + Bit(y, i) + Bit(z, i) >= 2 then 1 else 0
  {
    hide Xor64, And64, Bit;
    Xor64Bit(Xor64(And64(x, y), And64(x, z)), And64(y, z), i);
    Xor64Bit(And64(x, y), And64(x, z), i);
    And64Bit(x, y, i);
    And64Bit(x, z, i);
    And64Bit(y, z, i);
    BitRange(x, i);
    BitRange(y, i);
    BitRange(z, i);
  }

  // Bit i of the rotation is bit (i + c) mod 64 of the word.
  lemma RotrBit(x: u64, c: nat, i: nat)
    requires 0 < c < 64 && i < 64
    ensures Bit(Rotr(x, c), i) == Bit(x, (i + c) % 64)
  {
    hide Or, Pow2, Bit;
    WordSize();
    var j := if i + c < 64 then i + c else i + c - 64;
    ModUnique(i + c, 64, if i + c < 64 then 0 else 1, j);
    Rotation(x, 64 - c, 64, Rotr(x, c), j);
    ModUnique(j + (64 - c), 64, if i + c < 64 then 1 else 0, i);
  }

  // Bit i of the shifted word is bit i + c of the word, and 0 at the top.
  lemma ShrBit(x: u64, c: nat, i: nat)
    requires c < 64 && i < 64
    ensures Bit(Shr(x, c), i) == if i + c < 64 then Bit(x, i + c) else 0
  {
    hide Pow2, Bit;
    WordSize();
    ShiftedRight(x, c, i);
    if i + c >= 64 {
      HighBits(x, 64, i + c);
    }
  }

  // Whether an odd number of three bits is set.
  function Odd(x: int, y: int, z: int): int {
    (x + y + z) % 2
  }

  lemma ThreeXors(a: u64, b: u64, c: u64, i: nat)
    ensures Bit(Xor64(Xor64(a, b), c), i) == Odd(Bit(a, i), Bit(b, i), Bit(c, i))
  {
    hide Xor64, Bit;
    Xor64Bit(Xor64(a, b), c, i);
    Xor64Bit(a, b, i);
    BitRange(a, i);
    BitRange(b, i);
    BitRange(c, i);
  }

  // The four sigma functions (4.10) to (4.13), bit by bit.
  lemma SigmaBits(x: u64, i: nat)
    requires i < 64
    ensures Bit(BigSigma0(x), i) == Odd(Bit(x, (i + 28) % 64), Bit(x, (i + 34) % 64), Bit(x, (i + 39) % 64))
    ensures Bit(BigSigma1(x), i) == Odd(Bit(x, (i + 14) % 64), Bit(x, (i + 18) % 64), Bit(x, (i + 41) % 64))
    ensures Bit(Sigma0(x), i) ==
      Odd(Bit(x, (i + 1) % 64), Bit(x, (i + 8) % 64), if i < 57 then Bit(x, i + 7) else 0)
    ensures Bit(Sigma1(x), i) ==
      Odd(Bit(x, (i + 19) % 64), Bit(x, (i + 61) % 64), if i < 58 then Bit(x, i + 6) else 0)
  {
    hide Xor64, Rotr, Shr, Bit;
    ThreeXors(Rotr(x, 28), Rotr(x, 34), Rotr(x, 39), i);
    RotrBit(x, 28, i);
    RotrBit(x, 34, i);
    RotrBit(x, 39, i);
    ThreeXors(Rotr(x, 14), Rotr(x, 18), Rotr(x, 41), i);
    RotrBit(x, 14, i);
    RotrBit(x, 18, i);
    RotrBit(x, 41, i);
    ThreeXors(Rotr(x, 1), Rotr(x, 8), Shr(x, 7), i);
    RotrBit(x, 1, i);
    RotrBit(x, 8, i);
    ShrBit(x, 7, i);
    ThreeXors(Rotr(x, 19), Rotr(x, 61), Shr(x, 6), i);
    RotrBit(x, 19, i);
    RotrBit(x, 61, i);
    ShrBit(x, 6, i);
  }

  // ---- section 6.4.2 ---------------------------------------------------------------------------

  // One round: six words move up, and the sums of the two new words.
  lemma RoundLaw(s: State, k: u64, w: u64)
    ensures var t := Round(s, k, w);
      var sum: int := s.h as int + BigSigma1(s.e) as int + Ch(s.e, s.f, s.g) as int + k as int + w as int;
      t.b == s.a && t.c == s.b && t.d == s.c && t.f == s.e && t.g == s.f && t.h == s.g &&
      t.e == (s.d as int + sum) % M64 &&
      t.a == (sum + BigSigma0(s.a) as int + Maj(s.a, s.b, s.c) as int) % M64
  {
    hide Ch, Maj, BigSigma0, BigSigma1;
    var sum: int := s.h as int + BigSigma1(s.e) as int + Ch(s.e, s.f, s.g) as int + k as int + w as int;
    var two: int := BigSigma0(s.a) as int + Maj(s.a, s.b, s.c) as int;
    ModAbsorbs(sum, s.d);
    ModAbsorbs(sum, two % M64);
    ModAbsorbs(two, sum);
  }

  lemma SigmaOfZero()
    ensures Sigma0(0) == 0 && Sigma1(0) == 0
  {
    hide Sigma0, Sigma1, Bit, Pow2;
    forall i | 0 <= i < 64
      ensures Bit(Sigma0(0), i) == Bit(0, i) && Bit(Sigma1(0), i) == Bit(0, i)
    {
      SigmaBits(0, i);
      forall j: nat
        ensures Bit(0, j) == 0
      {
        ZeroBits(j);
      }
    }
    WordSize();
    SameBits(Sigma0(0), 0, 64);
    SameBits(Sigma1(0), 0, 64);
  }

  lemma ZeroBits(j: nat)
    ensures Bit(0, j) == 0
  {
    hide Pow2;
    ModUnique(0, Pow2(j), 0, 0);
  }

  // Which words of a block go into word 16 of the schedule, and how: a block with one word x.
  lemma FirstScheduled(b: seq<u64>, j: nat, x: u64)
    requires |b| == 16 && j < 16 && forall i :: 0 <= i < 16 ==> b[i] == if i == j then x else 0
    ensures W(b, 16) ==
      if j == 0 || j == 9 then x else if j == 1 then Sigma0(x) else if j == 14 then Sigma1(x) else 0
  {
    hide Sigma0, Sigma1;
    SigmaOfZero();
    assert W(b, 14) == b[14] && W(b, 9) == b[9] && W(b, 1) == b[1] && W(b, 0) == b[0];
  }

  // Every later word is word 16 of the block of the sixteen words before it.
  lemma ScheduleSlides(b: seq<u64>, t: nat, c: seq<u64>)
    requires |b| == |c| == 16 && forall i :: 0 <= i < 16 ==> c[i] == W(b, t + i)
    ensures W(b, t + 16) == W(c, 16)
  {
    hide Sigma0, Sigma1;
    assert W(c, 14) == c[14] && W(c, 9) == c[9] && W(c, 1) == c[1] && W(c, 0) == c[0];
  }

  // The compression runs t from 0 to 79.
  lemma EightySteps(s: State, b: seq<u64>, n: nat)
    requires |b| == 16 && n == 79
    ensures CompressRounds(s, b) == Round(Rounds(s, b, n), K(n), W(b, n))
  {
    hide Round, K, W;
    assert 5 * |b| == n + 1;
  }

  // The eight words are added to those of the chaining value.
  lemma FeedForwardLaw(s: State, b: seq<u64>, i: nat)
    requires |b| == 16 && i < 8
    ensures StateWords(Compress(s, b))[i] == (StateWords(s)[i] as int + StateWords(CompressRounds(s, b))[i] as int) % M64
  {
    hide CompressRounds;
  }

  // ---- section 5.1.2 ---------------------------------------------------------------------------

  // The padded message consists of whole blocks; after it come the byte 0x80, fewer than 128
  // zeros, and the length in bits in sixteen bytes.
  lemma PadLaw(m: seq<int>)
    requires IsBytes(m)
    ensures var p, z := m + Pad(|m|), |Pad(|m|)| - 17;
      |p| % 128 == 0 && 0 <= z < 128 && p[..|m|] == m && p[|m|] == 0x80 &&
      (forall i :: |m| < i <= |m| + z ==> p[i] == 0) && BEValue(p, |p| - 16, 16) == 8 * |m| % Pow256(16)
  {
    hide BEBytes, BEValue, Pow256;
    var p, n := m + Pad(|m|), 8 * |m|;
    assert (|m| + 1 + PadZeros(|m|)) % 128 == 112;
    assert |p| % 128 == 0;
    BERoundTrip(n, 16);
    assert p[|p| - 16..|p| - 16 + 16] == BEBytes(n, 16) == BEBytes(n, 16)[0..16];
    BEValueAgree(p, |p| - 16, BEBytes(n, 16), 0, 16);
  }

  // ---- section 6.4 -------------------------------------------------------------------------------

  // The words a to h are the eight words of the state bytes, in this order and big-endian.
  lemma StateLayout(x: seq<int>)
    requires |x| == 64 && IsBytes(x)
    ensures var s := LoadState(x);
      x == BEBytes(s.a, 8) + BEBytes(s.b, 8) + BEBytes(s.c, 8) + BEBytes(s.d, 8)
        + BEBytes(s.e, 8) + BEBytes(s.f, 8) + BEBytes(s.g, 8) + BEBytes(s.h, 8)
  {
    hide BEBytes, LoadState;
    StoreLoaded(x);
    Layout(LoadState(x), 8);
  }

  lemma Layout(s: State, n: nat)
    requires n == 8
    ensures StateBytes(s) == BEBytes(s.a, n) + BEBytes(s.b, n) + BEBytes(s.c, n) + BEBytes(s.d, n)
      + BEBytes(s.e, n) + BEBytes(s.f, n) + BEBytes(s.g, n) + BEBytes(s.h, n)
  {
    hide BEBytes, Joined;
    var w := StateWords(s);
    JoinedNext(w, 0);
    JoinedNext(w, 1);
    JoinedNext(w, 2);
    JoinedNext(w, 3);
    JoinedNext(w, 4);
    JoinedNext(w, 5);
    JoinedNext(w, 6);
    JoinedNext(w, 7);
  }

  lemma JoinedNext(w: seq<u64>, n: nat)
    requires n < |w|
    ensures Joined(w, n + 1) == Joined(w, n) + BEBytes(w[n], 8) && (n == 0 ==> Joined(w, n) == [])
  {
    hide BEBytes;
  }

  // Word i of a block has the bytes 8 i to 8 i + 7 of the block, big-endian.
  lemma BlockLayout(m: seq<int>, o: nat, i: nat)
    requires IsBytes(m) && o + 128 <= |m| && i < 16
    ensures BEBytes(Block(m, o)[i], 8) == m[o + 8 * i..o + 8 * i + 8]
  {
    hide BEBytes, BEValue;
    var b := m[o + 8 * i..o + 8 * i + 8];
    BEBytesOfValue(b, |b|);
    assert b[0..|b|] == b;
    BEValueAgree(b, 0, m, o + 8 * i, 8);
  }

  // A message of at most 111 bytes takes one compression of the initial value.
  lemma OneBlock(m: seq<int>)
    requires IsBytes(m) && |m| <= 111
    ensures IsBytes(m + Pad(|m|)) && |m + Pad(|m|)| == 128
    ensures Hash(m) == StateBytes(Compress(LoadState(IVBytes()), Block(m + Pad(|m|), 0)))
  {
    hide StateBytes, LoadState, IVBytes, Compress, Block, BEBytes;
    JoinedBytes(m, Pad(|m|));
    assert (|m| + 1 + PadZeros(|m|)) % 128 == 112;
    var p, s := m + Pad(|m|), LoadState(IVBytes());
    assert |p| == 128;
    assert Blocks(Compress(s, Block(p, 0)), p[128..]) == Compress(s, Block(p, 0));
  }
}
