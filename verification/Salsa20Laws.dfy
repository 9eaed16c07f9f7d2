// What the functions of the Salsa20 specification do, bit by bit and by its own examples, apart
// from their definitions in Salsa20 that the source is proved against.
module Salsa20Laws {
  import opened Bits
  import opened Bytes
  import opened Limbs
  import opened BitLaws
  import opened Salsa20

  // ---- words -------------------------------------------------------------------------------------

  // Bit (i + c) mod 32 of the rotated word is bit i of the word.
  lemma RotlBit(x: u32, c: nat, i: nat)
    requires 0 < c < 32 && i < 32
    ensures Bit(Rotl(x, c), (i + c) % 32) == Bit(x, i)
  {
    hide Or, Pow2, Bit;
    Pow2Values();
    Rotation(x, c, 32, Rotl(x, c), i);
  }

  // Exclusive or, bit by bit.
  lemma Xor32Bit(x: u32, y: u32, i: nat)
    ensures Bit(Xor32(x, y), i) == (Bit(x, i) + Bit(y, i)) % 2
  {
    XorBit(x, y, i);
  }

  // ---- the quarterround, section 3 ---------------------------------------------------------------

  // The rotation of a word whose top c bits are hi and whose other bits are lo.
  lemma RotlValue(x: u32, c: nat, hi: nat, lo: nat)
    requires 0 < c < 32 && lo < Pow2(32 - c) && x == hi * Pow2(32 - c) + lo
    ensures Rotl(x, c) == lo * Pow2(c) + hi
  {
    hide Or, Pow2;
    Pow2Values();
    Pow2Add(c, 32 - c);
    ModUnique(x, Pow2(32 - c), hi, lo);
    TopBits(x, hi, lo, Pow2(c), Pow2(32 - c));
    ModUnique(x * Pow2(c), 0x1_0000_0000, hi, lo * Pow2(c));
    OrDisjoint(lo, hi, c);
  }

  lemma TopBits(x: u32, hi: nat, lo: nat, p: int, q: int)
    requires p > 0 && 0 <= lo < q && x == hi * q + lo && p * q == 0x1_0000_0000
    ensures hi < p && x * p == hi * 0x1_0000_0000 + lo * p && 0 <= lo * p < 0x1_0000_0000
  {
    if hi >= p {
      MulNonneg(hi - p, q);
      MulDistributes(hi, p, q);
    }
    MulDistributes(q, lo, p);
    MulNonneg(lo, p);
    MulNonneg(q - lo - 1, p);
    assert x * p == (hi * q) * p + lo * p;
    MulAssoc(hi, q, p);
  }

  // ---- the quarterround, section 3 ---------------------------------------------------------------

  // The four lines of the quarterround, bit by bit.
  lemma QuarterRoundBits(y: Quad, i: nat)
    requires i < 32
    ensures var z := QuarterRound(y);
      Bit(z.z1, (i + 7) % 32) == (Bit(y.z1, (i + 7) % 32) + Bit((y.z0 + y.z3) % 0x1_0000_0000, i)) % 2 &&
      Bit(z.z2, (i + 9) % 32) == (Bit(y.z2, (i + 9) % 32) + Bit((z.z1 + y.z0) % 0x1_0000_0000, i)) % 2 &&
      Bit(z.z3, (i + 13) % 32) == (Bit(y.z3, (i + 13) % 32) + Bit((z.z2 + z.z1) % 0x1_0000_0000, i)) % 2 &&
      Bit(z.z0, (i + 18) % 32) == (Bit(y.z0, (i + 18) % 32) + Bit((z.z3 + z.z2) % 0x1_0000_0000, i)) % 2
  {
    hide Xor32, Rotl, Bit;
    var z := QuarterRound(y);
    LineBit(y.z1, Add32(y.z0, y.z3), 7, i);
    LineBit(y.z2, Add32(z.z1, y.z0), 9, i);
    LineBit(y.z3, Add32(z.z2, z.z1), 13, i);
    LineBit(y.z0, Add32(z.z3, z.z2), 18, i);
  }

  lemma LineBit(y: u32, s: u32, c: nat, i: nat)
    requires 0 < c < 32 && i < 32
    ensures Bit(Xor32(y, Rotl(s, c)), (i + c) % 32) == (Bit(y, (i + c) % 32) + Bit(s, i)) % 2
  {
    hide Xor32, Rotl, Bit;
    Xor32Bit(y, Rotl(s, c), (i + c) % 32);
    RotlBit(s, c, i);
  }

  // The words that the counts of the quarterround cut off.
  lemma Cuts()
    ensures Pow2(7) == 0x80 && Pow2(9) == 0x200 && Pow2(13) == 0x2000 && Pow2(14) == 0x4000 && Pow2(18) == 0x40000
    ensures Pow2(19) == 0x80000 && Pow2(23) == 0x800000 && Pow2(25) == 0x2000000
  {
    assert Pow2(7) == 0x80;
    Pow2Add(7, 2);
    Pow2Add(9, 4);
    Pow2Add(13, 1);
    Pow2Add(9, 9);
    Pow2Add(18, 1);
    Pow2Add(14, 9);
    Pow2Add(18, 7);
  }

  lemma LastDigit(y: int, x: nat)
    requires y == 0 || y == 1
    ensures Xor(y, x) == if y == 0 then x else if x % 2 == 0 then x + 1 else x - 1
  {
  }

  // One line of the quarterround for y = 0 or 1, with the sum s = hi 2^(32 - c) + lo.
  lemma Line(y: u32, a: u32, b: u32, c: nat, hi: nat, lo: nat)
    requires (y == 0 || y == 1) && 0 < c < 32 && lo < Pow2(32 - c)
    requires (a + b) % 0x1_0000_0000 == hi * Pow2(32 - c) + lo
    ensures var x := lo * Pow2(c) + hi;
      Xor32(y, Rotl(Add32(a, b), c)) == if y == 0 then x else if x % 2 == 0 then x + 1 else x - 1
  {
    hide Rotl, Xor, Pow2;
    RotlValue(Add32(a, b), c, hi, lo);
    LastDigit(y, Rotl(Add32(a, b), c));
  }

  lemma QuarterFirst()
    ensures QuarterRound(Quad(1, 0, 0, 0)) == Quad(0x8008145, 0x80, 0x10200, 0x20500000)
  {
    hide Rotl, Xor32, Add32, Pow2;
    Cuts();
    Line(0, 1, 0, 7, 0, 1);
    Line(0, 0x80, 1, 9, 0, 0x81);
    Line(0, 0x10200, 0x80, 13, 0, 0x10280);
    Line(1, 0x20500000, 0x10200, 18, 0x8144, 0x200);
  }

  lemma QuarterSecond()
    ensures QuarterRound(Quad(0, 1, 0, 0)) == Quad(0x88000100, 1, 0x200, 0x402000)
  {
    hide Rotl, Xor32, Add32, Pow2;
    Cuts();
    Line(1, 0, 0, 7, 0, 0);
    Line(0, 1, 0, 9, 0, 1);
    Line(0, 0x200, 1, 13, 0, 0x201);
    Line(0, 0x402000, 0x200, 18, 0x100, 0x2200);
  }

  lemma QuarterThird()
    ensures QuarterRound(Quad(0, 0, 1, 0)) == Quad(0x80040000, 0, 1, 0x2000)
  {
    hide Rotl, Xor32, Add32, Pow2;
    Cuts();
    Line(0, 0, 0, 7, 0, 0);
    Line(1, 0, 0, 9, 0, 0);
    Line(0, 1, 0, 13, 0, 1);
    Line(0, 0x2000, 1, 18, 0, 0x2001);
  }

  lemma QuarterFourth()
    ensures QuarterRound(Quad(0, 0, 0, 1)) == Quad(0x48044, 0x80, 0x10000, 0x20100001)
  {
    hide Rotl, Xor32, Add32, Pow2;
    Cuts();
    Line(0, 0, 1, 7, 0, 1);
    Line(0, 0x80, 0, 9, 0, 0x80);
    Line(1, 0x10000, 0x80, 13, 0, 0x10080);
    Line(0, 0x20100001, 0x10000, 18, 0x8044, 1);
  }

  lemma QuarterEqual()
    ensures QuarterRound(Quad(1, 1, 1, 1)) == Quad(0x10090288, 0x101, 0x20401, 0x40a04001)
  {
    hide Rotl, Xor32, Add32, Pow2;
    Cuts();
    Line(1, 1, 1, 7, 0, 2);
    Line(1, 0x101, 1, 9, 0, 0x102);
    Line(1, 0x20401, 0x101, 13, 0, 0x20502);
    Line(1, 0x40a04001, 0x20401, 18, 0x10289, 0x402);
  }

  lemma QuarterZero()
    ensures QuarterRound(Quad(0, 0, 0, 0)) == Quad(0, 0, 0, 0)
  {
    hide Rotl, Xor32, Add32, Pow2;
    Cuts();
    Line(0, 0, 0, 7, 0, 0);
    Line(0, 0, 0, 9, 0, 0);
    Line(0, 0, 0, 13, 0, 0);
    Line(0, 0, 0, 18, 0, 0);
  }

  lemma QuarterRoundExamples()
    ensures QuarterRound(Quad(1, 0, 0, 0)) == Quad(0x8008145, 0x80, 0x10200, 0x20500000)
    ensures QuarterRound(Quad(0, 1, 0, 0)) == Quad(0x88000100, 1, 0x200, 0x402000)
    ensures QuarterRound(Quad(0, 0, 1, 0)) == Quad(0x80040000, 0, 1, 0x2000)
    ensures QuarterRound(Quad(0, 0, 0, 1)) == Quad(0x48044, 0x80, 0x10000, 0x20100001)
  {
    QuarterFirst();
    QuarterSecond();
    QuarterThird();
    QuarterFourth();
  }

  // ---- rows and columns, sections 4 and 5 --------------------------------------------------------

  // The first examples of sections 4 and 5.
  lemma RoundExamples()
    ensures var y := [1, 0, 0, 0, 1, 0, 0, 0, 1, 0, 0, 0, 1, 0, 0, 0];
      RowRound(y) == [0x8008145, 0x80, 0x10200, 0x20500000, 0x20100001, 0x48044, 0x80, 0x10000,
                      1, 0x2000, 0x80040000, 0, 1, 0x200, 0x402000, 0x88000100] &&
      ColumnRound(y) == [0x10090288, 0, 0, 0, 0x101, 0, 0, 0, 0x20401, 0, 0, 0, 0x40a04001, 0, 0, 0]
  {
    hide QuarterRound;
    QuarterRoundExamples();
    QuarterEqual();
    QuarterZero();
  }

  function Transposed(x: seq<u32>): (y: seq<u32>)
    requires |x| == 16
    ensures |y| == 16
  {
    seq(16, i requires 0 <= i < 16 => x[4 * (i % 4) + i / 4])
  }

  // Section 5: one can visualise the columnround as the transpose of the rowround.
  lemma ColumnsAreRows(x: seq<u32>)
    requires |x| == 16
    ensures ColumnRound(x) == Transposed(RowRound(Transposed(x)))
  {
    hide QuarterRound;
  }

  // Row r is the quarterround of the row, started at its diagonal word.
  lemma RowsOfRowRound(y: seq<u32>, r: nat)
    requires |y| == 16 && r < 4
    ensures var z := RowRound(y);
      Quad(z[5 * r], z[4 * r + (r + 1) % 4], z[4 * r + (r + 2) % 4], z[4 * r + (r + 3) % 4]) ==
      QuarterRound(Quad(y[5 * r], y[4 * r + (r + 1) % 4], y[4 * r + (r + 2) % 4], y[4 * r + (r + 3) % 4]))
  {
    hide QuarterRound;
  }

  // ---- the state, sections 8 and 9 ---------------------------------------------------------------

  lemma WordBytes(b: seq<int>, o: nat)
    requires IsBytes(b) && o + 4 <= |b|
    ensures LEBytes(LittleEndian(b, o), 4) == b[o..o + 4]
  {
    var t, w := b[o..o + 4], LittleEndian(b, o);
    WordOf(t, |t|);
    LEValueBound(t);
    ModUnique(w, Pow256(|t|), 0, w);
    BytesOfLEValue(t, w);
  }

  lemma WordOf(t: seq<int>, n: nat)
    requires |t| == n == 4
    ensures LEValue(t) == t[0] + 0x100 * t[1] + 0x10000 * t[2] + 0x1000000 * t[3]
  {
    hide Val;
    OneMore(t, 0);
    OneMore(t, 1);
    OneMore(t, 2);
    OneMore(t, n - 1);
    ValOfNone(256, t);
    assert Pow(256, 1) == 256 && Pow(256, 2) == 0x10000 && Pow(256, 3) == 0x1000000;
  }

  lemma OneMore(t: seq<int>, i: nat)
    requires i < |t|
    ensures Val(256, t, i + 1) == Val(256, t, i) + t[i] * Pow(256, i)
  {
  }

  lemma {:induction false} WordAt(w: seq<u32>, n: nat, i: nat)
    requires i < n <= |w|
    ensures Words(w, n)[4 * i..4 * i + 4] == LEBytes(w[i], 4)
  {
    hide LEBytes;
    if i < n - 1 {
      WordAt(w, n - 1, i);
      assert Words(w, n)[4 * i..4 * i + 4] == Words(w, n - 1)[4 * i..4 * i + 4];
    }
  }

  // Section 8: the constant is on the diagonal of the state, the input in words 6 to 9 and the two
  // halves of the key are in words 1 to 4 and 11 to 14.
  lemma ExpandedWords(n: seq<int>, k: seq<int>, c: seq<int>, i: nat)
    requires |n| == 16 && |k| == 32 && |c| == 16 && IsBytes(n) && IsBytes(k) && IsBytes(c) && i < 4
    ensures var x := Expand(n, k, c);
      LEBytes(x[5 * i], 4) == c[4 * i..4 * i + 4] && LEBytes(x[6 + i], 4) == n[4 * i..4 * i + 4] &&
      LEBytes(x[1 + i], 4) == k[4 * i..4 * i + 4] && LEBytes(x[11 + i], 4) == k[16 + 4 * i..20 + 4 * i]
  {
    hide LittleEndian, LEBytes;
    WordBytes(c, 4 * i);
    WordBytes(n, 4 * i);
    WordBytes(k, 4 * i);
    WordBytes(k, 16 + 4 * i);
  }

  // n rounds, columns and rows in turn.
  function InTurn(x: seq<u32>, n: nat): (z: seq<u32>)
    requires |x| == 16
    ensures |z| == 16
  {
    if n == 0 then x
    else if n % 2 == 1 then ColumnRound(InTurn(x, n - 1))
    else RowRound(InTurn(x, n - 1))
  }

  lemma {:induction false} DoubleRoundsInTurn(x: seq<u32>, n: nat)
    requires |x| == 16
    ensures DoubleRounds(x, n) == InTurn(x, 2 * n)
  {
    hide RowRound, ColumnRound;
    if n > 0 {
      DoubleRoundsInTurn(x, n - 1);
      assert InTurn(x, 2 * n - 1) == ColumnRound(InTurn(x, 2 * n - 2));
    }
  }

  // The bytes of word i after the rounds plus word i before them.
  function SumWord(x: seq<u32>, rounds: nat, i: nat): seq<int>
    requires |x| == 16 && i < 16
  {
    var sum: int := InTurn(x, rounds)[i] as int + x[i] as int;
    LEBytes(sum % 0x1_0000_0000, 4)
  }

  // Section 8: word i of the hash is word i after twenty rounds plus word i of the state.
  lemma CoreWord(n: seq<int>, k: seq<int>, c: seq<int>, i: nat, rounds: nat)
    requires |n| >= 16 && |k| >= 32 && |c| >= 16 && IsBytes(n) && IsBytes(k) && IsBytes(c)
    requires i < 16 && rounds == 20
    ensures SumWord(Expand(n, k, c), rounds, i) == Core(n, k, c)[4 * i..4 * i + 4]
  {
    hide DoubleRounds, InTurn, Expand, LEBytes, Words;
    var x := Expand(n, k, c);
    var z := SumWords(DoubleRounds(x, 10), x);
    WordAt(z, |z|, i);
    DoubleRoundsInTurn(x, 10);
  }

  // HSalsa20: the diagonal words after twenty rounds, then the words 6 to 9.
  lemma HCoreWord(n: seq<int>, k: seq<int>, c: seq<int>, i: nat, rounds: nat)
    requires |n| >= 16 && |k| >= 32 && |c| >= 16 && IsBytes(n) && IsBytes(k) && IsBytes(c)
    requires i < 4 && rounds == 20
    ensures var z := InTurn(Expand(n, k, c), rounds);
      HCore(n, k, c)[4 * i..4 * i + 4] == LEBytes(z[5 * i], 4) &&
      HCore(n, k, c)[16 + 4 * i..20 + 4 * i] == LEBytes(z[6 + i], 4)
  {
    hide DoubleRounds, InTurn, Expand, LEBytes, Words;
    var x := Expand(n, k, c);
    DoubleRoundsInTurn(x, 10);
    var z := InTurn(x, rounds);
    var d, e := [z[0], z[5], z[10], z[15]], [z[6], z[7], z[8], z[9]];
    WordAt(d, |d|, i);
    WordAt(e, |e|, i);
  }
}
