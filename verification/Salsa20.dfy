// The Salsa20 core (src/tweetnacl/tweetnacl.c, lines 48 to 69 and 91 to 138) against Bernstein's
// Salsa20 specification, sections 3 to 8.
module Salsa20 {
  import opened Bits
  import opened Bytes
  import opened Limbs

  // ---- words ----------------------------------------------------------------------------------

  function Add32(x: u32, y: u32): u32 {
    (x + y) % 0x1_0000_0000
  }

  function Sub32(x: u32, y: u32): u32 {
    (x - y) % 0x1_0000_0000
  }

  function Xor32(x: u32, y: u32): u32 {
    Pow2Values();
    XorBound(x, y, 32);
    Xor(x, y)
  }

  // L32: rotation to the left.
  function Rotl(x: u32, c: nat): u32
    requires 0 < c < 32
  {
    Pow2Values();
    Pow2Add(c, 32 - c);
    RotlBound(x, Pow2(c), Pow2(32 - c));
    OrBound(x * Pow2(c) % 0x1_0000_0000, x / Pow2(32 - c), 32);
    Or(x * Pow2(c) % 0x1_0000_0000, x / Pow2(32 - c))
  }

  lemma RotlBound(x: int, p: int, q: int)
    requires 0 <= x < 0x1_0000_0000 && p > 0 && q > 0 && p * q == 0x1_0000_0000
    ensures 0 <= x / q < 0x1_0000_0000
  {
    DivMod(x, q);
    if x / q >= 0x1_0000_0000 {
      MulNonneg(x / q - 0x1_0000_0000, q);
      MulDistributes(x / q, 0x1_0000_0000, q);
      MulNonneg(0x1_0000_0000, q - 1);
    } else if x / q < 0 {
      MulNonneg(-1 - x / q, q);
      MulDistributes(-1, x / q, q);
    }
  }

  // ---- the specification ----------------------------------------------------------------------

  datatype Quad = Quad(z0: u32, z1: u32, z2: u32, z3: u32)

  function QuarterRound(y: Quad): Quad {
    var z1 := Xor32(y.z1, Rotl(Add32(y.z0, y.z3), 7));
    var z2 := Xor32(y.z2, Rotl(Add32(z1, y.z0), 9));
    var z3 := Xor32(y.z3, Rotl(Add32(z2, z1), 13));
    var z0 := Xor32(y.z0, Rotl(Add32(z3, z2), 18));
    Quad(z0, z1, z2, z3)
  }

  function ColumnRound(x: seq<u32>): (y: seq<u32>)
    requires |x| == 16
    ensures |y| == 16
  {
    var a := QuarterRound(Quad(x[0], x[4], x[8], x[12]));
    var b := QuarterRound(Quad(x[5], x[9], x[13], x[1]));
    var c := QuarterRound(Quad(x[10], x[14], x[2], x[6]));
    var d := QuarterRound(Quad(x[15], x[3], x[7], x[11]));
    [a.z0, b.z3, c.z2, d.z1, a.z1, b.z0, c.z3, d.z2, a.z2, b.z1, c.z0, d.z3, a.z3, b.z2, c.z1, d.z0]
  }

  function RowRound(y: seq<u32>): (z: seq<u32>)
    requires |y| == 16
    ensures |z| == 16
  {
    var a := QuarterRound(Quad(y[0], y[1], y[2], y[3]));
    var b := QuarterRound(Quad(y[5], y[6], y[7], y[4]));
    var c := QuarterRound(Quad(y[10], y[11], y[8], y[9]));
    var d := QuarterRound(Quad(y[15], y[12], y[13], y[14]));
    [a.z0, a.z1, a.z2, a.z3, b.z3, b.z0, b.z1, b.z2, c.z2, c.z3, c.z0, c.z1, d.z1, d.z2, d.z3, d.z0]
  }

  function DoubleRound(x: seq<u32>): (y: seq<u32>)
    requires |x| == 16
    ensures |y| == 16
  {
    RowRound(ColumnRound(x))
  }

  function DoubleRounds(x: seq<u32>, n: nat): (y: seq<u32>)
    requires |x| == 16
    ensures |y| == 16
  {
    if n == 0 then x else DoubleRound(DoubleRounds(x, n - 1))
  }

  // The word at offset o.
  function LittleEndian(b: seq<int>, o: nat): (w: u32)
    requires o + 4 <= |b| && IsBytes(b)
  {
    b[o] + 0x100 * b[o + 1] + 0x10000 * b[o + 2] + 0x1000000 * b[o + 3]
  }

  // The expansion of key, input and constant to the initial state.
  function Expand(n: seq<int>, k: seq<int>, c: seq<int>): (x: seq<u32>)
    requires |n| >= 16 && |k| >= 32 && |c| >= 16 && IsBytes(n) && IsBytes(k) && IsBytes(c)
    ensures |x| == 16
  {
    [LittleEndian(c, 0), LittleEndian(k, 0), LittleEndian(k, 4), LittleEndian(k, 8),
     LittleEndian(k, 12), LittleEndian(c, 4), LittleEndian(n, 0), LittleEndian(n, 4),
     LittleEndian(n, 8), LittleEndian(n, 12), LittleEndian(c, 8), LittleEndian(k, 16),
     LittleEndian(k, 20), LittleEndian(k, 24), LittleEndian(k, 28), LittleEndian(c, 12)]
  }

  // The bytes of the first n words.
  function Words(w: seq<u32>, n: nat): (b: seq<int>)
    requires n <= |w|
    ensures |b| == 4 * n && IsBytes(b)
  {
    if n == 0 then [] else Words(w, n - 1) + LEBytes(w[n - 1], 4)
  }

  function SumWords(x: seq<u32>, y: seq<u32>): (z: seq<u32>)
    requires |x| == |y| == 16
    ensures |z| == 16
  {
    seq(16, i requires 0 <= i < 16 => Add32(x[i], y[i]))
  }

  // The Salsa20 hash of the expanded state: the state is added back after ten doublerounds.
  function Core(n: seq<int>, k: seq<int>, c: seq<int>): (b: seq<int>)
    requires |n| >= 16 && |k| >= 32 && |c| >= 16 && IsBytes(n) && IsBytes(k) && IsBytes(c)
    ensures |b| == 64 && IsBytes(b)
  {
    var x := Expand(n, k, c);
    var z := SumWords(DoubleRounds(x, 10), x);
    Words(z, |z|)
  }

  // The bytes of words 0, 5, 10, 15, 6, 7, 8, 9.
  function HalfBytes(z: seq<u32>): (b: seq<int>)
    requires |z| == 16
    ensures |b| == 32 && IsBytes(b)
  {
    var d, e := [z[0], z[5], z[10], z[15]], [z[6], z[7], z[8], z[9]];
    Words(d, |d|) + Words(e, |e|)
  }

  // HSalsa20: eight words of the state after ten doublerounds, not added back.
  function HCore(n: seq<int>, k: seq<int>, c: seq<int>): (b: seq<int>)
    requires |n| >= 16 && |k| >= 32 && |c| >= 16 && IsBytes(n) && IsBytes(k) && IsBytes(c)
    ensures |b| == 32 && IsBytes(b)
  {
    HalfBytes(DoubleRounds(Expand(n, k, c), 10))
  }

  // ---- one round of the source ----------------------------------------------------------------

  // What one iteration of the round loop computes: the columns are mixed and stored as rows.
  function SourceRound(x: seq<u32>): (w: seq<u32>)
    requires |x| == 16
    ensures |w| == 16
  {
    var a := QuarterRound(Quad(x[0], x[4], x[8], x[12]));
    var b := QuarterRound(Quad(x[5], x[9], x[13], x[1]));
    var c := QuarterRound(Quad(x[10], x[14], x[2], x[6]));
    var d := QuarterRound(Quad(x[15], x[3], x[7], x[11]));
    [a.z0, a.z1, a.z2, a.z3, b.z3, b.z0, b.z1, b.z2, c.z2, c.z3, c.z0, c.z1, d.z1, d.z2, d.z3, d.z0]
  }

  // Because of the transposing store, two iterations are one doubleround.
  lemma TwoRounds(x: seq<u32>)
    requires |x| == 16
    ensures SourceRound(SourceRound(x)) == DoubleRound(x)
  {
    hide QuarterRound;
  }

  function SourceRounds(x: seq<u32>, n: nat): (w: seq<u32>)
    requires |x| == 16
    ensures |w| == 16
  {
    if n == 0 then x else SourceRound(SourceRounds(x, n - 1))
  }

  lemma {:induction false} EvenRounds(x: seq<u32>, n: nat)
    requires |x| == 16
    ensures SourceRounds(x, 2 * n) == DoubleRounds(x, n)
  {
    hide SourceRound, DoubleRound;
    if n > 0 {
      EvenRounds(x, n - 1);
      TwoRounds(DoubleRounds(x, n - 1));
      assert SourceRounds(x, 2 * n) == SourceRound(SourceRounds(x, 2 * n - 1));
    }
  }

  // ---- the source's core ----------------------------------------------------------------------

  // Loading through C's shifts gives the little-endian word.
  method Ld32(x: array<u8>, o: nat) returns (u: u32)
    requires o + 4 <= x.Length
    ensures u == LittleEndian(x[..], o)
  {
    hide Or;
    assert Pow2(8) == 256;
    u := x[o + 3];
    OrDisjoint(u, x[o + 2], 8);
    u := Or(u * 256, x[o + 2]);
    OrDisjoint(u, x[o + 1], 8);
    u := Or(u * 256, x[o + 1]);
    OrDisjoint(u, x[o], 8);
    u := Or(u * 256, x[o]);
  }

  method St32(x: array<u8>, o: nat, w: u32)
    requires o + 4 <= x.Length
    modifies x
    ensures x[o..o + 4] == LEBytes(w, 4)
    ensures x[..o] == old(x[..o]) && x[o + 4..] == old(x[o + 4..])
  {
    hide Pow256;
    var u: u32 := w;
    LEBytesStep(w, 0);
    for i := 0 to 4
      invariant u == w / Pow256(i)
      invariant x[o..o + i] == LEBytes(w, i)
      invariant x[..o] == old(x[..o]) && x[o + 4..] == old(x[o + 4..])
    {
      LEBytesStep(w, i);
      x[o + i] := u % 256;
      assert x[o..o + i + 1] == x[o..o + i] + [x[o + i]];
      u := u / 256;
    }
  }

  lemma LEBytesStep(w: int, i: nat)
    ensures i == 0 ==> w / Pow256(i) == w && LEBytes(w, i) == []
    ensures LEBytes(w, i + 1) == LEBytes(w, i) + [w / Pow256(i) % 256]
    ensures w / Pow256(i + 1) == w / Pow256(i) / 256
  {
    DivDiv(w, Pow256(i), 256);
  }

  // Line 106 to 110: the quarterround, in place.
  method MixQuad(t: array<u32>)
    requires t.Length == 4
    modifies t
    ensures Quad(t[0], t[1], t[2], t[3]) == QuarterRound(old(Quad(t[0], t[1], t[2], t[3])))
  {
    hide Add32, Xor32, Rotl;
    t[1] := Xor32(t[1], Rotl(Add32(t[0], t[3]), 7));
    t[2] := Xor32(t[2], Rotl(Add32(t[1], t[0]), 9));
    t[3] := Xor32(t[3], Rotl(Add32(t[2], t[1]), 13));
    t[0] := Xor32(t[0], Rotl(Add32(t[3], t[2]), 18));
  }

  // Line 111: the rotated store.
  method StoreRow(w: array<u32>, t: array<u32>, j: nat)
    requires w.Length == 16 && t.Length == 4 && w != t && j < 4
    modifies w
    ensures w[4 * j + j % 4] == t[0] && w[4 * j + (j + 1) % 4] == t[1]
    ensures w[4 * j + (j + 2) % 4] == t[2] && w[4 * j + (j + 3) % 4] == t[3]
    ensures forall k :: 0 <= k < 16 && !(4 * j <= k < 4 * j + 4) ==> w[k] == old(w[k])
  {
    for m := 0 to 4
      invariant t[..] == old(t[..])
      invariant forall k :: 0 <= k < 16 && !(4 * j <= k < 4 * j + 4) ==> w[k] == old(w[k])
      invariant m > 0 ==> w[4 * j + j % 4] == t[0]
      invariant m > 1 ==> w[4 * j + (j + 1) % 4] == t[1]
      invariant m > 2 ==> w[4 * j + (j + 2) % 4] == t[2]
      invariant m > 3 ==> w[4 * j + (j + 3) % 4] == t[3]
    {
      w[4 * j + (j + m) % 4] := t[m];
    }
  }

  // Lines 106 to 111: one column of x, mixed and stored as row j of w.
  method MixColumn(x: array<u32>, w: array<u32>, j: nat)
    requires x.Length == 16 && w.Length == 16 && x != w && j < 4
    modifies w
    ensures forall k :: 4 * j <= k < 4 * j + 4 ==> w[k] == SourceRound(x[..])[k]
    ensures forall k :: 0 <= k < 16 && !(4 * j <= k < 4 * j + 4) ==> w[k] == old(w[k])
  {
    hide QuarterRound, SourceRound;
    var t := new u32[4](m requires 0 <= m < 4 reads x => x[(5 * j + 4 * m) % 16]);
    MixQuad(t);
    ColumnIndices(x[..], j, Quad(t[0], t[1], t[2], t[3]));
    StoreRow(w, t, j);
    RowComplete(w[..], SourceRound(x[..]), j);
  }

  lemma RowComplete(w: seq<u32>, v: seq<u32>, j: nat)
    requires |w| == |v| == 16 && j < 4
    requires w[4 * j + j % 4] == v[4 * j + j % 4] && w[4 * j + (j + 1) % 4] == v[4 * j + (j + 1) % 4]
    requires w[4 * j + (j + 2) % 4] == v[4 * j + (j + 2) % 4] && w[4 * j + (j + 3) % 4] == v[4 * j + (j + 3) % 4]
    ensures forall k :: 4 * j <= k < 4 * j + 4 ==> w[k] == v[k]
  {
    if j == 0 {
    } else if j == 1 {
    } else if j == 2 {
    } else {
      assert j == 3;
    }
  }

  lemma ColumnIndices(x: seq<u32>, j: nat, q: Quad)
    requires |x| == 16 && j < 4
    requires q == QuarterRound(Quad(x[5 * j % 16], x[(5 * j + 4) % 16], x[(5 * j + 8) % 16], x[(5 * j + 12) % 16]))
    ensures var w := SourceRound(x);
      w[4 * j + j % 4] == q.z0 && w[4 * j + (j + 1) % 4] == q.z1 &&
      w[4 * j + (j + 2) % 4] == q.z2 && w[4 * j + (j + 3) % 4] == q.z3
  {
    hide QuarterRound;
    if j == 0 {
    } else if j == 1 {
    } else if j == 2 {
    } else {
      assert j == 3;
    }
  }

  // Lines 104 to 114: twenty rounds.
  method TwentyRounds(x: array<u32>)
    requires x.Length == 16
    modifies x
    ensures x[..] == DoubleRounds(old(x[..]), 10)
  {
    hide SourceRound;
    ghost var s := x[..];
    var w := new u32[16];
    for i := 0 to 20
      invariant x[..] == SourceRounds(s, i)
    {
      ghost var y := x[..];
      for j := 0 to 4
        invariant x[..] == y
        invariant forall k :: 0 <= k < 4 * j ==> w[k] == SourceRound(y)[k]
      {
        MixColumn(x, w, j);
      }
      for m := 0 to 16
        invariant forall k :: 0 <= k < 16 ==> w[k] == SourceRound(y)[k]
        invariant forall k :: 0 <= k < m ==> x[k] == w[k]
      {
        x[m] := w[m];
      }
      assert x[..] == SourceRound(y);
    }
    EvenRounds(s, 10);
  }

  // ---- loading and storing ---------------------------------------------------------------------

  // Lines 95 to 100.
  method LoadState(n: array<u8>, k: array<u8>, c: array<u8>) returns (x: array<u32>)
    requires n.Length >= 16 && k.Length >= 32 && c.Length >= 16
    ensures fresh(x) && x.Length == 16 && x[..] == Expand(n[..], k[..], c[..])
  {
    hide LittleEndian;
    x := new u32[16];
    for i := 0 to 4
      invariant n[..] == old(n[..]) && k[..] == old(k[..]) && c[..] == old(c[..])
      invariant forall j :: 0 <= j < i ==> Loaded(x[..], n[..], k[..], c[..], j)
    {
      ghost var before := x[..];
      x[5 * i] := Ld32(c, 4 * i);
      x[1 + i] := Ld32(k, 4 * i);
      x[6 + i] := Ld32(n, 4 * i);
      x[11 + i] := Ld32(k, 16 + 4 * i);
      LoadedKeeps(before, x[..], n[..], k[..], c[..], i);
    }
    AllLoaded(x[..], n[..], k[..], c[..]);
  }

  // The four words that iteration j of the loading loop stores.
  ghost predicate Loaded(x: seq<u32>, n: seq<int>, k: seq<int>, c: seq<int>, j: nat)
    requires |x| == 16 && j < 4
    requires |n| >= 16 && |k| >= 32 && |c| >= 16 && IsBytes(n) && IsBytes(k) && IsBytes(c)
  {
    x[5 * j] == LittleEndian(c, 4 * j) && x[1 + j] == LittleEndian(k, 4 * j) &&
    x[6 + j] == LittleEndian(n, 4 * j) && x[11 + j] == LittleEndian(k, 16 + 4 * j)
  }

  lemma LoadedKeeps(x: seq<u32>, y: seq<u32>, n: seq<int>, k: seq<int>, c: seq<int>, i: nat)
    requires |x| == |y| == 16 && i < 4
    requires |n| >= 16 && |k| >= 32 && |c| >= 16 && IsBytes(n) && IsBytes(k) && IsBytes(c)
    requires forall j :: 0 <= j < i ==> Loaded(x, n, k, c, j)
    requires forall m :: 0 <= m < 16 && m != 5 * i && m != 1 + i && m != 6 + i && m != 11 + i ==> y[m] == x[m]
    ensures forall j :: 0 <= j < i ==> Loaded(y, n, k, c, j)
  {
    hide LittleEndian;
    forall j | 0 <= j < i
      ensures Loaded(y, n, k, c, j)
    {
      assert Loaded(x, n, k, c, j);
      assert 5 * j != 1 + i && 5 * j != 6 + i && 5 * j != 11 + i;
      assert 1 + j != 5 * i && 6 + j != 5 * i && 11 + j != 5 * i;
    }
  }

  lemma AllLoaded(x: seq<u32>, n: seq<int>, k: seq<int>, c: seq<int>)
    requires |x| == 16
    requires |n| >= 16 && |k| >= 32 && |c| >= 16 && IsBytes(n) && IsBytes(k) && IsBytes(c)
    requires forall j :: 0 <= j < 4 ==> Loaded(x, n, k, c, j)
    ensures x == Expand(n, k, c)
  {
    hide LittleEndian;
    assert Loaded(x, n, k, c, 0) && Loaded(x, n, k, c, 1) && Loaded(x, n, k, c, 2) && Loaded(x, n, k, c, 3);
  }

  // Line 127: the words of the sum, in order.
  method StoreSum(out: array<u8>, x: array<u32>, y: array<u32>)
    requires out.Length >= 64 && x.Length == 16 && y.Length == 16
    modifies out
    ensures var z := SumWords(old(x[..]), old(y[..])); out[..64] == Words(z, |z|)
    ensures out[64..] == old(out[64..])
  {
    hide Add32;
    ghost var z := SumWords(x[..], y[..]);
    for i := 0 to 16
      invariant x[..] == old(x[..]) && y[..] == old(y[..])
      invariant out[..4 * i] == Words(z, i)
      invariant out[64..] == old(out[64..])
    {
      ghost var before := out[..];
      St32(out, 4 * i, Add32(x[i], y[i]));
      assert out[..4 * i + 4] == out[..4 * i] + out[4 * i..4 * i + 4];
      assert out[64..] == out[4 * i + 4..][60 - 4 * i..] && before[64..] == before[4 * i + 4..][60 - 4 * i..];
    }
  }

  lemma SubAdd(z: u32, y: u32)
    ensures Sub32(Add32(z, y), y) == z
  {
  }

  // Lines 117 to 121: the state is fed forward and what is public is taken off again.
  method UndoPublic(x: array<u32>, y: array<u32>, n: array<u8>, c: array<u8>, ghost k: seq<int>)
    requires x.Length == 16 && y.Length == 16 && x != y && n.Length >= 16 && c.Length >= 16
    requires |k| >= 32 && IsBytes(k) && y[..] == Expand(n[..], k, c[..])
    modifies x
    ensures forall j :: 0 <= j < 4 ==> Restored(x[..], old(x[..]), j)
  {
    hide Add32, Sub32, LittleEndian;
    ghost var z, e := x[..], y[..];
    for i := 0 to 16
      invariant y[..] == e && n[..] == old(n[..]) && c[..] == old(c[..])
      invariant forall j :: i <= j < 16 ==> x[j] == z[j]
      invariant forall j :: 0 <= j < i ==> x[j] == Add32(z[j], e[j])
    {
      x[i] := Add32(x[i], y[i]);
    }
    for i := 0 to 4
      invariant n[..] == old(n[..]) && c[..] == old(c[..])
      invariant forall j :: i <= j < 4 ==> Fed(x[..], z, e, j)
      invariant forall j :: 0 <= j < i ==> Restored(x[..], z, j)
    {
      ghost var before := x[..];
      PublicWords(n[..], k, c[..], i);
      assert Fed(x[..], z, e, i);
      SubAdd(z[5 * i], e[5 * i]);
      SubAdd(z[6 + i], e[6 + i]);
      var u := Ld32(c, 4 * i);
      x[5 * i] := Sub32(x[5 * i], u);
      u := Ld32(n, 4 * i);
      x[6 + i] := Sub32(x[6 + i], u);
      RestoredKeeps(before, x[..], z, e, i);
    }
  }

  lemma RestoredKeeps(x: seq<u32>, y: seq<u32>, z: seq<u32>, e: seq<u32>, i: nat)
    requires |x| == |y| == |z| == |e| == 16 && i < 4
    requires forall j :: i <= j < 4 ==> Fed(x, z, e, j)
    requires forall j :: 0 <= j < i ==> Restored(x, z, j)
    requires forall m :: 0 <= m < 16 && m != 5 * i && m != 6 + i ==> y[m] == x[m]
    ensures forall j :: i < j < 4 ==> Fed(y, z, e, j)
    ensures forall j :: 0 <= j < i ==> Restored(y, z, j)
  {
    hide Add32;
    forall j | 0 <= j < 4 && j != i
      ensures if j < i then Restored(y, z, j) else Fed(y, z, e, j)
    {
      assert if j < i then Restored(x, z, j) else Fed(x, z, e, j);
      assert 5 * j != 6 + i && 6 + j != 5 * i;
    }
  }

  ghost predicate Fed(x: seq<u32>, z: seq<u32>, e: seq<u32>, j: nat)
    requires |x| == |z| == |e| == 16 && j < 4
  {
    x[5 * j] == Add32(z[5 * j], e[5 * j]) && x[6 + j] == Add32(z[6 + j], e[6 + j])
  }

  ghost predicate Restored(x: seq<u32>, z: seq<u32>, j: nat)
    requires |x| == |z| == 16 && j < 4
  {
    x[5 * j] == z[5 * j] && x[6 + j] == z[6 + j]
  }

  lemma PublicWords(n: seq<int>, k: seq<int>, c: seq<int>, i: nat)
    requires |n| >= 16 && |k| >= 32 && |c| >= 16 && IsBytes(n) && IsBytes(k) && IsBytes(c) && i < 4
    ensures Expand(n, k, c)[5 * i] == LittleEndian(c, 4 * i) && Expand(n, k, c)[6 + i] == LittleEndian(n, 4 * i)
  {
    hide LittleEndian;
    if i == 0 {
    } else if i == 1 {
    } else if i == 2 {
    } else {
      assert i == 3;
    }
  }

  // Lines 122 to 125: the diagonal words to the first half, words 6 to 9 to the second.
  method StoreHalf(out: array<u8>, x: array<u32>)
    requires out.Length >= 32 && x.Length == 16
    modifies out
    ensures var z := old(x[..]); out[..32] == HalfBytes(z)
    ensures out[32..] == old(out[32..])
  {
    ghost var d, e := [x[0], x[5], x[10], x[15]], [x[6], x[7], x[8], x[9]];
    ghost var z := x[..];
    for i := 0 to 4
      invariant x[..] == z
      invariant out[..4 * i] == Words(d, i) && out[16..16 + 4 * i] == Words(e, i)
      invariant out[32..] == old(out[32..])
    {
      assert z[5 * i] == d[i] && z[6 + i] == e[i];
      StorePair(out, 4 * i, x[5 * i], x[6 + i]);
    }
    assert out[..32] == out[..16] + out[16..32];
  }

  method StorePair(out: array<u8>, o: nat, u: u32, v: u32)
    requires out.Length >= 32 && o + 4 <= 16
    modifies out
    ensures out[..o + 4] == old(out[..o]) + LEBytes(u, 4)
    ensures out[16..16 + o + 4] == old(out[16..16 + o]) + LEBytes(v, 4)
    ensures out[32..] == old(out[32..])
  {
    ghost var s: seq<int> := out[..];
    St32(out, o, u);
    ghost var t: seq<int> := out[..];
    assert t == s[..o] + LEBytes(u, 4) + s[o + 4..];
    St32(out, 16 + o, v);
    assert out[..] == t[..16 + o] + LEBytes(v, 4) + t[20 + o..];
  }

  // core: the Salsa20 block for h = 0 and the HSalsa20 key for h = 1.
  method CoreInPlace(out: array<u8>, n: array<u8>, k: array<u8>, c: array<u8>, h: bool)
    requires n.Length >= 16 && k.Length >= 32 && c.Length >= 16
    requires out.Length >= if h then 32 else 64
    modifies out
    ensures !h ==> out[..64] == Core(old(n[..]), old(k[..]), old(c[..])) && out[64..] == old(out[64..])
    ensures h ==> out[..32] == HCore(old(n[..]), old(k[..]), old(c[..])) && out[32..] == old(out[32..])
  {
    hide Expand, SumWords, HalfBytes, DoubleRounds;
    var x := LoadState(n, k, c);
    var y := new u32[16](i requires 0 <= i < 16 reads x => x[i]);
    assert y[..] == x[..];
    TwentyRounds(x);
    ghost var z := x[..];
    if h {
      UndoPublic(x, y, n, c, k[..]);
      SameHalf(z, x[..]);
      StoreHalf(out, x);
    } else {
      StoreSum(out, x, y);
    }
  }

  lemma SameHalf(z: seq<u32>, x: seq<u32>)
    requires |z| == |x| == 16
    requires forall j :: 0 <= j < 4 ==> Restored(x, z, j)
    ensures HalfBytes(x) == HalfBytes(z)
  {
    hide Words;
    assert Restored(x, z, 0) && Restored(x, z, 1) && Restored(x, z, 2) && Restored(x, z, 3);
  }
}
