// The Salsa20 and XSalsa20 stream ciphers (src/tweetnacl/tweetnacl.c, lines 140 to 192).
module Stream {
  import opened Bits
  import opened Bytes
  import opened Limbs
  import opened Salsa20

  // "expand 32-byte k"
  function Sigma(): (s: seq<u8>)
    ensures |s| == 16
  {
    [101, 120, 112, 97, 110, 100, 32, 51, 50, 45, 98, 121, 116, 101, 32, 107]
  }

  const LIMIT: nat := 268435456   // 256 MiB

  lemma SigmaText(i: nat)
    requires i < 16
    ensures |"expand 32-byte k"| == 16 && Sigma()[i] == "expand 32-byte k"[i] as int
  {
  }

  lemma LimitValue(n: nat)
    requires n == 28
    ensures LIMIT == Pow2(n)
  {
    Pow2Values();
    Pow2Add(n - 12, 12);
    Pow2Add(8, 4);
  }

  function XorByte(x: u8, y: u8): u8 {
    Pow2Values();
    XorBound(x, y, 8);
    Xor(x, y)
  }

  // Block number t of the key stream: the core applied to the nonce and the 64-bit block number.
  function StreamBlock(n: seq<int>, k: seq<int>, t: nat): (b: seq<int>)
    requires |n| == 8 && |k| == 32 && IsBytes(n) && IsBytes(k)
    ensures |b| == 64 && IsBytes(b)
  {
    Core(n + LEBytes(t, 8), k, Sigma())
  }

  // Byte i of the key stream.
  function StreamByte(n: seq<int>, k: seq<int>, i: nat): u8
    requires |n| == 8 && |k| == 32 && IsBytes(n) && IsBytes(k)
  {
    StreamBlock(n, k, i / 64)[i % 64]
  }

  // The message, exclusive-or the key stream.
  function XorStream(m: seq<int>, n: seq<int>, k: seq<int>): (c: seq<int>)
    requires |n| == 8 && |k| == 32 && IsBytes(n) && IsBytes(k) && IsBytes(m)
    ensures |c| == |m| && IsBytes(c)
  {
    seq(|m|, i requires 0 <= i < |m| => XorByte(m[i], StreamByte(n, k, i)))
  }

  lemma XorStreamAt(m: seq<int>, i: nat, n: seq<int>, k: seq<int>)
    requires |n| == 8 && |k| == 32 && IsBytes(n) && IsBytes(k) && IsBytes(m) && i < |m|
    ensures XorStream(m, n, k)[i] == XorByte(m[i], StreamByte(n, k, i))
  {
  }

  // Byte i of c is byte i of m, exclusive-or byte i mod 64 of the core applied to the nonce and the
  // block number i div 64.
  ghost predicate Bytewise(c: seq<int>, m: seq<int>, n: seq<int>, k: seq<int>)
    requires |n| == 8 && |k| == 32 && IsBytes(n) && IsBytes(k)
  {
    |c| == |m| &&
    forall i :: 0 <= i < |m| ==> c[i] == Xor(m[i], Core(n + LEBytes(i / 64, 8), k, Sigma())[i % 64])
  }

  lemma BytewiseStream(m: seq<int>, n: seq<int>, k: seq<int>)
    requires |n| == 8 && |k| == 32 && IsBytes(n) && IsBytes(k) && IsBytes(m)
    ensures Bytewise(XorStream(m, n, k), m, n, k)
  {
    hide Core, LEBytes, Xor;
    forall i | 0 <= i < |m|
      ensures XorStream(m, n, k)[i] == Xor(m[i], Core(n + LEBytes(i / 64, 8), k, Sigma())[i % 64])
    {
      XorStreamAt(m, i, n, k);
    }
  }

  // Encrypting twice gives the message back.
  lemma XorStreamTwice(m: seq<int>, n: seq<int>, k: seq<int>)
    requires |n| == 8 && |k| == 32 && IsBytes(n) && IsBytes(k) && IsBytes(m)
    ensures XorStream(XorStream(m, n, k), n, k) == m
  {
    hide StreamByte;
    var c := XorStream(m, n, k);
    forall i | 0 <= i < |m|
      ensures XorStream(c, n, k)[i] == m[i]
    {
      XorCancelsRight(StreamByte(n, k, i), m[i]);
    }
  }

  // The stream does not depend on what follows: a prefix is encrypted to a prefix.
  lemma XorStreamPrefix(m: seq<int>, j: nat, n: seq<int>, k: seq<int>)
    requires |n| == 8 && |k| == 32 && IsBytes(n) && IsBytes(k) && IsBytes(m) && j <= |m|
    ensures XorStream(m[..j], n, k) == XorStream(m, n, k)[..j]
  {
    hide StreamByte, XorByte;
  }

  // ---- the block counter ----------------------------------------------------------------------

  // Lines 160 to 165: z[8..16] counts blocks in little-endian bytes, with a byte carry.
  method CountBlock(z: array<u8>, ghost t: nat)
    requires z.Length == 16 && z[8..] == LEBytes(t, 8)
    modifies z
    ensures z[..8] == old(z[..8]) && z[8..] == LEBytes(t + 1, 8)
  {
    hide LEValue;
    ghost var s: seq<int> := z[8..];
    var u: u32 := 1;
    for i := 8 to 16
      invariant u <= 1 && z[..8] == old(z[..8])
      invariant forall j :: i <= j < 16 ==> z[j] == s[j - 8]
      invariant Val(256, z[8..], i - 8) + u * Pow(256, i - 8) == Val(256, s, i - 8) + 1
    {
      ghost var before: seq<int>, c: int := z[8..], u;
      u := u + z[i];
      z[i] := u % 256;
      u := u / 256;
      CarryStep(before, z[8..], s, c, u, 1, i - 8);
    }
    Counted(s, z[8..], u, t);
  }

  lemma Counted(s: seq<int>, z: seq<int>, u: int, t: nat)
    requires |s| == |z| == 8 && s == LEBytes(t, 8) && IsBytes(z)
    requires Val(256, z, 8) + u * Pow(256, 8) == Val(256, s, 8) + 1
    ensures z == LEBytes(t + 1, 8)
  {
    LEValueOfBytes(t, |s|);
    LEValueBound(z);
    var m := Pow256(|z|);
    DivMod(t, m);
    ModUnique(t + 1, m, t / m + u, LEValue(z));
    BytesOfLEValue(z, t + 1);
  }

  // ---- the cipher -----------------------------------------------------------------------------

  // What the message pointer stands for: a null message is a string of zeros.
  ghost function Message(m: array?<u8>, b: nat): seq<int>
    requires m != null ==> b <= m.Length
    reads m
  {
    if m == null then seq(b, _ => 0) else m[..b]
  }

  // c[off..off+len] := m[off..off+len] ^ x
  method XorBlock(c: array<u8>, m: array?<u8>, off: nat, len: nat, x: array<u8>)
    requires off + len <= c.Length && (m != null ==> off + len <= m.Length) && m != c && x != c
    requires len <= 64 && x.Length == 64
    modifies c
    ensures c[..off] == old(c[..off]) && c[off + len..] == old(c[off + len..])
    ensures forall i :: off <= i < off + len ==> c[i] == XorByte(if m == null then 0 else m[i], x[i - off])
  {
    hide XorByte;
    for i := 0 to len
      invariant c[..off] == old(c[..off]) && c[off + len..] == old(c[off + len..])
      invariant forall j :: off <= j < off + i ==> c[j] == XorByte(if m == null then 0 else m[j], x[j - off])
    {
      var b: u8 := if m == null then 0 else m[off + i];
      c[off + i] := XorByte(b, x[i]);
    }
  }

  // Lines 158 and 159, or 172 and 173: block number t of the stream over len bytes.
  method CipherBlock(c: array<u8>, m: array?<u8>, off: nat, len: nat, z: array<u8>, k: array<u8>,
                     ghost t: nat, ghost msg: seq<int>, ghost n: seq<int>)
    requires off + len <= |msg| <= c.Length && (m != null ==> |msg| <= m.Length) && m != c
    requires z != c && k != c && z.Length == 16 && k.Length == 32 && len <= 64 && off == 64 * t
    requires IsBytes(msg) && msg == Message(m, |msg|) && |n| == 8 && IsBytes(n)
    requires z[..8] == n && z[8..] == LEBytes(t, 8)
    requires c[..off] == XorStream(msg, n, k[..])[..off]
    modifies c
    ensures c[..off + len] == XorStream(msg, n, k[..])[..off + len]
    ensures c[off + len..] == old(c[off + len..])
  {
    hide StreamBlock, XorByte;
    var x := KeyBlock(z, k, t, n);
    ghost var before, w: seq<int> := c[..], XorStream(msg, n, k[..]);
    XorBlock(c, m, off, len, x);
    BlockBytes(before, c[..], msg, n, k[..], x[..], off, t, len);
  }

  method KeyBlock(z: array<u8>, k: array<u8>, ghost t: nat, ghost n: seq<int>) returns (x: array<u8>)
    requires z.Length == 16 && k.Length == 32 && |n| == 8 && IsBytes(n)
    requires z[..8] == n && z[8..] == LEBytes(t, 8)
    ensures fresh(x) && x.Length == 64 && x[..] == StreamBlock(n, k[..], t)
  {
    hide Core;
    x := new u8[64];
    var sigma := new u8[16](i requires 0 <= i < 16 => Sigma()[i]);
    assert sigma[..] == Sigma();
    CoreInPlace(x, z, k, sigma, false);
    assert z[..] == n + LEBytes(t, 8);
    assert x[..] == x[..64];
  }

  lemma BlockBytes(before: seq<u8>, c: seq<u8>, msg: seq<int>, n: seq<int>, k: seq<int>, x: seq<u8>, off: nat, t: nat, len: nat)
    requires off + len <= |msg| <= |c| == |before| && len <= 64 && off == 64 * t && |x| == 64
    requires |n| == 8 && |k| == 32 && IsBytes(n) && IsBytes(k) && IsBytes(msg)
    requires x == StreamBlock(n, k, t)
    requires before[..off] == XorStream(msg, n, k)[..off] && c[..off] == before[..off]
    requires forall i :: off <= i < off + len ==> c[i] == XorByte(msg[i], x[i - off])
    ensures c[..off + len] == XorStream(msg, n, k)[..off + len]
  {
    hide StreamBlock, XorByte;
    var w := XorStream(msg, n, k);
    forall i | 0 <= i < off + len
      ensures c[i] == w[i]
    {
      if i < off {
        assert c[i] == c[..off][i] == w[..off][i];
      } else {
      }
    }
  }

  // crypto_stream_salsa20_xor with the nonce at n[no..no+8].
  method StreamSalsa20Xor(c: array<u8>, m: array?<u8>, b: nat, n: array<u8>, no: nat, k: array<u8>) returns (ret: int)
    requires b <= c.Length && (m != null ==> b <= m.Length) && no + 8 <= n.Length && k.Length == 32 && k != c
    modifies c
    ensures ret == if b == 0 then 0 else if b > LIMIT || m == c then -1 else 0
    ensures ret == 0 ==> c[..b] == XorStream(old(Message(m, b)), old(n[no..no + 8]), k[..])
    ensures ret == 0 ==> Bytewise(c[..b], old(Message(m, b)), old(n[no..no + 8]), k[..])
    ensures ret == -1 ==> c[..b] == old(c[..b])
    ensures c[b..] == old(c[b..])
  {
    hide XorStream, StreamBlock, Bytewise;
    if b == 0 {
      BytewiseStream([], n[no..no + 8], k[..]);
      assert Message(m, b) == [] && c[..b] == XorStream([], n[no..no + 8], k[..]);
      return 0;
    }
    if b > LIMIT {
      return -1;
    }
    if m == c {
      return -1;
    }
    ghost var msg, nonce: seq<int> := Message(m, b), n[no..no + 8];
    var z := StartNonce(n, no);
    CipherAll(c, m, z, k, b, msg, nonce);
    BytewiseStream(msg, nonce, k[..]);
    ret := 0;
  }

  // Lines 157 to 174: whole blocks, then the rest.
  method CipherAll(c: array<u8>, m: array?<u8>, z: array<u8>, k: array<u8>, b: nat,
                   ghost msg: seq<int>, ghost nonce: seq<int>)
    requires b == |msg| <= c.Length && (m != null ==> |msg| <= m.Length) && m != c
    requires z != c && k != c && z != k && z != m && z.Length == 16 && k.Length == 32
    requires IsBytes(msg) && msg == Message(m, |msg|) && |nonce| == 8 && IsBytes(nonce)
    requires z[..8] == nonce && z[8..] == LEBytes(0, 8)
    modifies c, z
    ensures c[..|msg|] == XorStream(msg, nonce, k[..])
    ensures c[|msg|..] == old(c[|msg|..])
  {
    hide XorStream, Message;
    ghost var key: seq<int> := k[..];
    ghost var t := 0;
    var off, rest := 0, b;
    while rest >= 64
      invariant off + rest == b && off == 64 * t && msg == Message(m, b) && k[..] == key
      invariant z[..8] == nonce && z[8..] == LEBytes(t, 8)
      invariant c[..off] == XorStream(msg, nonce, key)[..off]
      invariant c[b..] == old(c[b..])
    {
      KeepTail(c[..], off + 64, b);
      CipherBlock(c, m, off, 64, z, k, t, msg, nonce);
      KeepTail(c[..], off + 64, b);
      CountBlock(z, t);
      t := t + 1;
      rest := rest - 64;
      off := off + 64;
    }
    if rest > 0 {
      CipherBlock(c, m, off, rest, z, k, t, msg, nonce);
    }
  }

  // Lines 155 and 156.
  method StartNonce(n: array<u8>, no: nat) returns (z: array<u8>)
    requires no + 8 <= n.Length
    ensures fresh(z) && z.Length == 16 && z[..8] == n[no..no + 8] && z[8..] == LEBytes(0, 8)
  {
    z := new u8[16](_ => 0);
    for i := 0 to 8
      invariant forall j :: 0 <= j < i ==> z[j] == n[no + j]
      invariant forall j :: i <= j < 16 ==> z[j] == 0
    {
      z[i] := n[no + i];
    }
  }

  lemma KeepTail(c: seq<int>, i: nat, b: nat)
    requires i <= b <= |c|
    ensures c[i..][b - i..] == c[b..]
  {
  }
}
