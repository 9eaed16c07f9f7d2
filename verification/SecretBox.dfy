// XSalsa20 and the authenticated box built on it (src/tweetnacl/tweetnacl.c, lines 182 to 192 and
// 265 to 299).
module SecretBox {
  import opened Bits
  import opened Bytes
  import opened Salsa20
  import opened Stream
  import Poly1305

  // The key of XSalsa20: HSalsa20 of the first sixteen nonce bytes.
  function SubKey(n: seq<int>, k: seq<int>): (s: seq<int>)
    requires |n| == 24 && |k| == 32 && IsBytes(n) && IsBytes(k)
    ensures |s| == 32 && IsBytes(s)
  {
    HCore(n, k, Sigma())
  }

  function XStream(m: seq<int>, n: seq<int>, k: seq<int>): (c: seq<int>)
    requires |n| == 24 && |k| == 32 && IsBytes(n) && IsBytes(k) && IsBytes(m)
    ensures |c| == |m| && IsBytes(c)
  {
    XorStream(m, n[16..], SubKey(n, k))
  }

  // Byte i of c is byte i of m, exclusive-or byte i mod 64 of the core applied to the last eight
  // nonce bytes and the block number, under the HSalsa20 key of the first sixteen nonce bytes.
  ghost predicate XBytewise(c: seq<int>, m: seq<int>, n: seq<int>, k: seq<int>)
    requires |n| == 24 && |k| == 32 && IsBytes(n) && IsBytes(k)
  {
    hide HCore, Core, LEBytes, Xor;
    var key := HCore(n[..16], k, Sigma());
    |c| == |m| &&
    forall i :: 0 <= i < |m| ==> c[i] == Xor(m[i], Core(n[16..24] + LEBytes(i / 64, 8), key, Sigma())[i % 64])
  }

  lemma FirstSixteen(n: seq<int>, k: seq<int>)
    requires |n| == 24 && |k| == 32 && IsBytes(n) && IsBytes(k)
    ensures SubKey(n, k) == HCore(n[..16], k, Sigma())
  {
    hide HalfBytes, DoubleRounds, Sigma;
  }

  lemma XStreamBytes(m: seq<int>, n: seq<int>, k: seq<int>)
    requires |n| == 24 && |k| == 32 && IsBytes(n) && IsBytes(k) && IsBytes(m)
    ensures XBytewise(XStream(m, n, k), m, n, k)
  {
    hide XorStream, SubKey, Core, HCore, LEBytes, Xor;
    FirstSixteen(n, k);
    assert n[16..] == n[16..24];
    BytewiseStream(m, n[16..], SubKey(n, k));
  }

  // What crypto_secretbox makes of the encrypted buffer x: the first 32 bytes are the one-time key.
  ghost function Seal(x: seq<int>): (c: seq<int>)
    requires |x| >= 32
    ensures |c| == |x|
  {
    Zeros(16) + Poly1305.Tag(x[32..], x[..32]) + x[32..]
  }

  ghost function Box(m: seq<int>, n: seq<int>, k: seq<int>): (c: seq<int>)
    requires |m| >= 32 && |n| == 24 && |k| == 32 && IsBytes(n) && IsBytes(k) && IsBytes(m)
    ensures |c| == |m|
  {
    Seal(XStream(m, n, k))
  }

  // The test that crypto_secretbox_open makes before it decrypts.
  ghost predicate Authentic(c: seq<int>, n: seq<int>, k: seq<int>)
    requires |c| >= 32 && |n| == 24 && |k| == 32 && IsBytes(n) && IsBytes(k)
  {
    c[16..32] == Poly1305.Tag(c[32..], XStream(Zeros(32), n, k))
  }

  ghost function Unbox(c: seq<int>, n: seq<int>, k: seq<int>): (m: seq<int>)
    requires |c| >= 32 && |n| == 24 && |k| == 32 && IsBytes(n) && IsBytes(k) && IsBytes(c)
  {
    Zeros(32) + XStream(c, n, k)[32..]
  }

  // ---- the laws -------------------------------------------------------------------------------

  // Byte i of the key stream of XSalsa20.
  ghost function KeyStreamByte(n: seq<int>, k: seq<int>, i: nat): int
    requires |n| == 24 && |k| == 32 && IsBytes(n) && IsBytes(k)
  {
    hide Core, HCore, LEBytes;
    Core(n[16..24] + LEBytes(i / 64, 8), HCore(n[..16], k, Sigma()), Sigma())[i % 64]
  }

  // The box of a message behind 32 zero bytes: sixteen zeros, the tag of the encrypted message
  // under the first 32 bytes of the key stream, and the message under the bytes after them.
  lemma BoxLaw(m: seq<int>, n: seq<int>, k: seq<int>, key: seq<int>)
    requires |m| >= 32 && |n| == 24 && |k| == 32 && IsBytes(n) && IsBytes(k) && IsBytes(m)
    requires forall i :: 0 <= i < 32 ==> m[i] == 0
    requires |key| == 32 && forall i :: 0 <= i < 32 ==> key[i] == KeyStreamByte(n, k, i)
    ensures var c := Box(m, n, k);
      (forall i :: 0 <= i < 16 ==> c[i] == 0) && c[16..32] == Poly1305.Tag(c[32..], key) &&
      forall i :: 32 <= i < |m| ==> c[i] == Xor(m[i], KeyStreamByte(n, k, i))
  {
    hide XStream, KeyStreamByte, Poly1305.Tag, Xor;
    var x := XStream(m, n, k);
    BoxParts(x);
    forall i | 0 <= i < |m|
      ensures x[i] == Xor(m[i], KeyStreamByte(n, k, i))
    {
      XStreamByte(m, n, k, i);
    }
    forall i | 0 <= i < 32
      ensures x[i] == key[i]
    {
      ZeroXor(key[i]);
    }
    assert x[..32] == key;
    assert Seal(x)[..16] == Zeros(16);
    forall i | 32 <= i < |m|
      ensures Seal(x)[i] == x[i]
    {
      assert Seal(x)[i] == Seal(x)[32..][i - 32];
    }
  }

  lemma XStreamByte(m: seq<int>, n: seq<int>, k: seq<int>, i: nat)
    requires |n| == 24 && |k| == 32 && IsBytes(n) && IsBytes(k) && IsBytes(m) && i < |m|
    ensures XStream(m, n, k)[i] == Xor(m[i], KeyStreamByte(n, k, i))
  {
    hide XStream, Core, HCore, LEBytes, Xor;
    XStreamBytes(m, n, k);
  }

  lemma ZeroXor(y: int)
    ensures Xor(0, y) == y
  {
  }

  // Opening a box of a message with 32 leading zero bytes succeeds and gives the message back.
  lemma OpenAfterBox(m: seq<int>, n: seq<int>, k: seq<int>)
    requires |m| >= 32 && |n| == 24 && |k| == 32 && IsBytes(n) && IsBytes(k) && IsBytes(m)
    requires forall i :: 0 <= i < 32 ==> m[i] == 0
    ensures IsBytes(Box(m, n, k))
    ensures Authentic(Box(m, n, k), n, k)
    ensures Unbox(Box(m, n, k), n, k) == m
  {
    hide XStream, Poly1305.Tag;
    var x, c := XStream(m, n, k), Box(m, n, k);
    BoxParts(x);
    assert m[..32] == Zeros(32);
    XStreamPrefix(m, 32, n, k);
    SameTail(x, c, 32, n, k);
    XStreamTwice(m, n, k);
    assert m == m[..32] + m[32..];
  }

  lemma BoxParts(x: seq<int>)
    requires |x| >= 32 && IsBytes(x)
    ensures IsBytes(Seal(x)) && Seal(x)[32..] == x[32..]
    ensures Seal(x)[16..32] == Poly1305.Tag(x[32..], x[..32]) && Seal(x)[..16] == Zeros(16)
  {
    hide Poly1305.Tag, Zeros;
    var z, t := Zeros(16), Poly1305.Tag(x[32..], x[..32]);
    TagIsBytes(x[32..], x[..32]);
    var c := Seal(x);
    assert c[..16] == z && c[16..32] == t;
    forall i | 0 <= i < |c|
      ensures 0 <= c[i] < 256
    {
      assert c[i] == if i < 16 then z[i] else if i < 32 then t[i - 16] else x[i];
    }
  }

  lemma TagIsBytes(m: seq<int>, key: seq<int>)
    requires |key| == 32
    ensures |Poly1305.Tag(m, key)| == 16 && IsBytes(Poly1305.Tag(m, key))
  {
  }

  lemma XStreamPrefix(m: seq<int>, j: nat, n: seq<int>, k: seq<int>)
    requires |n| == 24 && |k| == 32 && IsBytes(n) && IsBytes(k) && IsBytes(m) && j <= |m|
    ensures XStream(m[..j], n, k) == XStream(m, n, k)[..j]
  {
    hide XorStream, SubKey;
    XorStreamPrefix(m, j, n[16..], SubKey(n, k));
  }

  lemma XStreamTwice(m: seq<int>, n: seq<int>, k: seq<int>)
    requires |n| == 24 && |k| == 32 && IsBytes(n) && IsBytes(k) && IsBytes(m)
    ensures XStream(XStream(m, n, k), n, k) == m
  {
    hide XorStream, SubKey;
    XorStreamTwice(m, n[16..], SubKey(n, k));
  }

  // Byte i of the result depends on byte i of the input only.
  lemma SameTail(x: seq<int>, c: seq<int>, j: nat, n: seq<int>, k: seq<int>)
    requires |n| == 24 && |k| == 32 && IsBytes(n) && IsBytes(k) && IsBytes(x) && IsBytes(c)
    requires j <= |x| == |c| && x[j..] == c[j..]
    ensures XStream(x, n, k)[j..] == XStream(c, n, k)[j..]
  {
    hide SubKey, StreamByte, XorByte;
    var v, w := XStream(x, n, k), XStream(c, n, k);
    forall i | 0 <= i < |x| - j
      ensures v[j..][i] == w[j..][i]
    {
      assert x[j + i] == x[j..][i] == c[j..][i] == c[j + i];
      XorStreamAt(x, j + i, n[16..], SubKey(n, k));
      XorStreamAt(c, j + i, n[16..], SubKey(n, k));
    }
  }

  // ---- the ignored return value of the stream ---------------------------------------------------

  // The cipher refuses a buffer that is too long, or one to be encrypted in place.
  ghost predicate Encrypts(d: nat, inPlace: bool) {
    d <= LIMIT && !inPlace
  }

  // What crypto_secretbox leaves in a buffer that held c0: when the cipher refuses, its result is
  // ignored and the buffer is sealed without having been encrypted.
  ghost function BoxOutput(c0: seq<int>, m: seq<int>, inPlace: bool, n: seq<int>, k: seq<int>): (c: seq<int>)
    requires |c0| == |m| >= 32 && |n| == 24 && |k| == 32 && IsBytes(n) && IsBytes(k) && IsBytes(m)
    ensures |c| == |m|
  {
    if Encrypts(|m|, inPlace) then Box(m, n, k) else Seal(c0)
  }

  ghost function OpenOutput(m0: seq<int>, c: seq<int>, inPlace: bool, n: seq<int>, k: seq<int>): (m: seq<int>)
    requires |m0| == |c| >= 32 && |n| == 24 && |k| == 32 && IsBytes(n) && IsBytes(k) && IsBytes(c)
    ensures |m| == |c|
  {
    if Encrypts(|c|, inPlace) then Unbox(c, n, k) else Zeros(32) + m0[32..]
  }

  // A byte string that differs from x at position i.
  function Changed(x: seq<int>, i: nat): (y: seq<int>)
    requires i < |x| && IsBytes(x)
    ensures |y| == |x| && IsBytes(y) && y[i] != x[i]
  {
    x[i := 255 - x[i]]
  }

  // The buffer that holds the encrypted message, but for byte 32, does not become the box.
  lemma StaleBuffer(m: seq<int>, n: seq<int>, k: seq<int>)
    requires |m| >= 33 && |n| == 24 && |k| == 32 && IsBytes(n) && IsBytes(k) && IsBytes(m)
    ensures Seal(Changed(XStream(m, n, k), 32)) != Box(m, n, k)
  {
    hide XStream, Seal, Changed;
    var x := XStream(m, n, k);
    var y := Changed(x, 32);
    BoxParts(x);
    BoxParts(y);
    assert Seal(y)[32..][0] == y[32..][0] == y[32] && Seal(x)[32..][0] == x[32..][0] == x[32];
  }

  // With separate buffers the output is the box, whatever the buffer held before, exactly up to the
  // limit of the cipher.
  lemma BoxedUpToLimit(m: seq<int>, n: seq<int>, k: seq<int>)
    requires |m| >= 32 && |n| == 24 && |k| == 32 && IsBytes(n) && IsBytes(k) && IsBytes(m)
    ensures (forall c0 :: IsBytes(c0) && |c0| == |m| ==> BoxOutput(c0, m, false, n, k) == Box(m, n, k)) <==> |m| <= LIMIT
  {
    hide XStream, Seal, Box, Changed;
    if |m| > LIMIT {
      StaleBuffer(m, n, k);
      var c0 := Changed(XStream(m, n, k), 32);
      assert BoxOutput(c0, m, false, n, k) == Seal(c0);
    }
  }

  // In place the plaintext stays readable behind the tag.
  lemma InPlaceReadable(m: seq<int>, n: seq<int>, k: seq<int>)
    requires |m| >= 32 && |n| == 24 && |k| == 32 && IsBytes(n) && IsBytes(k) && IsBytes(m)
    ensures BoxOutput(m, m, true, n, k)[32..] == m[32..]
  {
    hide Seal;
    BoxParts(m);
  }

  // The key stream from byte 32 on is zero.
  ghost predicate NoKeyStream(d: nat, n: seq<int>, k: seq<int>)
    requires d >= 32 && |n| == 24 && |k| == 32 && IsBytes(n) && IsBytes(k)
  {
    XStream(Zeros(d), n, k)[32..] == Zeros(d - 32)
  }

  lemma UnchangedTail(m: seq<int>, n: seq<int>, k: seq<int>)
    requires |m| >= 32 && |n| == 24 && |k| == 32 && IsBytes(n) && IsBytes(k) && IsBytes(m)
    ensures XStream(m, n, k)[32..] == m[32..] <==> NoKeyStream(|m|, n, k)
  {
    hide SubKey, StreamByte;
    var x, z := XStream(m, n, k), XStream(Zeros(|m|), n, k);
    forall i | 32 <= i < |m|
      ensures x[i] == m[i] <==> z[i] == 0
    {
      XorKeeps(m[i], StreamByte(n[16..], SubKey(n, k), i));
      XorStreamAt(m, i, n[16..], SubKey(n, k));
      XorStreamAt(Zeros(|m|), i, n[16..], SubKey(n, k));
    }
    forall i | 0 <= i < |m| - 32
      ensures x[32..][i] == m[32..][i] <==> z[32..][i] == Zeros(|m| - 32)[i]
    {
      assert x[32 + i] == m[32 + i] <==> z[32 + i] == 0;
    }
  }

  lemma XorKeeps(x: u8, y: u8)
    ensures (XorByte(x, y) == x <==> y == 0) && XorByte(0, y) == y
  {
    XorCancels(x, y);
    XorSelf(x);
    XorZero(x);
    XorCommutes(0, y);
    XorZero(y);
  }

  // In place the output can be the box only where the cipher would have changed nothing.
  lemma InPlaceBox(m: seq<int>, n: seq<int>, k: seq<int>)
    requires |m| >= 32 && |n| == 24 && |k| == 32 && IsBytes(n) && IsBytes(k) && IsBytes(m)
    ensures BoxOutput(m, m, true, n, k) == Box(m, n, k) ==> NoKeyStream(|m|, n, k)
  {
    hide XStream, Seal, NoKeyStream;
    BoxParts(m);
    BoxParts(XStream(m, n, k));
    UnchangedTail(m, n, k);
  }

  // Opening in place returns 0 and leaves the encrypted message; it is the message exactly where the
  // cipher would have changed nothing.
  lemma InPlaceOpen(c: seq<int>, n: seq<int>, k: seq<int>)
    requires |c| >= 32 && |n| == 24 && |k| == 32 && IsBytes(n) && IsBytes(k) && IsBytes(c)
    ensures OpenOutput(c, c, true, n, k)[32..] == c[32..]
    ensures OpenOutput(c, c, true, n, k) == Unbox(c, n, k) <==> NoKeyStream(|c|, n, k)
  {
    hide XStream, Zeros, NoKeyStream;
    UnchangedTail(c, n, k);
    var z, x := Zeros(32), XStream(c, n, k);
    assert (z + c[32..])[32..] == c[32..] && (z + x[32..])[32..] == x[32..];
  }

  // The same for opening: the message comes out, whatever the buffer held, exactly up to the limit.
  lemma OpenedUpToLimit(c: seq<int>, n: seq<int>, k: seq<int>)
    requires |c| >= 32 && |n| == 24 && |k| == 32 && IsBytes(n) && IsBytes(k) && IsBytes(c)
    ensures (forall m0 :: IsBytes(m0) && |m0| == |c| ==> OpenOutput(m0, c, false, n, k) == Unbox(c, n, k)) <==> |c| <= LIMIT
  {
    hide XStream, Changed, Zeros;
    if |c| > LIMIT {
      var x := XStream(c, n, k);
      var m0 := Changed(x, 32);
      var z := Zeros(32);
      assert (z + m0[32..])[32] == m0[32] && (z + x[32..])[32] == x[32];
      assert OpenOutput(m0, c, false, n, k) != Unbox(c, n, k);
    }
  }

  // ---- the source -----------------------------------------------------------------------------

  // crypto_stream_xor and, for a null message, crypto_stream.
  method CryptoStreamXor(c: array<u8>, m: array?<u8>, d: nat, n: array<u8>, k: array<u8>) returns (ret: int)
    requires d <= c.Length && (m != null ==> d <= m.Length) && n.Length == 24 && k.Length == 32
    modifies c
    ensures ret == if d == 0 then 0 else if d > LIMIT || m == c then -1 else 0
    ensures ret == 0 ==> c[..d] == XStream(old(Message(m, d)), old(n[..]), old(k[..]))
    ensures ret == 0 ==> XBytewise(c[..d], old(Message(m, d)), old(n[..]), old(k[..]))
    ensures ret == -1 ==> c[..d] == old(c[..d])
    ensures c[d..] == old(c[d..])
  {
    hide XorStream, HCore, Bytewise, XBytewise;
    XStreamBytes(Message(m, d), n[..], k[..]);
    var s := new u8[32];
    var sigma := new u8[16](i requires 0 <= i < 16 => Sigma()[i]);
    assert sigma[..] == Sigma();
    CoreInPlace(s, n, k, sigma, true);
    assert s[..] == s[..32];
    assert n[16..16 + 8] == n[16..];
    ret := StreamSalsa20Xor(c, m, d, n, 16, s);
  }

  method CryptoSecretbox(c: array<u8>, m: array<u8>, d: nat, n: array<u8>, k: array<u8>) returns (ret: int)
    requires d <= c.Length && d <= m.Length && n.Length == 24 && k.Length == 32
    modifies c
    ensures ret == if d < 32 then -1 else 0
    ensures ret == -1 ==> c[..] == old(c[..])
    ensures ret == 0 ==> c[..d] == BoxOutput(old(c[..d]), old(m[..d]), m == c, old(n[..]), old(k[..]))
    ensures c[d..] == old(c[d..])
  {
    hide XStream, Poly1305.Tag, Zeros;
    if d < 32 {
      return -1;
    }
    var ignored := CryptoStreamXor(c, m, d, n, k);
    ghost var x: seq<int> := c[..d];
    SealInPlace(c, d);
    ret := 0;
  }

  // Lines 280 and 281.
  method SealInPlace(c: array<u8>, d: nat)
    requires 32 <= d <= c.Length
    modifies c
    ensures c[..d] == Seal(old(c[..d])) && c[d..] == old(c[d..])
  {
    hide Poly1305.Tag;
    ghost var x: seq<int>, s: seq<int> := c[..d], c[..];
    assert c[32..32 + (d - 32)] == x[32..] && c[0..32] == x[..32];
    var ok := Poly1305.OneTimeAuth(c, 16, c, 32, d - 32, c, 0);
    ghost var t: seq<int> := c[..];
    for i := 0 to 16
      invariant forall j :: 0 <= j < i ==> c[j] == 0
      invariant c[16..] == t[16..]
    {
      c[i] := 0;
    }
    SealedParts(c[..], t, s, d);
  }

  // The sealed buffer c, put together from the tagged buffer t and the original s.
  lemma SealedParts(c: seq<int>, t: seq<int>, s: seq<int>, d: nat)
    requires |c| == |t| == |s| >= d >= 32 && (forall j :: 0 <= j < 16 ==> c[j] == 0)
    requires c[16..] == t[16..] && t[32..] == s[32..]
    ensures c[..d] == Zeros(16) + t[16..32] + s[..d][32..] && c[d..] == s[d..]
  {
    assert forall j :: 16 <= j < |c| ==> c[j] == c[16..][j - 16] == t[16..][j - 16] == t[j];
    assert forall j :: 32 <= j < |c| ==> t[j] == t[32..][j - 32] == s[32..][j - 32] == s[j];
  }

  method CryptoSecretboxOpen(m: array<u8>, c: array<u8>, d: nat, n: array<u8>, k: array<u8>) returns (ret: int)
    requires d <= c.Length && d <= m.Length && n.Length == 24 && k.Length == 32
    modifies m
    ensures ret == 0 ==> d >= 32
    ensures ret != 0 ==> ret == -1 && m[..] == old(m[..])
    ensures ret == 0 ==> m[..d] == OpenOutput(old(m[..d]), old(c[..d]), m == c, old(n[..]), old(k[..]))
    ensures ret == 0 <==> d >= 32 && old(Authentic(c[..d], n[..], k[..]))
    ensures m[d..] == old(m[d..])
  {
    hide XStream, Poly1305.Tag;
    if d < 32 {
      return -1;
    }
    var v := VerifyBox(c, d, n, k);
    if v != 0 {
      return -1;
    }
    var ignored := CryptoStreamXor(m, c, d, n, k);
    ZeroHead(m, d);
    ret := 0;
  }

  // Lines 293 and 294: the tag is recomputed under the first 32 bytes of the key stream.
  method VerifyBox(c: array<u8>, d: nat, n: array<u8>, k: array<u8>) returns (v: int)
    requires 32 <= d <= c.Length && n.Length == 24 && k.Length == 32
    ensures v == 0 <==> Authentic(c[..d], n[..], k[..])
  {
    hide XStream, Poly1305.Tag;
    var x, t := new u8[32], new u8[16];
    var ignored := CryptoStreamXor(x, null, 32, n, k);
    assert Message(null, 32) == Zeros(32);
    assert x[0..32] == x[..32] && c[32..32 + (d - 32)] == c[..d][32..];
    ignored := Poly1305.OneTimeAuth(t, 0, c, 32, d - 32, x, 0);
    v := VN(c, 16, t, 0, 16);
    assert c[16..16 + 16] == c[..d][16..32];
  }

  // Line 297.
  method ZeroHead(m: array<u8>, d: nat)
    requires 32 <= d <= m.Length
    modifies m
    ensures m[..d] == Zeros(32) + old(m[32..d]) && m[d..] == old(m[d..])
  {
    for i := 0 to 32
      invariant forall j :: 0 <= j < i ==> m[j] == 0
      invariant forall j :: i <= j < m.Length ==> m[j] == old(m[j])
    {
      m[i] := 0;
    }
  }

  // Sealing and opening with separate buffers returns the plaintext.
  method BoxAndOpen(c: array<u8>, m: array<u8>, r: array<u8>, d: nat, n: array<u8>, k: array<u8>) returns (ret: int)
    requires 32 <= d <= LIMIT && d <= c.Length && d <= m.Length && d <= r.Length
    requires c != m && r != c && c != n && c != k && n.Length == 24 && k.Length == 32
    requires forall i :: 0 <= i < 32 ==> m[i] == 0
    modifies c, r
    ensures ret == 0 && r[..d] == old(m[..d])
  {
    hide XStream, Box, Unbox;
    ghost var text: seq<int> := m[..d];
    var sealed := CryptoSecretbox(c, m, d, n, k);
    OpenAfterBox(text, n[..], k[..]);
    ret := CryptoSecretboxOpen(r, c, d, n, k);
  }
}
