// crypto_sign_keypair, crypto_sign and crypto_sign_open on their buffers (src/tweetnacl/tweetnacl.c,
// lines 700 to 728 and 766 to 881).
module Signer {
  import opened Bits
  import opened Bytes
  import opened Limbs
  import opened EdwardsCurve
  import opened EdwardsLadder
  import opened EdwardsBytes
  import opened ScalarModL
  import opened Sha512
  import opened Sign
  import Edwards
  import FieldBytes
  import X25519

  // ---- S = r + h a, by schoolbook multiplication ------------------------------------------------------

  // One row: x += h d 256^i, limb by limb.
  method AddScaledRow(x: array<i64>, h: u8, d: array<u8>, i: nat)
    requires x.Length == 64 && d.Length >= 32 && i < 32
    requires forall k :: 0 <= k < 64 ==> 0 <= x[k] <= 255 + i * 65025
    modifies x
    ensures forall k :: 0 <= k < 64 ==> 0 <= x[k] <= 255 + (i + 1) * 65025
    ensures LEValue(x[..]) == old(LEValue(x[..])) + (h * Pow(256, i)) * LEValue(d[..32])
  {
    hide Val, Pow;
    ghost var ds: seq<int>, v := d[..32], LEValue(x[..]);
    ValOfNone(256, ds);
    for j := 0 to 32
      invariant d[..32] == ds
      invariant forall k :: 0 <= k < 64 ==> 0 <= x[k] <= 255 + i * 65025 + (if i <= k < i + j then 65025 else 0)
      invariant LEValue(x[..]) == v + (h * Pow(256, i)) * Val(256, ds, j)
    {
      assert d[j] == ds[j];
      ProductBound(h, d[j], 255, 255);
      var product: int := h * d[j];
      ghost var before: seq<int> := x[..];
      x[i + j] := x[i + j] + product;
      assert x[..] == before[i + j := before[i + j] + product];
      ValAddAt(256, before, i + j, product, |before|);
      RowTerm(256, ds, h, i, j);
    }
  }

  // The limbs of r + h a.
  method Convolve(r: array<u8>, h: array<u8>, d: array<u8>) returns (x: array<i64>)
    requires r.Length >= 32 && h.Length >= 32 && d.Length >= 32
    ensures fresh(x) && x.Length == 64 && forall k :: 0 <= k < 64 ==> 0 <= x[k] <= LIMB_MAX
    ensures LEValue(x[..]) == LEValue(r[..32]) + LEValue(h[..32]) * LEValue(d[..32])
  {
    hide LEValue;
    x := new i64[64](k requires 0 <= k < 64 reads r => if k < 32 then r[k] else 0);
    PaddedValue(r[..32], x[..]);
    ghost var hs: seq<int>, ds: seq<int>, v := h[..32], d[..32], LEValue(r[..32]);
    assert Val(256, hs, 0) == 0;
    for i := 0 to 32
      invariant h[..32] == hs && d[..32] == ds
      invariant forall k :: 0 <= k < 64 ==> 0 <= x[k] <= 255 + i * 65025
      invariant LEValue(x[..]) == v + Val(256, hs, i) * LEValue(ds)
    {
      assert h[i] == hs[i];
      AddScaledRow(x, h[i], d, i);
      NextRow(hs, i, LEValue(ds));
    }
    WholeValue(hs, 32);
  }

  lemma NextRow(hs: seq<int>, i: nat, d: int)
    requires i < |hs|
    ensures Val(256, hs, i + 1) * d == Val(256, hs, i) * d + (hs[i] * Pow(256, i)) * d
  {
    MulDistributes(Val(256, hs, i), -(hs[i] * Pow(256, i)), d);
    NegMul(hs[i] * Pow(256, i), d);
  }

  lemma WholeValue(s: seq<int>, n: nat)
    requires n == |s|
    ensures Val(256, s, n) == LEValue(s)
  {
  }

  // ---- buffers -----------------------------------------------------------------------------------------

  method CopyBytes(dst: array<u8>, at: nat, src: array<u8>, from: nat, n: nat)
    requires dst != src && at + n <= dst.Length && from + n <= src.Length
    modifies dst
    ensures dst[..] == old(dst[..])[..at] + src[from..from + n] + old(dst[..])[at + n..]
  {
    for i := 0 to n
      invariant dst[..] == old(dst[..])[..at] + src[from..from + i] + old(dst[..])[at + i..]
    {
      dst[at + i] := src[from + i];
    }
  }

  // The hash of a part of a buffer, as a scalar modulo L.
  method HashReduced(m: array<u8>, mo: nat, n: u64) returns (r: array<u8>)
    requires mo + n <= m.Length
    ensures fresh(r) && r.Length == 64
    ensures r[..32] == LEBytes(HashScalar(m[mo..mo + n]), 32) && LEValue(r[..32]) == HashScalar(m[mo..mo + n])
  {
    hide Hash, LEValue, LEBytes;
    r := new u8[64];
    var _ := CryptoHash(r, m, mo, n);
    Reduce(r);
    ScalarBytes(HashScalar(m[mo..mo + n]), 32);
  }

  // Hashes the seed and clamps the first half.
  method SecretKeys(sk: array<u8>) returns (d: array<u8>)
    requires sk.Length >= 32
    ensures fresh(d) && d.Length == 64
    ensures d[..32] == SecretBytes(sk[..32]) && d[32..] == Prefix(sk[..32])
  {
    hide Hash, And, Or;
    d := new u8[64];
    var _ := CryptoHash(d, sk, 0, 32);
    assert sk[0..0 + 32] == sk[..32];
    ghost var s := d[..];
    assert s == Hash(sk[..32]);
    Pow2Values();
    AndBound(d[0], 248, 8);
    AndBound(d[31], 127, 8);
    OrBound(And(d[31], 127), 64, 8);
    d[0] := And(d[0], 248);
    d[31] := And(d[31], 127);
    d[31] := Or(d[31], 64);
    assert d[..32] == X25519.ClampedBytes(s[..32]);
    assert d[32..] == s[32..];
  }

  // ---- crypto_sign ---------------------------------------------------------------------------------------

  // Lays out the prefix and the message.
  method LayOut(sm: array<u8>, m: array<u8>, n: u64, d: array<u8>)
    requires n <= m.Length && n + 64 <= sm.Length && sm != m && sm != d && d.Length == 64
    modifies sm
    ensures sm[32..64 + n] == d[32..] + m[..n]
    ensures sm[64 + n..] == old(sm[64 + n..])
  {
    CopyBytes(sm, 64, m, 0, n);
    assert sm[64..64 + n] == m[..n];
    ghost var tail: seq<int> := sm[64..];
    CopyBytes(sm, 32, d, 32, 32);
    assert sm[64..] == tail;
    assert sm[32..64 + n] == sm[32..64] + tail[..n];
    assert sm[64 + n..] == tail[n..];
  }

  // Leaves R in front of the message; returns r.
  method Commit(sm: array<u8>, n: u64, ghost seed: seq<int>, ghost msg: seq<int>) returns (r: array<u8>)
    requires n + 64 < 0x1_0000_0000_0000_0000 && n + 64 <= sm.Length && IsBytes(seed) && IsBytes(msg)
    requires sm[32..64 + n] == Prefix(seed) + msg
    modifies sm
    ensures fresh(r) && r.Length == 64 && LEValue(r[..32]) == Nonce(seed, msg)
    ensures sm[..32] == PublicPoint(Nonce(seed, msg))
    ensures sm[32..] == old(sm[32..])
  {
    hide Hash, LEValue, LEBytes, MulExt, Encode;
    r := HashReduced(sm, 32, n + 32);
    assert 32 + (n + 32) == 64 + n;
    assert r[0..0 + 32] == r[..32];
    var p := Edwards.NewPoint();
    Edwards.ScalarBase(p, r, 0);
    Pack(sm, p);
  }

  // Puts the public key and then S behind R.
  method Respond(sm: array<u8>, n: u64, sk: array<u8>, d: array<u8>, r: array<u8>)
    requires n + 64 < 0x1_0000_0000_0000_0000 && n + 64 <= sm.Length && sm != sk && sm != d && sm != r
    requires sk.Length >= 64 && d.Length >= 32 && r.Length >= 32
    modifies sm
    ensures sm[..32] == old(sm[..32]) && sm[64..] == old(sm[64..])
    ensures sm[32..64] ==
      Response(LEValue(r[..32]), old(Challenge(sm[..32], sk[32..64], sm[64..64 + n])), LEValue(d[..32]))
  {
    hide Hash, LEValue, LEBytes;
    ghost var R: seq<u8>, pk: seq<u8>, msg: seq<u8>, before: seq<u8> := sm[..32], sk[32..64], sm[64..64 + n], sm[..];
    CopyBytes(sm, 32, sk, 32, 32);
    ChallengePlaced(sm[..], before, pk, n);
    assert sm[0..0 + (n + 64)] == sm[..n + 64];
    var h := HashReduced(sm, 0, n + 64);
    var x := Convolve(r, h, d);
    ModL(sm, 32, x);
    assert sm[..32] == R;
    ResponseBytes(sm[32..64], LEValue(r[..32]) + Challenge(R, pk, msg) * LEValue(d[..32]));
  }

  lemma ChallengePlaced(s: seq<int>, before: seq<int>, pk: seq<int>, n: nat)
    requires |before| >= n + 64 && |pk| == 32 && s == before[..32] + pk + before[64..]
    ensures s[..32] == before[..32] && s[64..] == before[64..]
    ensures s[..n + 64] == before[..32] + pk + before[64..64 + n]
  {
    assert before[64..][..n] == before[64..64 + n];
    assert s[..n + 64] == before[..32] + pk + before[64..][..n];
  }

  lemma ResponseBytes(s: seq<int>, k: int)
    requires |s| == 32 && IsBytes(s) && LEValue(s) == k % ORDER
    ensures s == LEBytes(k % ORDER, 32)
  {
    hide LEBytes, LEValue;
    ScalarIs(s, k % ORDER);
  }

  lemma ScalarIs(s: seq<int>, k: int)
    requires |s| == 32 && IsBytes(s) && LEValue(s) == k
    ensures s == LEBytes(k, 32)
  {
    hide LEBytes, LEValue, Pow256;
    LEValueBound(s);
    FieldBytes.SmallMod(k, Pow256(|s|));
    BytesOfLEValue(s, k);
  }

  // The parameter sizeMax is the SIZE_MAX of the target.
  method CryptoSign(sm: array<u8>, mlen: array<u64>, m: array<u8>, n: u64, sk: array<u8>, sizeMax: u64) returns (ret: int)
    requires sizeMax >= 64 && (n <= sizeMax - 64 ==> n <= m.Length && n + 64 <= sm.Length)
    requires mlen.Length >= 1 && sk.Length >= 64 && sm != m && sm != sk
    modifies sm, mlen
    ensures ret == if n > sizeMax - 64 then -1 else 0
    ensures ret == -1 ==> sm[..] == old(sm[..]) && mlen[..] == old(mlen[..])
    ensures ret == 0 ==> mlen[0] == n + 64 && sm[64 + n..] == old(sm[64 + n..])
    ensures ret == 0 ==> sm[..64 + n] == Signed(old(m[..n]), old(sk[..64]))
  {
    hide Hash, LEValue, LEBytes, SecretBytes, Prefix, Nonce, Challenge, PublicPoint, Response;
    if n > sizeMax - 64 {
      return -1;
    }
    ghost var msg: seq<int>, key: seq<int>, old_tail := m[..n], sk[..64], sm[64 + n..];
    assert IsBytes(msg) && IsBytes(key);
    var d := SecretKeys(sk);
    assert sk[..32] == key[..32] && sk[32..64] == key[32..];
    mlen[0] := n + 64;
    LayOut(sm, m, n, d);
    ghost var laid: seq<int> := sm[..];
    var r := Commit(sm, n, key[..32], msg);
    MessageKept(sm[..], laid, n, d[32..], msg);
    ghost var R: seq<int> := sm[..32];
    ghost var signed: seq<int> := sm[..];
    Respond(sm, n, sk, d, r);
    TailKept(sm[..], signed, n);
    assert sm[32..64] == Proof(msg, key);
    JoinParts(sm[..], n);
    ret := 0;
  }

  lemma MessageKept(s: seq<int>, t: seq<int>, n: nat, prefix: seq<int>, msg: seq<int>)
    requires |s| == |t| >= 64 + n && s[32..] == t[32..] && t[32..64 + n] == prefix + msg && |prefix| == 32 && |msg| == n
    ensures s[64..64 + n] == msg && s[64 + n..] == t[64 + n..]
  {
    SubSlice(s, 32, |s| - 32, 32, n);
    SubSlice(t, 32, |t| - 32, 32, n);
    SubSlice(t, 32, 32 + n, 32, n);
    assert s[32..|s|] == s[32..] && t[32..|t|] == t[32..] && t[32..32 + (32 + n)] == t[32..64 + n];
    assert (prefix + msg)[32..32 + n] == msg;
    assert s[64 + n..] == s[32..][32 + n..] && t[64 + n..] == t[32..][32 + n..];
  }

  lemma TailKept(s: seq<int>, t: seq<int>, n: nat)
    requires |s| == |t| >= 64 + n && s[64..] == t[64..]
    ensures s[64..64 + n] == t[64..64 + n] && s[64 + n..] == t[64 + n..]
  {
    assert s[64..64 + n] == s[64..][..n] && t[64..64 + n] == t[64..][..n];
    assert s[64 + n..] == s[64..][n..] && t[64 + n..] == t[64..][n..];
  }

  lemma JoinParts(s: seq<int>, n: nat)
    requires |s| >= 64 + n
    ensures s[..64 + n] == s[..32] + s[32..64] + s[64..64 + n]
  {
  }

  // ---- crypto_sign_open -------------------------------------------------------------------------------------

  // The signed message with the public key in the place of S, which is what is hashed.
  ghost function Rehashed(sm: seq<int>, pk: seq<int>): (s: seq<int>)
    requires |sm| >= 64 && |pk| == 32
    ensures |s| == |sm|
  {
    sm[..32] + pk + sm[64..]
  }

  // What is left in the output buffer: the message or zeros, then the end of the rehashed string.
  ghost function OpenBuffer(sm: seq<int>, pk: seq<int>, ok: bool): (s: seq<int>)
    requires |sm| >= 64 && |pk| == 32
    ensures |s| == |sm|
  {
    (if ok then sm[64..] else seq(|sm| - 64, _ => 0)) + Rehashed(sm, pk)[|sm| - 64..]
  }

  lemma {:induction false} ClearedBits(x: int, k: nat)
    requires 0 <= x < Pow2(k)
    ensures And(x, -1 * Pow2(k)) == 0
  {
    if k > 0 {
      ClearedBits(x / 2, k - 1);
      ClearedStep(x, Pow2(k - 1));
    }
  }

  lemma ClearedStep(x: int, p: int)
    requires And(x / 2, -1 * p) == 0
    ensures And(x, -1 * (2 * p)) == 0
  {
    hide And;
    assert (-1 * (2 * p)) / 2 == -1 * p && (-1 * (2 * p)) % 2 == 0;
    AndHalf(x, -1 * (2 * p));
  }

  lemma Masked(x: int, mask: int)
    requires 0 <= x < 256 && (mask == 0 || mask == 255)
    ensures And(x, Not(mask)) == if mask == 0 then x else 0
  {
    Pow2Values();
    ClearedBits(x, 8);
    AndOnes(x);
  }

  // Lines 808 to 815: the message, or zeros when the comparison failed.
  method Release(m: array<u8>, sm: array<u8>, n: u64, failed: int)
    requires 64 <= n <= m.Length && n <= sm.Length && m != sm && (failed == 0 || failed == 1)
    modifies m
    ensures m[..n - 64] == if failed == 0 then sm[64..n] else seq(n - 64, _ => 0)
    ensures m[n - 64..] == old(m[n - 64..])
  {
    hide And, Not;
    var mask: u8 := -failed % 256;
    for i := 0 to n - 64
      invariant forall k :: 0 <= k < i ==> m[k] == if failed == 0 then sm[64 + k] else 0
      invariant m[n - 64..] == old(m[n - 64..])
    {
      var src: u8 := sm[i + 64];
      Masked(src, mask);
      m[i] := And(src, Not(mask));
    }
  }

  // Lines 788 to 793: the scalar h and the rehashed string in m.
  method Rehash(m: array<u8>, sm: array<u8>, n: u64, pk: array<u8>) returns (h: array<u8>)
    requires 64 <= n <= m.Length && n <= sm.Length && pk.Length >= 32 && m != sm && m != pk
    modifies m
    ensures fresh(h) && h.Length == 64 && LEValue(h[..32]) == ChallengeOf(sm[..n], pk[..32])
    ensures m[..n] == Rehashed(sm[..n], pk[..32]) && m[n..] == old(m[n..])
  {
    hide Hash, LEValue, LEBytes;
    ghost var s: seq<int>, key: seq<int>, before: seq<int> := sm[..n], pk[..32], m[..];
    CopyBytes(m, 0, sm, 0, n);
    CopyBytes(m, 32, pk, 0, 32);
    KeyPlaced(m[..], before, s, key, n);
    assert m[0..0 + n] == m[..n];
    h := HashReduced(m, 0, n);
  }

  lemma KeyPlaced(m: seq<int>, before: seq<int>, s: seq<int>, key: seq<int>, n: nat)
    requires 64 <= n <= |before| && |s| == n && |key| == 32
    requires var copied := before[..0] + s + before[n..]; m == copied[..32] + key + copied[64..]
    ensures m[..n] == Rehashed(s, key) && m[n..] == before[n..]
  {
    var copied := before[..0] + s + before[n..];
    assert copied[..32] == s[..32] && copied[64..] == s[64..] + before[n..];
    assert m == Rehashed(s, key) + before[n..];
  }

  // t := the encoding of S B - h A, for q = -A.
  method Recover(q: Edwards.PointLimbs, h: array<u8>, sm: array<u8>) returns (t: array<u8>)
    requires q.Valid() && h.Length >= 32 && sm.Length >= 64
    modifies q.x, q.y, q.z, q.t
    ensures fresh(t) && t.Length == 32
    ensures t[..] == Recovered(LEValue(h[..32]), old(q.At()), LEValue(sm[32..64]))
  {
    hide LEValue, AddExt, Encode, Climb;
    assert h[0..0 + 32] == h[..32];
    var p := Edwards.NewPoint();
    Edwards.ScalarMult(p, q, h, 0);
    Edwards.ScalarBase(q, sm, 32);
    Edwards.Add(p, q);
    t := new u8[32];
    Pack(t, p);
    assert t[..32] == t[..];
  }

  // The early returns leave both outputs alone.
  ghost predicate Rejected(sm: seq<int>, pk: seq<int>, sizeMax: int)
    requires |pk| == 32
  {
    |sm| > sizeMax - 64 || |sm| < 64 || Unpack(pk).None?
  }

  lemma BufferParts(s: seq<int>, t: seq<int>, n: nat, j: nat)
    requires |s| == |t| && j <= n <= |s| && s[j..] == t[j..]
    ensures s[..n] == s[..j] + t[..n][j..] && s[n..] == t[n..]
  {
    assert s[..n] == s[..j] + s[j..][..n - j];
    assert t[..n][j..] == t[j..][..n - j];
    assert s[n..] == s[j..][n - j..] && t[n..] == t[j..][n - j..];
  }

  // Lines 788 to 822, for a key that decodes.
  method Verify(m: array<u8>, mlen: array<u64>, sm: array<u8>, n: u64, pk: array<u8>, q: Edwards.PointLimbs)
    returns (ret: int)
    requires 64 <= n <= sm.Length && n <= m.Length && mlen.Length >= 1 && pk.Length >= 32 && m != sm && m != pk
    requires q.Valid()
    modifies m, mlen, q.x, q.y, q.z, q.t
    ensures ret == if Recovered(ChallengeOf(sm[..n], pk[..32]), old(q.At()), ResponseScalar(sm[..n])) == sm[..32] then 0 else -1
    ensures m[..n] == OpenBuffer(sm[..n], pk[..32], ret == 0) && m[n..] == old(m[n..])
    ensures mlen[0] == if ret == 0 then n - 64 else 0
  {
    hide Hash, LEValue, LEBytes, Recovered, ChallengeOf, Rehashed;
    ghost var signed: seq<int>, key: seq<int> := sm[..n], pk[..32];
    var h := Rehash(m, sm, n, pk);
    assert sm[..n] == signed && pk[..32] == key;
    assert signed[32..64] == sm[32..64];
    var t := Recover(q, h, sm);
    ghost var rehashed: seq<int> := m[..];
    var differ := VN(sm, 0, t, 0, 32);
    assert sm[0..0 + 32] == sm[..32] && t[0..0 + 32] == t[..];
    var failed := if differ != 0 then 1 else 0;
    Release(m, sm, n, failed);
    assert signed[64..] == sm[64..n];
    BufferParts(m[..], rehashed, n, n - 64);
    if failed == 0 {
      mlen[0] := n - 64;
      ret := 0;
    } else {
      mlen[0] := 0;
      ret := -1;
    }
  }

  method CryptoSignOpen(m: array<u8>, mlen: array<u64>, sm: array<u8>, n: u64, pk: array<u8>, sizeMax: u64)
    returns (ret: int)
    requires n <= sm.Length && n <= m.Length && mlen.Length >= 1 && pk.Length >= 32 && m != sm && m != pk && sizeMax >= 64
    modifies m, mlen
    ensures ret == 0 || ret == -1
    ensures ret == 0 <==> Opened(sm[..n], pk[..32], sizeMax).Some?
    ensures Rejected(sm[..n], pk[..32], sizeMax) ==> m[..] == old(m[..]) && mlen[..] == old(mlen[..])
    ensures !Rejected(sm[..n], pk[..32], sizeMax) ==>
      m[..n] == OpenBuffer(sm[..n], pk[..32], ret == 0) && m[n..] == old(m[n..]) &&
      mlen[0] == if ret == 0 then n - 64 else 0
    ensures ret == 0 ==> m[..n - 64] == Opened(sm[..n], pk[..32], sizeMax).value
  {
    hide Hash, LEValue, LEBytes, Unpack, Recovered, ChallengeOf, ResponseScalar, OpenBuffer;
    ghost var signed: seq<int>, key: seq<int> := sm[..n], pk[..32];
    if n > sizeMax - 64 {
      return -1;
    }
    if n < 64 {
      return -1;
    }
    var q := Edwards.NewPoint();
    var bad := UnpackNeg(q, pk);
    if bad != 0 {
      return -1;
    }
    assert signed[..32] == sm[..32];
    ret := Verify(m, mlen, sm, n, pk, q);
    if ret == 0 {
      OpenedMessage(signed, key, sizeMax);
      assert m[..n - 64] == m[..n][..n - 64];
    }
  }

  // On success the front of the output buffer is the message.
  lemma OpenedMessage(sm: seq<int>, pk: seq<int>, sizeMax: int)
    requires IsBytes(sm) && IsBytes(pk) && |pk| == 32 && Opened(sm, pk, sizeMax).Some?
    ensures OpenBuffer(sm, pk, true)[..|sm| - 64] == Opened(sm, pk, sizeMax).value
  {
    hide Verifies, Rehashed;
  }

  // ---- crypto_sign_keypair ----------------------------------------------------------------------------------

  // The random bytes are a parameter, absent when the generator fails.
  method CryptoSignKeypair(pk: array<u8>, sk: array<u8>, random: Option<seq<u8>>) returns (ret: int)
    requires pk.Length >= 32 && sk.Length >= 64 && pk != sk && (random.Some? ==> |random.value| == 32)
    modifies pk, sk
    ensures ret == if random.Some? then 0 else -1
    ensures ret == -1 ==> pk[..] == old(pk[..])
    ensures pk[32..] == old(pk[32..]) && sk[64..] == old(sk[64..])
    ensures ret == 0 ==> pk[..32] == PublicKey(random.value) && sk[..64] == random.value + pk[..32]
  {
    hide Hash, LEValue, LEBytes, PublicKey;
    if random.None? {
      return -1;
    }
    ghost var seed: seq<int> := random.value;
    for i := 0 to 32
      invariant forall k :: 0 <= k < i ==> sk[k] == random.value[k]
      invariant sk[64..] == old(sk[64..]) && pk[..] == old(pk[..])
    {
      sk[i] := random.value[i];
    }
    assert sk[..32] == seed;
    DerivePublic(pk, sk);
    ghost var half: seq<int> := sk[..];
    assert half[64..] == old(sk[64..]);
    CopyBytes(sk, 32, pk, 0, 32);
    assert sk[..64] == seed + pk[..32];
    assert sk[64..] == half[64..];
    ret := 0;
  }

  // pk := the encoding of a B, for the scalar a of the seed.
  method DerivePublic(pk: array<u8>, sk: array<u8>)
    requires pk.Length >= 32 && sk.Length >= 32 && pk != sk
    modifies pk
    ensures pk[..32] == PublicKey(sk[..32]) && pk[32..] == old(pk[32..])
  {
    hide Hash, LEValue, LEBytes, SecretBytes, Encode, MulExt;
    ghost var seed: seq<int> := sk[..32];
    var d := SecretKeys(sk);
    assert d[0..0 + 32] == d[..32];
    var p := Edwards.NewPoint();
    Edwards.ScalarBase(p, d, 0);
    Pack(pk, p);
  }

  // ---- the three calls, one after the other -----------------------------------------------------------------

  // The key that crypto_sign_keypair leaves is one for which signatures verify.
  lemma MadeKeyPair(sk: seq<int>, seed: seq<int>)
    requires |seed| == 32 && IsBytes(seed) && sk == seed + PublicKey(seed)
    ensures KeyPair(sk)
  {
    hide PublicKey;
    JoinedBytes(seed, PublicKey(seed));
  }

  // Making a key pair, signing and opening returns the message and its length.
  method SignAndOpen(pk: array<u8>, sk: array<u8>, sm: array<u8>, out: array<u8>, len: array<u64>,
                     m: array<u8>, n: u64, random: seq<u8>, sizeMax: u64) returns (ret: int)
    requires PrimeOrderGroup() && n <= sizeMax - 128 && |random| == 32
    requires pk.Length >= 32 && sk.Length >= 64 && n <= m.Length && n + 64 <= sm.Length && n + 64 <= out.Length
    requires pk != sk && pk != sm && pk != m && pk != out && sk != sm && sk != m && sk != out
    requires sm != m && sm != out && out != m && len.Length >= 1
    modifies pk, sk, sm, out, len
    ensures ret == 0 && len[0] == n && out[..n] == old(m[..n])
  {
    hide PrimeOrderGroup, PublicKey, KeyPair, Signed, OpenBuffer, Opened, Unpack, Rejected;
    ghost var msg: seq<int>, seed: seq<int> := m[..n], random;
    var made := CryptoSignKeypair(pk, sk, Some(random));
    ghost var key: seq<int> := sk[..64];
    MadeKeyPair(key, seed);
    var signed := CryptoSign(sm, len, m, n, sk, sizeMax);
    assert sm[..n + 64] == sm[..64 + n];
    OpenAfterSign(msg, key, sizeMax);
    OpenedNotRejected(Signed(msg, key), pk[..32], sizeMax);
    ret := CryptoSignOpen(out, len, sm, n + 64, pk, sizeMax);
  }

  lemma OpenedNotRejected(sm: seq<int>, pk: seq<int>, sizeMax: int)
    requires IsBytes(sm) && IsBytes(pk) && |pk| == 32 && Opened(sm, pk, sizeMax).Some?
    ensures !Rejected(sm, pk, sizeMax)
  {
    hide Unpack, Recovered;
  }
}
