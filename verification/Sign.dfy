// Ed25519 signatures (src/tweetnacl/tweetnacl.c, lines 700 to 728 and 766 to 881; sections 5.1.5
// to 5.1.7 of RFC 8032).
module Sign {
  import opened Bits
  import opened Bytes
  import opened Limbs
  import opened Field25519
  import opened FieldAlgebra
  import opened EdwardsCurve
  import opened EdwardsGroup
  import opened EdwardsLadder
  import opened EdwardsBytes
  import opened ScalarModL
  import opened Sha512
  import FieldBytes
  import X25519

  // ---- the scheme ------------------------------------------------------------------------------------

  // The encoding of k B.
  ghost function PublicPoint(k: int): (s: seq<int>)
    ensures |s| == 32 && IsBytes(s)
  {
    EncodeParts(AffineOf(MulExt(k, BaseExt())));
    Encode(AffineOf(MulExt(k, BaseExt())))
  }

  ghost function SecretBytes(seed: seq<int>): (s: seq<int>)
    requires IsBytes(seed)
    ensures |s| == 32
  {
    hide Hash;
    X25519.ClampedBytes(Hash(seed)[..32])
  }

  ghost function SecretScalar(seed: seq<int>): int
    requires IsBytes(seed)
  {
    LEValue(SecretBytes(seed))
  }

  ghost function PublicKey(seed: seq<int>): (s: seq<int>)
    requires IsBytes(seed)
    ensures |s| == 32 && IsBytes(s)
  {
    PublicPoint(SecretScalar(seed))
  }

  // A hash as a scalar modulo L.
  ghost function HashScalar(m: seq<int>): (k: int)
    requires IsBytes(m)
    ensures 0 <= k < ORDER
  {
    hide Hash;
    LEValue(Hash(m)) % ORDER
  }

  // The second half of the hash of the seed.
  ghost function Prefix(seed: seq<int>): (s: seq<int>)
    requires IsBytes(seed)
    ensures |s| == 32 && IsBytes(s)
  {
    hide Hash;
    LastBytes(Hash(seed), 32);
    Hash(seed)[32..]
  }

  ghost function Nonce(seed: seq<int>, m: seq<int>): (r: int)
    requires IsBytes(seed) && IsBytes(m)
    ensures 0 <= r < ORDER
  {
    hide Hash;
    JoinedBytes(Prefix(seed), m);
    HashScalar(Prefix(seed) + m)
  }

  // The hash of R, the public key and the message.
  ghost function Challenge(R: seq<int>, pk: seq<int>, m: seq<int>): (h: int)
    requires IsBytes(R) && IsBytes(pk) && IsBytes(m)
    ensures 0 <= h < ORDER
  {
    hide Hash;
    JoinedBytes(R, pk);
    JoinedBytes(R + pk, m);
    HashScalar(R + pk + m)
  }

  // R, the encoding of r B.
  ghost function Commitment(m: seq<int>, sk: seq<int>): (s: seq<int>)
    requires IsBytes(m) && IsBytes(sk) && |sk| == 64
    ensures |s| == 32 && IsBytes(s)
  {
    PublicPoint(Nonce(sk[..32], m))
  }

  // S, the answer to the challenge.
  ghost function Proof(m: seq<int>, sk: seq<int>): (s: seq<int>)
    requires IsBytes(m) && IsBytes(sk) && |sk| == 64
    ensures |s| == 32 && IsBytes(s)
  {
    hide Hash, LEBytes;
    Response(Nonce(sk[..32], m), Challenge(Commitment(m, sk), sk[32..], m), SecretScalar(sk[..32]))
  }

  ghost function Signed(m: seq<int>, sk: seq<int>): (sm: seq<int>)
    requires IsBytes(m) && IsBytes(sk) && |sk| == 64
    ensures |sm| == |m| + 64
  {
    Commitment(m, sk) + Proof(m, sk) + m
  }

  // S = r + h a
  ghost function Response(r: int, h: int, a: int): (s: seq<int>)
    ensures |s| == 32 && IsBytes(s)
  {
    LEBytes((r + h * a) % ORDER, 32)
  }

  // The encoding of S B - h A, for the unpacked point q = -A.
  ghost function Recovered(h: int, q: Ext, s: int): seq<int> {
    Encode(AffineOf(AddExt(MulExt(h, q), MulExt(s, BaseExt()))))
  }

  // The scalar in the second half of a signature.
  ghost function ResponseScalar(sm: seq<int>): (s: nat)
    requires IsBytes(sm) && |sm| >= 64
    ensures IsScalar(s)
  {
    ScalarFits(sm[32..64]);
    LEValue(sm[32..64])
  }

  ghost function ChallengeOf(sm: seq<int>, pk: seq<int>): (h: nat)
    requires IsBytes(sm) && IsBytes(pk) && |sm| >= 64
    ensures h < ORDER
  {
    hide Hash;
    Challenge(sm[..32], pk, sm[64..])
  }

  ghost predicate Verifies(sm: seq<int>, pk: seq<int>)
    requires IsBytes(sm) && IsBytes(pk) && |sm| >= 64 && |pk| == 32
  {
    Unpack(pk).Some? &&
    Recovered(ChallengeOf(sm, pk), Unpack(pk).value, ResponseScalar(sm)) == sm[..32]
  }

  // What crypto_sign_open returns on a target whose SIZE_MAX is sizeMax.
  ghost function Opened(sm: seq<int>, pk: seq<int>, sizeMax: int): Option<seq<int>>
    requires IsBytes(sm) && IsBytes(pk) && |pk| == 32
  {
    if 64 <= |sm| <= sizeMax - 64 && Verifies(sm, pk) then Some(sm[64..]) else None
  }

  // The hypotheses: the group laws, and that L times the base point is the identity.
  ghost predicate PrimeOrderGroup() {
    Group() && BaseHasOrder()
  }

  ghost predicate BaseHasOrder() {
    forall k: nat :: k == ORDER ==> SMul(k, Base()) == Zero()
  }

  // ---- signatures verify -------------------------------------------------------------------------------

  // What SMul(k, Base) encodes to.
  lemma PublicPointIs(k: nat)
    requires Group() && IsScalar(k)
    ensures OnCurve(SMul(k, Base())) && PublicPoint(k) == Encode(SMul(k, Base()))
  {
    hide Fermat, Associative, OnCurve, InField, Rep, Encode, MulExt, SMul;
    RepBase();
    Multiplies(BaseExt(), Base(), k);
    SMulOnCurve(k, Base());
    CurveInField(SMul(k, Base()));
    AffineOfRep(MulExt(k, BaseExt()), SMul(k, Base()));
  }

  // r B, from S = r + h a: S B + h (-a B) = r B.
  lemma ResponseBalances(r: nat, h: nat, a: nat)
    requires PrimeOrderGroup()
    ensures h * a >= 0 && OnCurve(SMul(a, Base()))
    ensures EAdd(SMul(h, Neg(SMul(a, Base()))), SMul((r + h * a) % ORDER, Base())) == SMul(r, Base())
  {
    hide Fermat, Associative, OnCurve, InField, SMul, EAdd, Neg;
    RepBase();
    MulNonneg(h, a);
    var B := Base();
    SMulMod(r + h * a, ORDER, B);
    SMulAdd(r, h * a, B);
    SMulMul(h, a, B);
    SMulOnCurve(a, B);
    SMulOnCurve(r, B);
    Cancels(SMul(r, B), SMul(a, B), h);
  }

  lemma Cancels(x: Point, a: Point, h: nat)
    requires Group() && OnCurve(x) && OnCurve(a)
    ensures EAdd(SMul(h, Neg(a)), EAdd(x, SMul(h, a))) == x
  {
    hide Fermat, Associative, OnCurve, InField, SMul, EAdd, Neg;
    NegOnCurve(a);
    SMulOnCurve(h, a);
    SMulOnCurve(h, Neg(a));
    NegCancels(a, h);
    EAddCommutes(SMul(h, Neg(a)), EAdd(x, SMul(h, a)));
    Assoc(x, SMul(h, a), SMul(h, Neg(a)));
    CurveInField(x);
    EAddZero(x);
  }

  lemma NegCancels(a: Point, h: nat)
    requires Group() && OnCurve(a)
    ensures EAdd(SMul(h, a), SMul(h, Neg(a))) == Zero()
  {
    hide OnCurve, SMul, EAdd, Neg, Associative;
    NegOnCurve(a);
    EAddNeg(a);
    SMulOfSum(h, a, Neg(a));
    SMulOfZero(h);
  }

  // Verification recovers R exactly.
  lemma RecoversNonce(r: nat, h: nat, a: nat)
    requires PrimeOrderGroup() && r < ORDER && h < ORDER && IsScalar(a)
    ensures h * a >= 0 && Unpack(PublicPoint(a)).Some?
    ensures Recovered(h, Unpack(PublicPoint(a)).value, (r + h * a) % ORDER) == PublicPoint(r)
  {
    hide Fermat, Associative, OnCurve, InField, SMul, EAdd, Neg, Rep, MulExt, AddExt, Unpack, Encode;
    var A := SMul(a, Base());
    var s := (r + h * a) % ORDER;
    MulNonneg(h, a);
    OrderFits(r);
    OrderFits(h);
    OrderFits(s);
    PublicPointIs(a);
    PublicPointIs(r);
    RepBase();
    UnpackEncode(A);
    var q := Unpack(Encode(A)).value;
    NegOnCurve(A);
    Multiplies(q, Neg(A), h);
    Multiplies(BaseExt(), Base(), s);
    SMulOnCurve(h, Neg(A));
    SMulOnCurve(s, Base());
    RepAdd(MulExt(h, q), MulExt(s, BaseExt()), SMul(h, Neg(A)), SMul(s, Base()));
    ResponseBalances(r, h, a);
    SMulOnCurve(r, Base());
    AffineOfRep(AddExt(MulExt(h, q), MulExt(s, BaseExt())), SMul(r, Base()));
  }

  lemma OrderFits(k: int)
    requires k < ORDER
    ensures k < Pow2(BITS) && (0 <= k ==> IsScalar(k))
  {
    OrderValue();
    Pow2Values();
    Pow2Add(64, 64);
    Pow2Add(128, BITS - 128);
  }

  lemma ScalarFits(s: seq<int>)
    requires |s| == 32 && IsBytes(s)
    ensures 0 <= LEValue(s) && IsScalar(LEValue(s))
  {
    LEValueBound(s);
    Pow256IsPow2(|s|);
    assert 8 * |s| == BITS;
  }

  lemma SecretFits(seed: seq<int>)
    requires IsBytes(seed)
    ensures 0 <= SecretScalar(seed) && IsScalar(SecretScalar(seed))
  {
    hide Hash, LEValue, Pow2, LEBytes;
    var d := Hash(seed)[..32];
    assert IsBytes(d);
    Pow2Values();
    AndBound(d[0], 248, 8);
    AndBound(d[31], 127, 8);
    OrBound(And(d[31], 127), 64, 8);
    ScalarFits(SecretBytes(seed));
  }

  lemma ScalarBytes(k: int, n: nat)
    requires 0 <= k < ORDER && n == 32
    ensures LEValue(LEBytes(k, n)) == k
  {
    LEValueOfBytes(k, n);
    OrderFits(k);
    Pow256IsPow2(n);
    assert 8 * n == BITS;
    FieldBytes.SmallMod(k, Pow256(n));
  }

  lemma PartsOfSigned(m: seq<int>, sk: seq<int>)
    requires IsBytes(m) && IsBytes(sk) && |sk| == 64
    ensures var sm := Signed(m, sk);
      IsBytes(sm) && sm[..32] == Commitment(m, sk) && sm[32..64] == Proof(m, sk) && sm[64..] == m
  {
    hide Commitment, Proof;
    JoinSlices(Commitment(m, sk), Proof(m, sk), m);
  }

  lemma JoinSlices(a: seq<int>, b: seq<int>, c: seq<int>)
    requires |a| == |b| == 32 && IsBytes(a) && IsBytes(b) && IsBytes(c)
    ensures var s := a + b + c; IsBytes(s) && s[..32] == a && s[32..64] == b && s[64..] == c
  {
  }

  // A secret key whose second half is the public key of its first half.
  ghost predicate KeyPair(sk: seq<int>) {
    |sk| == 64 && IsBytes(sk) && forall seed :: IsBytes(seed) && seed == sk[..32] ==> sk[32..] == PublicKey(seed)
  }

  ghost predicate Accepted(m: seq<int>, sk: seq<int>)
    requires IsBytes(m) && IsBytes(sk) && |sk| == 64
  {
    hide Signed;
    LastBytes(sk, 32);
    IsBytes(Signed(m, sk)) && Verifies(Signed(m, sk), sk[32..])
  }

  ghost predicate Recovers(m: seq<int>, sk: seq<int>, sizeMax: int)
    requires IsBytes(m) && IsBytes(sk) && |sk| == 64
  {
    hide Signed;
    LastBytes(sk, 32);
    IsBytes(Signed(m, sk)) && Opened(Signed(m, sk), sk[32..], sizeMax) == Some(m)
  }

  // Every signature made with a matching key pair verifies.
  lemma SignatureVerifies(m: seq<int>, sk: seq<int>)
    requires PrimeOrderGroup() && IsBytes(m) && KeyPair(sk)
    ensures Accepted(m, sk)
  {
    hide Group, Nonce, PublicPoint, Challenge, SecretScalar, Unpack, Recovered, LEValue, SMul, Signed;
    PartsOfSigned(m, sk);
    SecretFits(sk[..32]);
    var r, a := Nonce(sk[..32], m), SecretScalar(sk[..32]);
    var h := Challenge(PublicPoint(r), sk[32..], m);
    RecoversNonce(r, h, a);
    ScalarBytes((r + h * a) % ORDER, 32);
  }

  // Opening a signed message returns it: exactly when the signed message is not too long for
  // crypto_sign_open, whose length guard leaves 64 bytes of room that crypto_sign has used up.
  lemma OpenAfterSign(m: seq<int>, sk: seq<int>, sizeMax: int)
    requires PrimeOrderGroup() && IsBytes(m) && KeyPair(sk)
    ensures Recovers(m, sk, sizeMax) <==> |m| <= sizeMax - 128
  {
    hide PrimeOrderGroup, Nonce, PublicPoint, Challenge, SecretScalar, Verifies, Signed;
    PartsOfSigned(m, sk);
    SignatureVerifies(m, sk);
  }

  // ---- what verification checks --------------------------------------------------------------------------

  // The public key as a point: the negative of what Unpack leaves.
  ghost function KeyPoint(pk: seq<int>): Point
    requires |pk| == 32 && Unpack(pk).Some?
  {
    Neg(Point(Unpack(pk).value.x, Unpack(pk).value.y))
  }

  // The equation S B = R + h A for a point R with the given encoding.
  ghost predicate Balanced(R: Point, bytes: seq<int>, s: nat, h: nat, A: Point) {
    OnCurve(R) && Encode(R) == bytes && SMul(s, Base()) == EAdd(R, SMul(h, A))
  }

  lemma UnpackedPoint(pk: seq<int>)
    requires |pk| == 32 && Unpack(pk).Some?
    ensures var a := Point(Unpack(pk).value.x, Unpack(pk).value.y);
      OnCurve(a) && Rep(Unpack(pk).value, a) && OnCurve(KeyPoint(pk)) && Neg(KeyPoint(pk)) == a
  {
    hide Unpack, Rep, OnCurve, Extended, FMul, Neg;
    var q := Unpack(pk).value;
    var a := Point(q.x, q.y);
    UnpackOnCurve(pk);
    RepUnpacked(a);
    NegOnCurve(a);
    CurveInField(a);
    NegNeg(a);
  }

  // What Recovered encodes, in terms of the group.
  lemma RecoveredIs(h: nat, q: Ext, a: Point, s: nat)
    requires Group() && OnCurve(a) && Rep(q, a) && IsScalar(h) && IsScalar(s)
    ensures var R := EAdd(SMul(h, a), SMul(s, Base()));
      OnCurve(R) && Recovered(h, q, s) == Encode(R)
  {
    hide Fermat, Associative, OnCurve, InField, SMul, EAdd, Rep, MulExt, AddExt, Encode;
    RepBase();
    Multiplies(q, a, h);
    Multiplies(BaseExt(), Base(), s);
    SMulOnCurve(h, a);
    SMulOnCurve(s, Base());
    RepAdd(MulExt(h, q), MulExt(s, BaseExt()), SMul(h, a), SMul(s, Base()));
    EAddOnCurve(SMul(h, a), SMul(s, Base()));
    AffineOfRep(AddExt(MulExt(h, q), MulExt(s, BaseExt())), EAdd(SMul(h, a), SMul(s, Base())));
  }

  // x + h(-a) = R exactly when x = R + h a.
  lemma MoveAcross(x: Point, R: Point, a: Point, h: nat)
    requires Group() && OnCurve(x) && OnCurve(R) && OnCurve(a)
    ensures EAdd(SMul(h, Neg(a)), x) == R <==> x == EAdd(R, SMul(h, a))
  {
    hide Fermat, Associative, OnCurve, InField, SMul, EAdd, Neg;
    Cancels(R, a, h);
    NegOnCurve(a);
    CurveInField(a);
    NegNeg(a);
    Cancels(x, Neg(a), h);
    EAddCommutes(SMul(h, Neg(a)), x);
    EAddCommutes(SMul(h, a), R);
  }

  ghost predicate EquationHolds(sm: seq<int>, pk: seq<int>)
    requires IsBytes(sm) && IsBytes(pk) && |sm| >= 64 && |pk| == 32
  {
    Unpack(pk).Some? && exists R :: Balanced(R, sm[..32], ResponseScalar(sm), ChallengeOf(sm, pk), KeyPoint(pk))
  }

  // A signature is accepted exactly when the key decodes and S B = R + h A for the point R that its
  // first half encodes.
  lemma VerificationEquation(sm: seq<int>, pk: seq<int>)
    requires Group() && IsBytes(sm) && IsBytes(pk) && |sm| >= 64 && |pk| == 32
    ensures Verifies(sm, pk) <==> EquationHolds(sm, pk)
  {
    hide Group, Unpack, OnCurve, SMul, EAdd, Neg, Rep, Recovered, Encode, LEValue, Challenge, KeyPoint;
    if Unpack(pk).Some? {
      var q, A := Unpack(pk).value, KeyPoint(pk);
      UnpackedPoint(pk);
      EquationFor(q, A, ChallengeOf(sm, pk), ResponseScalar(sm), sm[..32]);
    }
  }

  lemma EquationFor(q: Ext, A: Point, h: nat, s: nat, bytes: seq<int>)
    requires Group() && OnCurve(A) && OnCurve(Neg(A)) && Rep(q, Neg(A)) && h < ORDER && IsScalar(s)
    ensures Recovered(h, q, s) == bytes <==> exists R :: Balanced(R, bytes, s, h, A)
  {
    hide Fermat, Associative, OnCurve, InField, SMul, EAdd, Neg, Rep, Encode, Recovered;
    OrderFits(h);
    RecoveredIs(h, q, Neg(A), s);
    RepBase();
    SMulOnCurve(s, Base());
    var R0 := EAdd(SMul(h, Neg(A)), SMul(s, Base()));
    MoveAcross(SMul(s, Base()), R0, A, h);
    if Recovered(h, q, s) == bytes {
      assert Balanced(R0, bytes, s, h, A);
    }
    forall R | Balanced(R, bytes, s, h, A)
      ensures Recovered(h, q, s) == bytes
    {
      MoveAcross(SMul(s, Base()), R, A, h);
    }
  }

  // ---- the verification of RFC 8032 ----------------------------------------------------------------------

  // The digest as a number, k in section 5.1.7 of RFC 8032.  The source reduces it modulo L first.
  ghost function Digest(sm: seq<int>, pk: seq<int>): (k: nat)
    requires IsBytes(sm) && IsBytes(pk) && |sm| >= 64
    ensures ChallengeOf(sm, pk) == k % ORDER
  {
    hide Hash;
    FirstBytes(sm, 32);
    LastBytes(sm, 64);
    JoinedBytes(sm[..32], pk);
    JoinedBytes(sm[..32] + pk, sm[64..]);
    LEValueBound(Hash(sm[..32] + pk + sm[64..]));
    LEValue(Hash(sm[..32] + pk + sm[64..]))
  }

  // Section 5.1.7 of RFC 8032, without the cofactor: both halves and the key must decode, S must be
  // reduced, and S B = R + k A.
  ghost predicate RfcVerifies(sm: seq<int>, pk: seq<int>)
    requires IsBytes(sm) && IsBytes(pk) && |sm| >= 64 && |pk| == 32
  {
    RfcDecode(pk).Some? && RfcAccepts(sm, RfcDecode(pk).value, Digest(sm, pk))
  }

  // What is asked of a signed message, for the key A and a multiplier k.
  ghost predicate RfcAccepts(sm: seq<int>, A: Point, k: nat)
    requires IsBytes(sm) && |sm| >= 64
  {
    RfcDecode(sm[..32]).Some? && ResponseScalar(sm) < ORDER &&
    SMul(ResponseScalar(sm), Base()) == EAdd(RfcDecode(sm[..32]).value, SMul(k, A))
  }

  // With S reduced and a key that the RFC decodes, the source makes the test of the RFC with the
  // digest modulo L in the place of the digest.
  lemma SourceAccepts(sm: seq<int>, pk: seq<int>)
    requires Group() && IsBytes(sm) && IsBytes(pk) && |sm| >= 64 && |pk| == 32
    ensures Verifies(sm, pk) && ResponseScalar(sm) < ORDER && !Lenient(pk) <==>
      RfcDecode(pk).Some? && RfcAccepts(sm, RfcDecode(pk).value, Digest(sm, pk) % ORDER)
  {
    hide Fermat, Associative, Unpack, RfcDecode, Lenient, OnCurve, SMul, EAdd, Neg, Encode, ResponseScalar, ChallengeOf, Verifies, Digest;
    VerificationEquation(sm, pk);
    AgreesWithRfc(pk);
    if Unpack(pk).Some? && !Lenient(pk) {
      RfcKeyPoint(pk);
      FirstBytes(sm, 32);
      RfcEquation(sm[..32], ResponseScalar(sm), ChallengeOf(sm, pk), KeyPoint(pk));
    }
  }

  // k A and (k mod L) A are the same.
  ghost predicate SameMultiple(k: nat, A: Point) {
    SMul(k, A) == SMul(k % ORDER, A)
  }

  // Beyond the RFC the source accepts an unreduced S and the keys of Lenient.  Otherwise the two agree
  // when k A = (k mod L) A, and when that fails they never both accept.
  lemma AgreesWithRfcVerification(sm: seq<int>, pk: seq<int>)
    requires Group() && IsBytes(sm) && IsBytes(pk) && |sm| >= 64 && |pk| == 32 && RfcDecode(pk).Some?
    ensures var same := SameMultiple(Digest(sm, pk), RfcDecode(pk).value);
      var accepts := Verifies(sm, pk) && ResponseScalar(sm) < ORDER && !Lenient(pk);
      if same then RfcVerifies(sm, pk) <==> accepts else !(RfcVerifies(sm, pk) && accepts)
  {
    hide Fermat, Associative, RfcDecode, Lenient, OnCurve, SMul, EAdd, Verifies, ResponseScalar, Digest;
    SourceAccepts(sm, pk);
    var k, A := Digest(sm, pk), RfcDecode(pk).value;
    DecodedPoint(pk);
    if RfcVerifies(sm, pk) && RfcAccepts(sm, A, k % ORDER) {
      FirstBytes(sm, 32);
      DecodedPoint(sm[..32]);
      SMulOnCurve(k, A);
      SMulOnCurve(k % ORDER, A);
      CancelLeft(RfcDecode(sm[..32]).value, SMul(k, A), SMul(k % ORDER, A));
    }
  }

  lemma CancelLeft(R: Point, a: Point, b: Point)
    requires Group() && OnCurve(R) && OnCurve(a) && OnCurve(b) && EAdd(R, a) == EAdd(R, b)
    ensures a == b
  {
    hide Fermat, Associative, OnCurve, InField, EAdd, Neg;
    NegOnCurve(R);
    EAddNeg(R);
    EAddCommutes(R, Neg(R));
    Assoc(Neg(R), R, a);
    Assoc(Neg(R), R, b);
    CurveInField(a);
    CurveInField(b);
    EAddZero(a);
    EAddZero(b);
  }

  // k A = (k mod L) A exactly when k div L multiples of L A, the small-order part of A, vanish.
  lemma SameMultipleIff(k: nat, A: Point)
    requires Group() && OnCurve(A)
    ensures k / ORDER >= 0 && (SameMultiple(k, A) <==> SMul(k / ORDER, SMul(ORDER, A)) == Zero())
  {
    hide Fermat, Associative, OnCurve, InField, EAdd, SMul;
    var q, r := k / ORDER, k % ORDER;
    QuotientIsNat(k, ORDER);
    DivMod(k, ORDER);
    SMulMul(q, ORDER, A);
    SMulAdd(r, q * ORDER, A);
    SMulOnCurve(r, A);
    SMulOnCurve(q * ORDER, A);
    CurveInField(SMul(r, A));
    EAddZero(SMul(r, A));
    ZeroOnCurve();
    if SameMultiple(k, A) {
      CancelLeft(SMul(r, A), SMul(q * ORDER, A), Zero());
    }
  }

  // For a key without a small-order part the source and the RFC differ in S and Lenient alone.
  lemma AgreesForPrimeOrder(sm: seq<int>, pk: seq<int>)
    requires Group() && IsBytes(sm) && IsBytes(pk) && |sm| >= 64 && |pk| == 32
    requires RfcDecode(pk).Some? ==> SMul(ORDER, RfcDecode(pk).value) == Zero()
    ensures RfcVerifies(sm, pk) <==> Verifies(sm, pk) && ResponseScalar(sm) < ORDER && !Lenient(pk)
  {
    hide Fermat, Associative, RfcDecode, Lenient, OnCurve, SMul, EAdd, Verifies, ResponseScalar, Digest;
    SourceAccepts(sm, pk);
    if RfcDecode(pk).Some? {
      var k, A := Digest(sm, pk), RfcDecode(pk).value;
      DecodedPoint(pk);
      SMulMod(k, ORDER, A);
      AgreesWithRfcVerification(sm, pk);
    }
  }

  // The keys of crypto_sign_keypair have none, and are strict.
  lemma MadeKeysAgree(sm: seq<int>, seed: seq<int>)
    requires PrimeOrderGroup() && IsBytes(sm) && IsBytes(seed) && |sm| >= 64
    ensures RfcVerifies(sm, PublicKey(seed)) <==> Verifies(sm, PublicKey(seed)) && ResponseScalar(sm) < ORDER
  {
    hide Fermat, Associative, RfcDecode, Lenient, OnCurve, SMul, EAdd, Verifies, ResponseScalar, RfcVerifies, SecretScalar, Encode, PublicPoint;
    SecretFits(seed);
    var a := SecretScalar(seed);
    var A := SMul(a, Base());
    PublicPointIs(a);
    DecodeInvertsEncode(PublicKey(seed), A);
    EncodingIsStrict(A);
    RepBase();
    SMulMul(ORDER, a, Base());
    SMulMul(a, ORDER, Base());
    SMulOfZero(a);
    Commute(a, ORDER);
    AgreesForPrimeOrder(sm, PublicKey(seed));
  }

  // ---- signing against section 5.1.6 of RFC 8032 ----------------------------------------------------------------

  // A digest as a number, not reduced.
  ghost function HashNumber(m: seq<int>): nat
    requires IsBytes(m)
  {
    hide Hash, LEValue;
    LEValueBound(Hash(m));
    LEValue(Hash(m))
  }

  // Section 5.1.5: the secret scalar is the clamped first half of the hash of the seed.
  ghost function RfcScalar(seed: seq<int>): nat
    requires IsBytes(seed)
  {
    SecretFits(seed);
    LEValue(X25519.ClampedBytes(Hash(seed)[..32]))
  }

  // The encoding of k B.
  ghost function EncodedMultiple(k: nat): (s: seq<int>)
    ensures |s| == 32 && IsBytes(s)
  {
    EncodeParts(SMul(k, Base()));
    Encode(SMul(k, Base()))
  }

  // Section 5.1.6: R = r B for the number r in the hash of the second half of the hash of the seed
  // and the message, and S = (r + k a) mod L for the number k in the hash of R, A and the message.
  ghost function RfcSignature(m: seq<int>, seed: seq<int>): seq<int>
    requires IsBytes(m) && IsBytes(seed)
  {
    hide Hash, LEBytes;
    LastBytes(Hash(seed), 32);
    JoinedBytes(Hash(seed)[32..], m);
    var r := HashNumber(Hash(seed)[32..] + m);
    var R, A := EncodedMultiple(r), EncodedMultiple(RfcScalar(seed));
    JoinedBytes(R, A);
    JoinedBytes(R + A, m);
    R + LEBytes((r + HashNumber(R + A + m) * RfcScalar(seed)) % ORDER, 32)
  }

  lemma ScalarIsRfc(seed: seq<int>)
    requires IsBytes(seed)
    ensures SecretScalar(seed) == RfcScalar(seed)
  {
    hide Hash, LEValue;
  }

  // The public key that crypto_sign_keypair stores is the one of section 5.1.5.
  lemma PublicKeyAsRfc(seed: seq<int>)
    requires Group() && IsBytes(seed)
    ensures PublicKey(seed) == EncodedMultiple(RfcScalar(seed))
  {
    hide Group, PublicPoint, SMul, Encode, SecretScalar, RfcScalar;
    ScalarIsRfc(seed);
    SecretFits(seed);
    PublicPointIs(SecretScalar(seed));
  }

  lemma NonceIs(seed: seq<int>, m: seq<int>)
    requires IsBytes(seed) && IsBytes(m)
    ensures IsBytes(Hash(seed)[32..] + m) && Nonce(seed, m) == HashNumber(Hash(seed)[32..] + m) % ORDER
  {
    hide Hash, LEValue;
    LastBytes(Hash(seed), 32);
    JoinedBytes(Hash(seed)[32..], m);
  }

  lemma ChallengeIs(R: seq<int>, pk: seq<int>, m: seq<int>)
    requires IsBytes(R) && IsBytes(pk) && IsBytes(m)
    ensures IsBytes(R + pk + m) && Challenge(R, pk, m) == HashNumber(R + pk + m) % ORDER
  {
    hide Hash, LEValue;
    JoinedBytes(R, pk);
    JoinedBytes(R + pk, m);
  }

  // The encoding of r B does not change when r is reduced modulo L.
  lemma ReducedPoint(r: nat)
    requires PrimeOrderGroup()
    ensures PublicPoint(r % ORDER) == Encode(SMul(r, Base()))
  {
    hide Group, PublicPoint, SMul, Encode;
    RepBase();
    OrderFits(r % ORDER);
    PublicPointIs(r % ORDER);
    SMulMod(r, ORDER, Base());
  }

  // Reducing the digests r and k first does not change R and S.
  lemma ReducedDigests(r: nat, k: nat, a: nat)
    requires PrimeOrderGroup()
    ensures PublicPoint(r % ORDER) == EncodedMultiple(r)
    ensures Response(r % ORDER, k % ORDER, a) == LEBytes((r + k * a) % ORDER, 32)
  {
    hide PrimeOrderGroup, PublicPoint, SMul, Encode, LEBytes;
    ReducedPoint(r);
    ReduceFirst(r, k, a, ORDER);
  }

  // The source signs as section 5.1.6 of RFC 8032 says.
  lemma SignedAsRfc(m: seq<int>, sk: seq<int>)
    requires PrimeOrderGroup() && IsBytes(m) && KeyPair(sk)
    ensures Signed(m, sk) == RfcSignature(m, sk[..32]) + m
  {
    hide PrimeOrderGroup, Nonce, Challenge, SecretScalar, PublicPoint, Response, SMul, Encode, Hash, LEBytes, RfcScalar, HashNumber, PublicKey, EncodedMultiple;
    var seed := sk[..32];
    FirstBytes(sk, 32);
    GroupOf();
    PublicKeyAsRfc(seed);
    ScalarIsRfc(seed);
    NonceIs(seed, m);
    var R := Commitment(m, sk);
    ChallengeIs(R, sk[32..], m);
    ReducedDigests(HashNumber(Hash(seed)[32..] + m), HashNumber(R + sk[32..] + m), RfcScalar(seed));
  }

  lemma GroupOf()
    requires PrimeOrderGroup()
    ensures Group()
  {
  }

  lemma ReduceFirst(r: int, k: int, a: int, m: int)
    requires m > 0
    ensures (r % m + (k % m) * a) % m == (r + k * a) % m
  {
    ModAdd(r, k * a, m);
    ModAdd(r % m, (k % m) * a, m);
    ModMulLeft(k, a, m);
    ModUnique(r % m, m, 0, r % m);
  }

  // ---- a key of order two -----------------------------------------------------------------------------------

  // The point (0, -1).
  ghost function Halfway(): Point {
    Point(0, P - 1)
  }

  lemma HalfwayDoubles()
    requires Fermat()
    ensures OnCurve(Halfway()) && EAdd(Halfway(), Halfway()) == Zero()
  {
    hide Fermat, EAdd;
    var y := P - 1;
    assert y * y - 0 * 0 == 1 + (P - 2) * P;
    ResShift(1, P - 2);
    assert 1 + D * ((0 * y) * (0 * y)) == 1;
    ResSmall(0);
    EAddNeg(Halfway());
    Negation(0);
  }

  lemma {:induction false} MultipleOfHalfway(k: nat)
    requires Fermat()
    ensures SMul(k, Halfway()) == if k % 2 == 0 then Zero() else Halfway()
  {
    hide Fermat, EAdd, OnCurve;
    if k > 0 {
      MultipleOfHalfway(k - 1);
      HalfwayDoubles();
      CurveInField(Halfway());
      EAddZero(Halfway());
    }
  }

  // R = (0, 1) and S = 0.
  ghost predicate ZeroSignature(sm: seq<int>) {
    IsBytes(sm) && |sm| >= 64 && sm[..32] == Encode(Zero()) && ResponseScalar(sm) == 0
  }

  lemma ZeroSigned(m: seq<int>)
    requires IsBytes(m)
    ensures ZeroSignature(Encode(Zero()) + LEBytes(0, 32) + m)
  {
    hide Encode, LEBytes, LEValue;
    ZeroOnCurve();
    EncodeParts(Zero());
    JoinSlices(Encode(Zero()), LEBytes(0, 32), m);
    OrderValue();
    ScalarBytes(0, 32);
  }

  // With the key (0, -1) the RFC accepts this signature when k is even, the source when k mod L is
  // even, and the two differ exactly when k div L is odd.
  lemma KeyOfOrderTwo(sm: seq<int>)
    requires Group() && ZeroSignature(sm)
    ensures var pk := Encode(Halfway());
      IsBytes(pk) && !Lenient(pk) && (RfcVerifies(sm, pk) <==> Digest(sm, pk) % 2 == 0) &&
      (Verifies(sm, pk) <==> Digest(sm, pk) % ORDER % 2 == 0) &&
      ((RfcVerifies(sm, pk) <==> Verifies(sm, pk)) <==> Digest(sm, pk) / ORDER % 2 == 0)
  {
    hide Fermat, Associative, RfcDecode, Lenient, OnCurve, Verifies, ResponseScalar, Digest, Encode, Halfway, RfcAccepts;
    var H := Halfway();
    var pk := Encode(H);
    HalfwayDoubles();
    CurveInField(H);
    EncodeParts(H);
    DecodeInvertsEncode(pk, H);
    EncodingIsStrict(H);
    var k := Digest(sm, pk);
    AcceptsZero(sm, k);
    AcceptsZero(sm, k % ORDER);
    SourceAccepts(sm, pk);
    OrderIsOdd();
    ParityOfRemainder(k, ORDER);
  }

  lemma OrderIsOdd()
    ensures ORDER % 2 == 1
  {
    OrderValue();
  }

  lemma AcceptsZero(sm: seq<int>, k: nat)
    requires Fermat() && ZeroSignature(sm)
    ensures IsBytes(sm) && ResponseScalar(sm) < ORDER && (RfcAccepts(sm, Halfway(), k) <==> k % 2 == 0)
  {
    hide Fermat, RfcDecode, OnCurve, SMul, EAdd, Encode, Halfway, ResponseScalar;
    ZeroOnCurve();
    FirstBytes(sm, 32);
    DecodeInvertsEncode(sm[..32], Zero());
    ZeroEquation(k);
  }

  lemma ZeroEquation(k: nat)
    requires Fermat()
    ensures SMul(0, Base()) == EAdd(Zero(), SMul(k, Halfway())) <==> k % 2 == 0
  {
    hide Fermat, EAdd, OnCurve;
    MultipleOfHalfway(k);
    HalfwayDoubles();
    ZeroOnCurve();
    CurveInField(Halfway());
    EAddZero(Halfway());
    EAddZero(Zero());
    assert P - 1 != 1;
  }

  lemma SumParity(k: int, q: int, r: int, t: int)
    requires k == q + r + 2 * t
    ensures (k % 2 == 0 <==> r % 2 == 0) <==> q % 2 == 0
  {
  }

  lemma ParityOfRemainder(k: int, m: int)
    requires m > 0 && m % 2 == 1
    ensures (k % 2 == 0 <==> k % m % 2 == 0) <==> k / m % 2 == 0
  {
    DivMod(k, m);
    var q, r, h := k / m, k % m, m / 2;
    MulDistributes(2 * h, -1, q);
    Commute(q, m);
    MulAssoc(2, h, q);
    SumParity(k, q, r, h * q);
  }

  lemma RfcKeyPoint(pk: seq<int>)
    requires |pk| == 32 && IsBytes(pk) && Unpack(pk).Some? && !Lenient(pk)
    ensures RfcDecode(pk).Some? && KeyPoint(pk) == RfcDecode(pk).value
  {
    hide Unpack, RfcDecode, Lenient, Neg, OnCurve;
    AgreesWithRfc(pk);
    DecodedPoint(pk);
    CurveInField(RfcDecode(pk).value);
    NegNeg(RfcDecode(pk).value);
  }

  lemma RfcEquation(bytes: seq<int>, s: nat, h: nat, A: Point)
    requires Group() && |bytes| == 32 && IsBytes(bytes)
    ensures (exists R :: Balanced(R, bytes, s, h, A)) <==>
      RfcDecode(bytes).Some? && SMul(s, Base()) == EAdd(RfcDecode(bytes).value, SMul(h, A))
  {
    hide Fermat, Associative, RfcDecode, OnCurve, SMul, EAdd, Encode;
    forall R | Balanced(R, bytes, s, h, A)
      ensures RfcDecode(bytes) == Some(R)
    {
      DecodeInvertsEncode(bytes, R);
    }
    if RfcDecode(bytes).Some? && SMul(s, Base()) == EAdd(RfcDecode(bytes).value, SMul(h, A)) {
      DecodeInvertsEncode(bytes, RfcDecode(bytes).value);
      assert Balanced(RfcDecode(bytes).value, bytes, s, h, A);
    }
  }

  // The source looks at S only modulo L: with it, every scalar congruent to it is accepted.
  lemma OnlyModuloL(sm: seq<int>, sn: seq<int>, pk: seq<int>)
    requires PrimeOrderGroup() && IsBytes(sm) && IsBytes(sn) && IsBytes(pk) && |sm| >= 64 && |sn| >= 64 && |pk| == 32
    requires sm[..32] == sn[..32] && sm[64..] == sn[64..]
    requires ResponseScalar(sm) % ORDER == ResponseScalar(sn) % ORDER
    ensures Verifies(sm, pk) <==> Verifies(sn, pk)
  {
    hide Group, Unpack, OnCurve, Rep, Recovered, ResponseScalar, Challenge, KeyPoint;
    if Unpack(pk).Some? {
      UnpackedPoint(pk);
      var h := ChallengeOf(sm, pk);
      OrderFits(h);
      var q := Unpack(pk).value;
      SameRecovered(h, q, Point(q.x, q.y), ResponseScalar(sm), ResponseScalar(sn));
    }
  }

  lemma SameRecovered(h: nat, q: Ext, a: Point, s: nat, t: nat)
    requires PrimeOrderGroup() && OnCurve(a) && Rep(q, a) && IsScalar(h) && IsScalar(s) && IsScalar(t)
    requires s % ORDER == t % ORDER
    ensures Recovered(h, q, s) == Recovered(h, q, t)
  {
    hide Fermat, Associative, OnCurve, Rep, Recovered, SMul, EAdd, Encode;
    RecoveredIs(h, q, a, s);
    RecoveredIs(h, q, a, t);
    RepBase();
    SMulMod(s, ORDER, Base());
    SMulMod(t, ORDER, Base());
  }

  // The signed message with L added to S.
  ghost function Unreduced(sm: seq<int>): (sn: seq<int>)
    requires IsBytes(sm) && |sm| >= 64
    ensures |sn| == |sm|
  {
    sm[..32] + LEBytes(ResponseScalar(sm) + ORDER, 32) + sm[64..]
  }

  // It is accepted whenever the original is, and the RFC never accepts it.
  lemma UnreducedDiffers(sm: seq<int>, pk: seq<int>)
    requires PrimeOrderGroup() && IsBytes(sm) && IsBytes(pk) && |sm| >= 64 && |pk| == 32
    requires ResponseScalar(sm) < ORDER
    ensures var sn := Unreduced(sm); IsBytes(sn) && (Verifies(sn, pk) <==> Verifies(sm, pk)) && !RfcVerifies(sn, pk)
  {
    hide PrimeOrderGroup, Verifies, ResponseScalar, LEBytes;
    var s := ResponseScalar(sm);
    FirstBytes(sm, 32);
    LastBytes(sm, 64);
    JoinSlices(sm[..32], LEBytes(s + ORDER, 32), sm[64..]);
    UnreducedScalar(Unreduced(sm), s, 32);
    ModShift(s, 1, ORDER);
    OnlyModuloL(sm, Unreduced(sm), pk);
  }

  lemma UnreducedScalar(sn: seq<int>, s: nat, n: nat)
    requires IsBytes(sn) && |sn| >= 64 && n == 32 && sn[32..64] == LEBytes(s + ORDER, n) && s < ORDER
    ensures ResponseScalar(sn) == s + ORDER
  {
    hide LEBytes;
    LEValueOfBytes(s + ORDER, n);
    OrderValue();
    Pow256IsPow2(n);
    assert 8 * n == BITS;
    Pow2Values();
    Pow2Add(64, 64);
    Pow2Add(128, BITS - 128);
    FieldBytes.SmallMod(s + ORDER, Pow256(n));
  }
}
