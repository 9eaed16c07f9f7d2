// The tag of section 2.5 of RFC 8439 in closed form, apart from the Horner scheme that the source
// is proved against.
module Poly1305Laws {
  import opened Bits
  import opened Bytes
  import opened Limbs
  import opened Poly1305

  // The blocks of a message: 16 bytes each, the last one shorter.
  function BlockCount(m: seq<int>): nat {
    (|m| + 15) / 16
  }

  function Block(m: seq<int>, i: nat): seq<int>
    requires i < BlockCount(m)
  {
    if 16 * i + 16 <= |m| then m[16 * i..16 * i + 16] else m[16 * i..]
  }

  // The first n blocks, each with a byte 1 on top, as the coefficients of a polynomial in r:
  // the block with number i has the exponent BlockCount(m) - i.
  function Polynomial(m: seq<int>, r: int, n: nat): int
    requires n <= BlockCount(m)
  {
    if n == 0 then 0
    else Polynomial(m, r, n - 1) + LEValue(Block(m, n - 1) + [1]) * Pow(r, BlockCount(m) - (n - 1))
  }

  lemma TopOne(b: seq<int>)
    ensures LEValue(b + [1]) == LEValue(b) + Pow256(|b|)
  {
    hide Pow;
    ValAgree(256, b + [1], b, |b|);
  }

  // The polynomial with the first block taken off.
  lemma {:induction false} FirstBlockOff(m: seq<int>, r: int, n: nat)
    requires |m| > 0 && 0 < n <= BlockCount(m)
    ensures var k := if |m| < 16 then |m| else 16;
      BlockCount(m[k..]) == BlockCount(m) - 1 &&
      Polynomial(m, r, n) == LEValue(m[..k] + [1]) * Pow(r, BlockCount(m)) + Polynomial(m[k..], r, n - 1)
  {
    hide LEValue, Pow;
    var k := if |m| < 16 then |m| else 16;
    if n == 1 {
      assert Block(m, 0) == m[..k];
      assert Polynomial(m, r, 0) == 0;
    } else {
      FirstBlockOff(m, r, n - 1);
      assert Block(m, n - 1) == Block(m[k..], n - 2);
    }
  }

  lemma HornerStep(acc: int, b: int, r: int, q: nat, s: int, p: int)
    requires q > 0 && p > 0
    ensures ((acc + b) * r % p * Pow(r, q - 1) + s) % p == (acc * Pow(r, q) + (b * Pow(r, q) + s)) % p
  {
    var t := (acc + b) * r;
    ModMulLeft(t, Pow(r, q - 1), p);
    MulAssoc(acc + b, r, Pow(r, q - 1));
    Commute(r, Pow(r, q - 1));
    assert Pow(r, q) == r * Pow(r, q - 1);
    assert t * Pow(r, q - 1) == acc * Pow(r, q) + b * Pow(r, q);
    ModAdd(t % p * Pow(r, q - 1), s, p);
    ModAdd(t * Pow(r, q - 1), s, p);
  }

  // The accumulator of the block loop is acc r^q plus the polynomial.
  lemma {:induction false} AbsorbIsPolynomial(acc: int, m: seq<int>, r: int)
    requires 0 <= acc < P1305
    ensures Absorb(acc, m, r) == (acc * Pow(r, BlockCount(m)) + Polynomial(m, r, BlockCount(m))) % P1305
    decreases |m|
  {
    hide LEValue, Pow, Pow256;
    var q := BlockCount(m);
    if |m| == 0 {
      NoBlocks(acc, m, r);
    } else {
      var k := if |m| < 16 then |m| else 16;
      var b := LEValue(m[..k]) + Pow256(k);
      TopOne(m[..k]);
      FirstBlockOff(m, r, q);
      AbsorbIsPolynomial((acc + b) * r % P1305, m[k..], r);
      HornerStep(acc, b, r, q, Polynomial(m[k..], r, q - 1), P1305);
    }
  }

  lemma NoBlocks(acc: int, m: seq<int>, r: int)
    requires |m| == 0 && 0 <= acc < P1305
    ensures acc == (acc * Pow(r, BlockCount(m)) + Polynomial(m, r, BlockCount(m))) % P1305
  {
  }

  // The tag: the polynomial at the clamped first half of the key, modulo 2^130 - 5, plus the second
  // half, as sixteen bytes.
  lemma TagIsPolynomial(m: seq<int>, key: seq<int>)
    requires |key| == 32
    ensures var r := And(LEValue(key[..16]), CLAMP);
      Tag(m, key) == LEBytes(Polynomial(m, r, BlockCount(m)) % P1305 + LEValue(key[16..]), 16)
  {
    hide LEValue, LEBytes, And;
    AbsorbIsPolynomial(0, m, And(LEValue(key[..16]), CLAMP));
  }

  // The modulus is 2^130 - 5.
  lemma Modulus(n: nat)
    requires n == 130
    ensures P1305 == Pow2(n) - 5
  {
    Pow2Values();
    Pow2Add(64, 64);
    Pow2Add(128, n - 128);
  }

  // The tag of the empty message is the second half of the key.
  lemma TagOfEmpty(key: seq<int>)
    requires |key| == 32 && IsBytes(key)
    ensures Tag([], key) == key[16..]
  {
    hide LEValue, LEBytes, And;
    LEValueBound(key[16..]);
    var s := LEValue(key[16..]);
    ModUnique(s, Pow256(|key[16..]|), 0, s);
    BytesOfLEValue(key[16..], s);
  }
}
