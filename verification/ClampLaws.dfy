// What the clamping of section 5 of RFC 7748 makes of a key, as a number.
module ClampLaws {
  import opened Bits
  import opened Bytes
  import opened BitLaws
  import opened X25519

  // The scalar has the bits 3 to 253 of the input, a 1 in bit 254 and a 0 in the other four.
  lemma ClampedBit(n: seq<int>, i: nat)
    requires |n| == 32 && IsBytes(n) && i < 256
    ensures IsBytes(ClampedBytes(n))
    ensures Bit(LEValue(ClampedBytes(n)), i) ==
      if i < 3 || i == 255 then 0 else if i == 254 then 1 else Bit(LEValue(n), i)
  {
    hide LEValue, And, Or, Bit;
    var c := ClampedBytes(n);
    ClampedIsBytes(n);
    BitInByte(c, i);
    BitInByte(n, i);
    if i < 8 {
      AndBit(n[0], 248, i);
      BitRange(n[0], i);
      BitsOf248(i);
    } else if i >= 248 {
      AndBit(n[31], 127, i - 248);
      OrBit(And(n[31], 127), 64, i - 248);
      BitRange(n[31], i - 248);
      BitsOf127And64(i - 248);
    }
  }

  lemma BitsOf248(i: nat)
    requires i < 8
    ensures Bit(248, i) == if i < 3 then 0 else 1
  {
    hide Pow2;
    SmallPowers(i);
  }

  lemma BitsOf127And64(i: nat)
    requires i < 8
    ensures Bit(127, i) == if i < 7 then 1 else 0
    ensures Bit(64, i) == if i == 6 then 1 else 0
  {
    hide Pow2;
    SmallPowers(i);
  }

  lemma ClampedIsBytes(n: seq<int>)
    requires |n| == 32 && IsBytes(n)
    ensures IsBytes(ClampedBytes(n))
  {
    hide And, Or, Pow2;
    Pow2Values();
    AndBound(n[0], 248, 8);
    AndBound(n[31], 127, 8);
    OrBound(And(n[31], 127), 64, 8);
    var c := ClampedBytes(n);
    forall i | 0 <= i < 32
      ensures 0 <= c[i] < 256
    {
      assert c[i] == if i == 0 then And(n[0], 248) else if i == 31 then Or(And(n[31], 127), 64) else n[i];
    }
  }

  // It is a multiple of 8 between 2^254 and 2^255.
  lemma ClampedRange(n: seq<int>)
    requires |n| == 32 && IsBytes(n)
    ensures var k := LEValue(ClampedBytes(n));
      k % 8 == 0 && Pow2(8 * |n| - 2) <= k < Pow2(8 * |n| - 1)
  {
    hide LEValue, Bit, Pow2;
    var c, top := LEValue(ClampedBytes(n)), 8 * |n| - 1;
    ClampedIsBytes(n);
    LEValueBound(ClampedBytes(n));
    Pow256IsPow2(|n|);
    ClampedBit(n, 0);
    ClampedBit(n, 1);
    ClampedBit(n, 2);
    ClampedBit(n, top);
    ClampedBit(n, top - 1);
    LowThree(c);
    TopTwo(c, top - 1);
  }

  lemma LowThree(k: nat)
    requires Bit(k, 0) == 0 && Bit(k, 1) == 0 && Bit(k, 2) == 0
    ensures k % 8 == 0
  {
    hide *;
    LowestBit(k);
    HigherBit(k, 0);
    LowestBit(k / 2);
    HigherBit(k, 1);
    HigherBit(k / 2, 0);
    LowestBit(k / 2 / 2);
    Eighths(k, k / 2, k / 2 / 2);
  }

  lemma Eighths(k: int, h: int, q: int)
    requires h == k / 2 && q == h / 2 && k % 2 == 0 && h % 2 == 0 && q % 2 == 0
    ensures k % 8 == 0
  {
  }

  lemma TopTwo(k: nat, t: nat)
    requires k < Pow2(t + 2) && Bit(k, t) == 1 && Bit(k, t + 1) == 0
    ensures Pow2(t) <= k < Pow2(t + 1)
  {
    hide Pow2;
    Pow2Add(t, 1);
    Pow2Add(t, 2);
    SmallPowers(1);
    SmallPowers(2);
    Fourths(k, Pow2(t));
  }

  lemma Fourths(k: nat, p: int)
    requires p > 0 && k < p * 4 && k / p % 2 == 1 && k / (p * 2) % 2 == 0
    ensures p <= k < p * 2
  {
    var q := if k < p then 0 else if k < 2 * p then 1 else if k < 3 * p then 2 else 3;
    ModUnique(k, p, q, k - q * p);
    if k >= p * 2 {
      ModUnique(k, p * 2, 1, k - p * 2);
    }
  }
}
