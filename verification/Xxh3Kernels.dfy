/**
 The stripe kernels of XXH3: the universal scalar code, and the SSE2 and AVX2
 code as compositions of vector instructions. All three compute the same
 accumulators, so all hashes built from them are the same.
 */
module Xxh3Kernels {
  import opened Words
  import opened Multiply128
  import opened Xxh3Secret
  import opened Xxh3Long
  import opened Xxh3
  import Xxh32

  /** The 64-bit word that belongs to lane i. */
  function Lane(s: seq<u8>, i: nat): u64
    requires 8 * i + 8 <= |s|
  {
    Word64(s, 8 * i)
  }

  /** i ^ 1 */
  function Partner(i: nat): (j: nat)
    ensures i < 8 ==> j < 8
  {
    if i % 2 == 0 then i + 1 else i - 1
  }

  // ---------- what one stripe does to the accumulators, lane by lane ----------

  function Product(input: Stripe64, secret: Stripe64, i: nat): u64
    requires i < 8
  {
    var dataKey := Xor64(Lane(input, i), Lane(secret, i));
    Mult32to64(Low32(dataKey), High32(dataKey))
  }

  function Accumulate512(acc: Acc, input: Stripe64, secret: Stripe64): Acc
  {
    seq(8, i requires 0 <= i < 8 => Add64(Add64(acc[i], Lane(input, Partner(i))), Product(input, secret, i)))
  }

  function ScrambleLane(a: u64, key: u64): u64
  {
    Mul64(Xor64(Xorshift64(a, 47), key), Xxh32.PRIME32_1)
  }

  function ScrambleAcc(acc: Acc, secret: Stripe64): Acc
  {
    seq(8, i requires 0 <= i < 8 => ScrambleLane(acc[i], Lane(secret, i)))
  }

  const Scalar: Kernel := Kernel(Accumulate512, ScrambleAcc)

  // ---------- scalar code ----------

  lemma AddSwaps(a: u64, b: u64, c: u64)
    ensures Add64(Add64(a, b), c) == Add64(Add64(a, c), b)
  {
  }

  /** Lane j after i iterations of the scalar loop, which adds to lanes i and i ^ 1 at once. */
  function Partial(acc: Acc, input: Stripe64, secret: Stripe64, j: nat, i: nat): u64
    requires j < 8
  {
    var a := if Partner(j) < i then Add64(acc[j], Lane(input, Partner(j))) else acc[j];
    if j < i then Add64(a, Product(input, secret, j)) else a
  }

  /** XXH3_accumulate_512_scalar: the neighbouring lanes are updated in the loop, in place. */
  method AccumulateScalar(acc: array<u64>, input: Stripe64, secret: Stripe64)
    requires acc.Length == 8
    modifies acc
    ensures acc[..] == Scalar.accumulate(old(acc[..]), input, secret)
  {
    hide Add64, Xor64, Lane, Mult32to64, Low32, High32;
    ghost var start: Acc := acc[..];
    for i := 0 to 8
      invariant forall j | 0 <= j < 8 :: acc[j] == Partial(start, input, secret, j, i)
    {
      var dataVal := Lane(input, i);
      var dataKey := Xor64(dataVal, Lane(secret, i));
      acc[Partner(i)] := Add64(acc[Partner(i)], dataVal);
      acc[i] := Add64(acc[i], Mult32to64(Low32(dataKey), High32(dataKey)));
      AddSwaps(start[Partner(i)], dataVal, Product(input, secret, Partner(i)));
    }
  }

  /** XXH3_scrambleAcc_scalar */
  method ScrambleScalar(acc: array<u64>, secret: Stripe64)
    requires acc.Length == 8
    modifies acc
    ensures acc[..] == Scalar.scramble(old(acc[..]), secret)
  {
    hide Mul64, Xor64, Lane, Xorshift64;
    ghost var start: Acc := acc[..];
    for i := 0 to 8
      invariant forall j | 0 <= j < 8 ::
          acc[j] == if j < i then ScrambleLane(start[j], Lane(secret, j)) else start[j]
    {
      var key64 := Lane(secret, i);
      var acc64 := acc[i];
      acc64 := Xorshift64(acc64, 47);
      acc64 := Xor64(acc64, key64);
      acc64 := Mul64(acc64, Xxh32.PRIME32_1);
      acc[i] := acc64;
    }
  }

  // ---------- 128-bit vector instructions ----------

  /** A 128-bit register as two 64-bit words, the lower one first. */
  datatype M128 = M128(q0: u64, q1: u64)

  /** The four 32-bit elements. */
  function Element(v: M128, i: nat): u32
    requires i < 4
  {
    match i
    case 0 => Low32(v.q0)
    case 1 => High32(v.q0)
    case 2 => Low32(v.q1)
    case 3 => High32(v.q1)
  }

  /** _mm_shuffle_epi32 with _MM_SHUFFLE(z, y, x, w) */
  function Shuffle32(v: M128, z: nat, y: nat, x: nat, w: nat): M128
    requires z < 4 && y < 4 && x < 4 && w < 4
  {
    M128(Element(v, w) + M32 * Element(v, x), Element(v, y) + M32 * Element(v, z))
  }

  function XorSi128(a: M128, b: M128): M128 { M128(Xor64(a.q0, b.q0), Xor64(a.q1, b.q1)) }
  function AddEpi64(a: M128, b: M128): M128 { M128(Add64(a.q0, b.q0), Add64(a.q1, b.q1)) }
  function SrliEpi64(a: M128, k: nat): M128 { M128(Shr64(a.q0, k), Shr64(a.q1, k)) }
  function SlliEpi64By32(a: M128): M128 { M128(Mul64(a.q0, M32), Mul64(a.q1, M32)) }

  /** _mm_mul_epu32: the products of the low halves of the 64-bit words. */
  function MulEpu32(a: M128, b: M128): M128
  {
    M128(Mult32to64(Low32(a.q0), Low32(b.q0)), Mult32to64(Low32(a.q1), Low32(b.q1)))
  }

  /** _mm_set1_epi32 */
  function Set1Epi32(x: u32): M128 { M128(x + M32 * x, x + M32 * x) }

  function Load128(s: seq<u8>, i: nat): M128
    requires 16 * i + 16 <= |s|
  {
    M128(Lane(s, 2 * i), Lane(s, 2 * i + 1))
  }

  // ---------- SSE2 ----------

  function AccumulateStep128(xacc: M128, data: M128, key: M128): M128
  {
    var dataKey := XorSi128(data, key);
    var dataKeyLo := Shuffle32(dataKey, 0, 3, 0, 1);
    var product := MulEpu32(dataKey, dataKeyLo);
    var dataSwap := Shuffle32(data, 1, 0, 3, 2);
    var sum := AddEpi64(xacc, dataSwap);
    AddEpi64(product, sum)
  }

  function ScrambleStep128(xacc: M128, key: M128): M128
  {
    var prime32 := Set1Epi32(Xxh32.PRIME32_1);
    var shifted := SrliEpi64(xacc, 47);
    var data := XorSi128(xacc, shifted);
    var dataKey := XorSi128(data, key);
    var dataKeyHi := Shuffle32(dataKey, 0, 3, 0, 1);
    var prodLo := MulEpu32(dataKey, prime32);
    var prodHi := MulEpu32(dataKeyHi, prime32);
    AddEpi64(prodLo, SlliEpi64By32(prodHi))
  }

  lemma Halves32(x: u64)
    ensures Low32(x) + M32 * High32(x) == x
  {
    hide Low32, High32;
  }

  lemma Split32(lo: u32, hi: u32)
    ensures 0 <= lo + M32 * hi < M64
    ensures Low32(lo + M32 * hi) == lo && High32(lo + M32 * hi) == hi
  {
    hide Low32, High32;
  }

  lemma AddCommutes(a: u64, b: u64)
    ensures Add64(a, b) == Add64(b, a)
  {
  }

  /** One vector step of the SSE2 accumulation does what the scalar code does to its two lanes. */
  lemma AccumulateStepIsScalar(xacc: M128, data: M128, key: M128)
    ensures var dk := XorSi128(data, key);
            AccumulateStep128(xacc, data, key) ==
            M128(Add64(Add64(xacc.q0, data.q1), Mult32to64(Low32(dk.q0), High32(dk.q0))),
                 Add64(Add64(xacc.q1, data.q0), Mult32to64(Low32(dk.q1), High32(dk.q1))))
  {
    hide Low32, High32, Xor64, Add64, Mult32to64;
    var dk := XorSi128(data, key);
    Split32(High32(dk.q0), Low32(dk.q0));
    Split32(High32(dk.q1), Low32(dk.q0));
    Halves32(data.q0);
    Halves32(data.q1);
    AddCommutes(Mult32to64(Low32(dk.q0), High32(dk.q0)), Add64(xacc.q0, data.q1));
    AddCommutes(Mult32to64(Low32(dk.q1), High32(dk.q1)), Add64(xacc.q1, data.q0));
  }

  /** `lo * p + ((hi * p) << 32)` is the 64-bit product. */
  lemma ProductFromHalves(x: u64, p: u32)
    ensures Add64(Mult32to64(Low32(x), p), Mul64(Mult32to64(High32(x), p), M32)) == Mul64(x, p)
  {
    var lo: int, hi: int := Low32(x), High32(x);
    hide Low32, High32;
    Product32Bound(Low32(x), p);
    Product32Bound(High32(x), p);
    assert x == lo + M32 * hi;
    assert (lo + M32 * hi) * p == lo * p + hi * p * M32;
    AddMod(lo * p, hi * p * M32);
  }

  lemma AddMod(a: nat, b: nat)
    ensures (a % M64 + b % M64) % M64 == (a + b) % M64
  {
  }

  lemma ScrambleStepIsScalar(xacc: M128, key: M128)
    ensures ScrambleStep128(xacc, key) == M128(ScrambleLane(xacc.q0, key.q0), ScrambleLane(xacc.q1, key.q1))
  {
    hide Low32, High32, Xor64, Shr64, Add64, Mul64, Mult32to64;
    var dk := XorSi128(XorSi128(xacc, SrliEpi64(xacc, 47)), key);
    Split32(High32(dk.q0), Low32(dk.q0));
    Split32(High32(dk.q1), Low32(dk.q0));
    Split32(Xxh32.PRIME32_1, Xxh32.PRIME32_1);
    ProductFromHalves(dk.q0, Xxh32.PRIME32_1);
    ProductFromHalves(dk.q1, Xxh32.PRIME32_1);
  }

  function Vec128(acc: Acc, i: nat): M128
    requires i < 4
  {
    M128(acc[2 * i], acc[2 * i + 1])
  }

  function Lane128(v: M128, j: nat): u64 { if j % 2 == 0 then v.q0 else v.q1 }

  function AccumulateSse2(acc: Acc, input: Stripe64, secret: Stripe64): Acc
  {
    seq(8, j requires 0 <= j < 8 =>
      Lane128(AccumulateStep128(Vec128(acc, j / 2), Load128(input, j / 2), Load128(secret, j / 2)), j))
  }

  function ScrambleSse2(acc: Acc, secret: Stripe64): Acc
  {
    seq(8, j requires 0 <= j < 8 => Lane128(ScrambleStep128(Vec128(acc, j / 2), Load128(secret, j / 2)), j))
  }

  const Sse2: Kernel := Kernel(AccumulateSse2, ScrambleSse2)

  lemma AccumulateSse2Lanes(acc: Acc, input: Stripe64, secret: Stripe64, i: nat)
    requires i < 4
    ensures var v := AccumulateStep128(Vec128(acc, i), Load128(input, i), Load128(secret, i));
            var r := AccumulateSse2(acc, input, secret); r[2 * i] == v.q0 && r[2 * i + 1] == v.q1
  {
    hide AccumulateStep128, Load128;
  }

  /** XXH3_accumulate_512_sse2: four vector steps, in place. */
  method RunAccumulateSse2(acc: array<u64>, input: Stripe64, secret: Stripe64)
    requires acc.Length == 8
    modifies acc
    ensures acc[..] == Sse2.accumulate(old(acc[..]), input, secret)
  {
    hide AccumulateStep128, Load128, AccumulateSse2;
    ghost var start: Acc := acc[..];
    ghost var full := AccumulateSse2(start, input, secret);
    for i := 0 to 4
      invariant forall j | 0 <= j < 8 :: acc[j] == if j < 2 * i then full[j] else start[j]
    {
      AccumulateSse2Lanes(start, input, secret, i);
      var v := AccumulateStep128(M128(acc[2 * i], acc[2 * i + 1]), Load128(input, i), Load128(secret, i));
      acc[2 * i], acc[2 * i + 1] := v.q0, v.q1;
    }
  }

  lemma ScrambleSse2Lanes(acc: Acc, secret: Stripe64, i: nat)
    requires i < 4
    ensures var v := ScrambleStep128(Vec128(acc, i), Load128(secret, i));
            var r := ScrambleSse2(acc, secret); r[2 * i] == v.q0 && r[2 * i + 1] == v.q1
  {
    hide ScrambleStep128, Load128;
  }

  /** XXH3_scrambleAcc_sse2 */
  method RunScrambleSse2(acc: array<u64>, secret: Stripe64)
    requires acc.Length == 8
    modifies acc
    ensures acc[..] == Sse2.scramble(old(acc[..]), secret)
  {
    hide ScrambleStep128, Load128, ScrambleSse2;
    ghost var start: Acc := acc[..];
    ghost var full := ScrambleSse2(start, secret);
    for i := 0 to 4
      invariant forall j | 0 <= j < 8 :: acc[j] == if j < 2 * i then full[j] else start[j]
    {
      ScrambleSse2Lanes(start, secret, i);
      var v := ScrambleStep128(M128(acc[2 * i], acc[2 * i + 1]), Load128(secret, i));
      acc[2 * i], acc[2 * i + 1] := v.q0, v.q1;
    }
  }

  /** The vector that XXH3_initCustomSecret_sse2 and _avx2 add to every 16 bytes of the default secret. */
  function SeedVector(seed: u64): M128 { M128(seed, Sub64(0, seed)) }

  /** One vector addition derives the 16 bytes that the scalar code derives word by word. */
  lemma SeedStepIsScalar(i: nat, seed: u64)
    requires i < 12
    ensures var v := AddEpi64(Load128(K_SECRET, i), SeedVector(seed));
            Write64(v.q0) + Write64(v.q1) == SeededPair(i, seed)
  {
    hide K_SECRET, Read64, Write64, Add64, Sub64;
    AddNegated(Lane(K_SECRET, 2 * i + 1), seed);
    assert Lane(K_SECRET, 2 * i) == Read64(K_SECRET[16 * i..16 * i + 8]);
    assert Lane(K_SECRET, 2 * i + 1) == Read64(K_SECRET[16 * i + 8..16 * i + 16]);
  }

  lemma AddNegated(x: u64, seed: u64)
    ensures Add64(x, Sub64(0, seed)) == Sub64(x, seed)
  {
  }

  /** XXH3_initCustomSecret_sse2; the AVX2 code does two of these steps at a time. */
  method InitCustomSecretSse2(customSecret: array<u8>, seed: u64)
    requires customSecret.Length == 192
    modifies customSecret
    ensures customSecret[..] == Derive(seed)
  {
    hide K_SECRET, Write64, AddEpi64, Load128, SeedVector, SeededPair;
    for i := 0 to 12
      invariant customSecret[..16 * i] == SeededPrefix(i, seed)
    {
      var v := AddEpi64(Load128(K_SECRET, i), SeedVector(seed));
      SeedStepIsScalar(i, seed);
      ghost var before := customSecret[..16 * i];
      WriteLE64(customSecret, 16 * i, v.q0);
      assert customSecret[..16 * i] == before;
      WriteLE64(customSecret, 16 * i + 8, v.q1);
      assert customSecret[..16 * i + 16] == before + (Write64(v.q0) + Write64(v.q1));
    }
  }

  // ---------- AVX2: every instruction works on the two 128-bit halves apart ----------

  datatype M256 = M256(lo: M128, hi: M128)

  function Shuffle32x2(v: M256, z: nat, y: nat, x: nat, w: nat): M256
    requires z < 4 && y < 4 && x < 4 && w < 4
  {
    M256(Shuffle32(v.lo, z, y, x, w), Shuffle32(v.hi, z, y, x, w))
  }

  function XorSi256(a: M256, b: M256): M256 { M256(XorSi128(a.lo, b.lo), XorSi128(a.hi, b.hi)) }
  function Add256(a: M256, b: M256): M256 { M256(AddEpi64(a.lo, b.lo), AddEpi64(a.hi, b.hi)) }
  function Srli256(a: M256, k: nat): M256 { M256(SrliEpi64(a.lo, k), SrliEpi64(a.hi, k)) }
  function Slli256By32(a: M256): M256 { M256(SlliEpi64By32(a.lo), SlliEpi64By32(a.hi)) }
  function Mul256(a: M256, b: M256): M256 { M256(MulEpu32(a.lo, b.lo), MulEpu32(a.hi, b.hi)) }
  function Set256(x: u32): M256 { M256(Set1Epi32(x), Set1Epi32(x)) }

  function Load256(s: seq<u8>, i: nat): M256
    requires 32 * i + 32 <= |s|
  {
    M256(Load128(s, 2 * i), Load128(s, 2 * i + 1))
  }

  function AccumulateStep256(xacc: M256, data: M256, key: M256): M256
  {
    var dataKey := XorSi256(data, key);
    var dataKeyLo := Shuffle32x2(dataKey, 0, 3, 0, 1);
    var product := Mul256(dataKey, dataKeyLo);
    var dataSwap := Shuffle32x2(data, 1, 0, 3, 2);
    var sum := Add256(xacc, dataSwap);
    Add256(product, sum)
  }

  function ScrambleStep256(xacc: M256, key: M256): M256
  {
    var prime32 := Set256(Xxh32.PRIME32_1);
    var shifted := Srli256(xacc, 47);
    var data := XorSi256(xacc, shifted);
    var dataKey := XorSi256(data, key);
    var dataKeyHi := Shuffle32x2(dataKey, 0, 3, 0, 1);
    var prodLo := Mul256(dataKey, prime32);
    var prodHi := Mul256(dataKeyHi, prime32);
    Add256(prodLo, Slli256By32(prodHi))
  }

  function Vec256(acc: Acc, i: nat): M256
    requires i < 2
  {
    M256(Vec128(acc, 2 * i), Vec128(acc, 2 * i + 1))
  }

  function Lane256(v: M256, j: nat): u64 { if j % 4 < 2 then Lane128(v.lo, j) else Lane128(v.hi, j) }

  function AccumulateAvx2(acc: Acc, input: Stripe64, secret: Stripe64): Acc
  {
    seq(8, j requires 0 <= j < 8 =>
      Lane256(AccumulateStep256(Vec256(acc, j / 4), Load256(input, j / 4), Load256(secret, j / 4)), j))
  }

  function ScrambleAvx2(acc: Acc, secret: Stripe64): Acc
  {
    seq(8, j requires 0 <= j < 8 => Lane256(ScrambleStep256(Vec256(acc, j / 4), Load256(secret, j / 4)), j))
  }

  const Avx2: Kernel := Kernel(AccumulateAvx2, ScrambleAvx2)

  lemma AccumulateAvx2Lanes(acc: Acc, input: Stripe64, secret: Stripe64, i: nat)
    requires i < 2
    ensures var v := AccumulateStep256(Vec256(acc, i), Load256(input, i), Load256(secret, i));
            var r := AccumulateAvx2(acc, input, secret);
            r[4 * i] == v.lo.q0 && r[4 * i + 1] == v.lo.q1 && r[4 * i + 2] == v.hi.q0 && r[4 * i + 3] == v.hi.q1
  {
    hide AccumulateStep256, Load256;
  }

  /** XXH3_accumulate_512_avx2: two vector steps, in place. */
  method RunAccumulateAvx2(acc: array<u64>, input: Stripe64, secret: Stripe64)
    requires acc.Length == 8
    modifies acc
    ensures acc[..] == Avx2.accumulate(old(acc[..]), input, secret)
  {
    hide AccumulateStep256, Load256, AccumulateAvx2;
    ghost var start: Acc := acc[..];
    ghost var full := AccumulateAvx2(start, input, secret);
    for i := 0 to 2
      invariant forall j | 0 <= j < 8 :: acc[j] == if j < 4 * i then full[j] else start[j]
    {
      AccumulateAvx2Lanes(start, input, secret, i);
      var vec := M256(M128(acc[4 * i], acc[4 * i + 1]), M128(acc[4 * i + 2], acc[4 * i + 3]));
      var v := AccumulateStep256(vec, Load256(input, i), Load256(secret, i));
      acc[4 * i], acc[4 * i + 1], acc[4 * i + 2], acc[4 * i + 3] := v.lo.q0, v.lo.q1, v.hi.q0, v.hi.q1;
    }
  }

  lemma ScrambleAvx2Lanes(acc: Acc, secret: Stripe64, i: nat)
    requires i < 2
    ensures var v := ScrambleStep256(Vec256(acc, i), Load256(secret, i));
            var r := ScrambleAvx2(acc, secret);
            r[4 * i] == v.lo.q0 && r[4 * i + 1] == v.lo.q1 && r[4 * i + 2] == v.hi.q0 && r[4 * i + 3] == v.hi.q1
  {
    hide ScrambleStep256, Load256;
  }

  /** XXH3_scrambleAcc_avx2 */
  method RunScrambleAvx2(acc: array<u64>, secret: Stripe64)
    requires acc.Length == 8
    modifies acc
    ensures acc[..] == Avx2.scramble(old(acc[..]), secret)
  {
    hide ScrambleStep256, Load256, ScrambleAvx2;
    ghost var start: Acc := acc[..];
    ghost var full := ScrambleAvx2(start, secret);
    for i := 0 to 2
      invariant forall j | 0 <= j < 8 :: acc[j] == if j < 4 * i then full[j] else start[j]
    {
      ScrambleAvx2Lanes(start, secret, i);
      var vec := M256(M128(acc[4 * i], acc[4 * i + 1]), M128(acc[4 * i + 2], acc[4 * i + 3]));
      var v := ScrambleStep256(vec, Load256(secret, i));
      acc[4 * i], acc[4 * i + 1], acc[4 * i + 2], acc[4 * i + 3] := v.lo.q0, v.lo.q1, v.hi.q0, v.hi.q1;
    }
  }

  // ---------- the kernels agree ----------

  lemma Sse2IsScalar(acc: Acc, input: Stripe64, secret: Stripe64)
    ensures AccumulateSse2(acc, input, secret) == Accumulate512(acc, input, secret)
    ensures ScrambleSse2(acc, secret) == ScrambleAcc(acc, secret)
  {
    hide Lane, Add64, Xor64, Mult32to64, Low32, High32, AccumulateStep128, ScrambleStep128, ScrambleLane;
    forall j | 0 <= j < 8
      ensures AccumulateSse2(acc, input, secret)[j] == Accumulate512(acc, input, secret)[j]
      ensures ScrambleSse2(acc, secret)[j] == ScrambleAcc(acc, secret)[j]
    {
      AccumulateStepIsScalar(Vec128(acc, j / 2), Load128(input, j / 2), Load128(secret, j / 2));
      ScrambleStepIsScalar(Vec128(acc, j / 2), Load128(secret, j / 2));
    }
  }

  lemma Avx2IsSse2(acc: Acc, input: Stripe64, secret: Stripe64)
    ensures AccumulateAvx2(acc, input, secret) == AccumulateSse2(acc, input, secret)
    ensures ScrambleAvx2(acc, secret) == ScrambleSse2(acc, secret)
  {
    hide Lane, Shuffle32, XorSi128, AddEpi64, SrliEpi64, SlliEpi64By32, MulEpu32, Set1Epi32;
    forall j | 0 <= j < 8
      ensures AccumulateAvx2(acc, input, secret)[j] == AccumulateSse2(acc, input, secret)[j]
      ensures ScrambleAvx2(acc, secret)[j] == ScrambleSse2(acc, secret)[j]
    {
      assert 2 * (j / 4) + (if j % 4 < 2 then 0 else 1) == j / 2;
    }
  }

  lemma VectorKernelsAgree()
    ensures Agree(Scalar, Sse2) && Agree(Scalar, Avx2)
  {
    hide Accumulate512, ScrambleAcc, AccumulateSse2, ScrambleSse2, AccumulateAvx2, ScrambleAvx2;
    forall a: Acc, i: Stripe64, s: Stripe64
      ensures Scalar.accumulate(a, i, s) == Sse2.accumulate(a, i, s) == Avx2.accumulate(a, i, s)
    {
      Sse2IsScalar(a, i, s);
      Avx2IsSse2(a, i, s);
    }
    forall a: Acc, s: Stripe64
      ensures Scalar.scramble(a, s) == Sse2.scramble(a, s) == Avx2.scramble(a, s)
    {
      Sse2IsScalar(a, s, s);
      Avx2IsSse2(a, s, s);
    }
  }

  /** The hash does not depend on the instruction set it was compiled for. */
  lemma HashIsPortable(mode: Mode, data: seq<u8>)
    ensures OneShot(Scalar, mode, data) == OneShot(Sse2, mode, data) == OneShot(Avx2, mode, data)
  {
    hide OneShot;
    VectorKernelsAgree();
    AgreeingKernels(Scalar, Sse2, mode, data);
    AgreeingKernels(Scalar, Avx2, mode, data);
  }
}
