/** The one-shot variants of XXH3 equal the integer formulas of module Xxh3Published. */
module Xxh3IsPublished {
  import opened Words
  import opened Memory
  import opened Multiply128
  import opened Xxh3Secret
  import opened Xxh3Long
  import opened Xxh3Short
  import opened Xxh3
  import Canonical
  import Xxh3Injective
  import Xxh3Kernels
  import Xxh64
  import Xxh64Bijective
  import P64 = Xxh64Published
  import P = Xxh3Published

  // ---------- words and mixing steps ----------

  lemma WordIs(s: seq<u8>, i: nat)
    requires i + 8 <= |s|
    ensures P.W(s, i) == Word64(s, i)
  {
    P64.NumberIsLE(s, i, 8);
  }

  lemma Word4Is(s: seq<u8>, i: nat)
    requires i + 4 <= |s|
    ensures P.W4(s, i) == Word32(s, i)
  {
    P64.NumberIsLE(s, i, 4);
  }

  lemma FoldIs(x: u64, y: u64)
    ensures P.Fold(x, y) == Mul128Fold64(x, y)
  {
    hide Mul128Fold64, Bxor;
    FoldIsHalves(x, y);
  }

  lemma MixedIs(h: u64)
    ensures P.Mixed(h) == Avalanche3(h)
  {
    hide Bxor, P64.Down, Xorshift64;
    P64.ShiftedIs(h, 37);
    P64.ShiftedIs(Mul64(Xorshift64(h, 37), 0x165667919E3779F9), 32);
  }

  lemma {:induction false} BEOfBytes(x: nat, n: nat)
    ensures Canonical.BE(Bytes(x, n)) == P.Swapped(x, n)
    decreases n
  {
    hide Pow2;
    if n > 0 {
      BEOfBytes(x / 256, n - 1);
      assert Bytes(x, n)[1..] == Bytes(x / 256, n - 1);
    }
  }

  lemma SwappedIs(x: u64)
    ensures P.Swapped(x, 8) == Swap64(x)
  {
    hide Bytes, LE, Reverse, P.Swapped;
    BEOfBytes(x, 8);
    Canonical.BEIsReversed(Bytes(x, 8));
  }

  lemma Swapped32Is(x: u32)
    ensures P.Swapped(x, 4) == Swap32(x)
  {
    hide Bytes, LE, Reverse, P.Swapped;
    BEOfBytes(x, 4);
    Canonical.BEIsReversed(Bytes(x, 4));
  }

  lemma SumOfFour(a: u64, b: u64, c: u64, d: u64)
    ensures Add64(Add64(Add64(a, b), c), d) == (a + b + c + d) % M64
  {
    ModPlus(a + b, c);
    ModPlus(a + b + c, d);
  }

  // ---------- 0 to 16 bytes ----------

  lemma Of0Is(secret: Secret, seed: u64)
    ensures P.Of0(secret, seed) == Len0To16([], secret, seed)
  {
    hide P.W, Word64, Bxor, P64.FinalMix, Xxh64.Avalanche;
    WordIs(secret, 56);
    WordIs(secret, 64);
    P64.FinalMixIs(Xor64(seed, Xor64(Word64(secret, 56), Word64(secret, 64))));
  }

  lemma Of1To3Is(input: seq<u8>, secret: Secret, seed: u64)
    requires 1 <= |input| <= 3
    ensures P.Of1To3(input, secret, seed) == Len1To3(input, secret, seed)
  {
    hide P.W4, Word32, Bxor, P64.FinalMix, Xxh64.Avalanche, Combined;
    Word4Is(secret, 0);
    Word4Is(secret, 4);
    Xxh3Injective.CombinedValue(input, input[0], input[|input| / 2], input[|input| - 1]);
    var flip := Add64(Xor32(Word32(secret, 0), Word32(secret, 4)), seed);
    P64.FinalMixIs(Xor64(Combined(input), flip));
  }

  lemma KeyedIs(input: seq<u8>, secret: Secret, seed: u64)
    requires 4 <= |input| <= 8
    ensures var modified := Bxor(seed, P.Swapped(seed % 0x1_0000_0000, 4) * 0x1_0000_0000);
            modified == Xor64(seed, Swap32(seed % M32) * M32)
    ensures P64.Plus(P.W4(input, |input| - 4), P.W4(input, 0) * 0x1_0000_0000) == Input64(input)
  {
    hide P.W4, Word32, Bxor, Swap32, P.Swapped;
    Swapped32Is(seed % M32);
    Word4Is(input, |input| - 4);
    Word4Is(input, 0);
  }

  lemma RrmxmxIs(x: u64, n: nat)
    requires n <= 8
    ensures var a := P64.Times(Bxor(x, Bxor(P64.Turn(x, 49), P64.Turn(x, 24))), P.MX2);
            var b := P64.Times(Bxor(a, P64.Plus(P64.Down(a, 35), n)), P.MX2);
            Bxor(b, P64.Down(b, 28)) == Rrmxmx(x, n)
  {
    hide Bxor, P64.Turn, Rotl64, P64.Down, Shr;
    P64.TurnIsRotl(x, 49);
    P64.TurnIsRotl(x, 24);
    var a := Mul64(Xor64(x, Xor64(Rotl64(x, 49), Rotl64(x, 24))), P.MX2);
    DownIs(a, 35);
    var b := Mul64(Xor64(a, Add64(Shr64(a, 35), n)), P.MX2);
    DownIs(b, 28);
  }

  lemma DownIs(x: u64, k: nat)
    ensures P64.Down(x, k) == Shr64(x, k)
  {
    hide Shr, Pow2;
    ShrIsDiv(x, k);
  }

  lemma Of4To8Is(input: seq<u8>, secret: Secret, seed: u64)
    requires 4 <= |input| <= 8
    ensures P.Of4To8(input, secret, seed) == Len4To8(input, secret, seed)
  {
    hide P.W, P.W4, Word64, Word32, Bxor, Swap32, P.Swapped, Rrmxmx, P64.Turn, P64.Down, P64.Times, P64.Plus, Input64;
    KeyedIs(input, secret, seed);
    WordIs(secret, 8);
    WordIs(secret, 16);
    var modified := Xor64(seed, Swap32(seed % M32) * M32);
    var flip := Sub64(Xor64(Word64(secret, 8), Word64(secret, 16)), modified);
    RrmxmxIs(Xor64(Input64(input), flip), |input|);
  }

  /** 9 to 16 bytes: the length, the first word in the other byte order, the last word and the fold of both. */
  lemma Of9To16Is(input: seq<u8>, secret: Secret, seed: u64)
    requires 9 <= |input| <= 16
    ensures P.Of9To16(input, secret, seed) == Len9To16(input, secret, seed)
  {
    hide P.W, Word64, Bxor, Swap64, P.Swapped, P.Fold, Mul128Fold64, P.Mixed, Avalanche3, Add64;
    LowAndHigh(input, secret, seed);
    var low := Xor64(Word64(input, 0), Add64(Xor64(Word64(secret, 24), Word64(secret, 32)), seed));
    var high := Xor64(Word64(input, |input| - 8), Sub64(Xor64(Word64(secret, 40), Word64(secret, 48)), seed));
    SwappedIs(low);
    FoldIs(low, high);
    SumOfFour(|input|, Swap64(low), high, Mul128Fold64(low, high));
    MixedIs(Add64(Add64(Add64(|input|, Swap64(low)), high), Mul128Fold64(low, high)));
  }

  lemma LowAndHigh(input: seq<u8>, secret: Secret, seed: u64)
    requires 9 <= |input| <= 16
    ensures P.LowOf(input, secret, seed) ==
            Xor64(Word64(input, 0), Add64(Xor64(Word64(secret, 24), Word64(secret, 32)), seed))
    ensures P.HighOf(input, secret, seed) ==
            Xor64(Word64(input, |input| - 8), Sub64(Xor64(Word64(secret, 40), Word64(secret, 48)), seed))
  {
    hide P.W, Word64, Bxor;
    WordIs(secret, 24);
    WordIs(secret, 32);
    WordIs(secret, 40);
    WordIs(secret, 48);
    WordIs(input, 0);
    WordIs(input, |input| - 8);
  }

  // ---------- 17 to 240 bytes ----------

  lemma MixIs(input: seq<u8>, i: nat, secret: Secret, j: nat, seed: u64)
    requires i + 16 <= |input| && j + 16 <= |secret|
    ensures P.Mix(input, i, secret, j, seed) == Mix16(input, i, secret, j, seed)
  {
    hide P.W, Word64, Bxor, P.Fold, Mul128Fold64;
    WordIs(input, i);
    WordIs(input, i + 8);
    WordIs(secret, j);
    WordIs(secret, j + 8);
    FoldIs(Xor64(Word64(input, i), Add64(Word64(secret, j), seed)),
           Xor64(Word64(input, i + 8), Sub64(Word64(secret, j + 8), seed)));
  }

  /** Pair r of the outer rounds does the two mixes at 16 * (r - 1) from both ends. */
  lemma PairIs(acc: u64, input: seq<u8>, secret: Secret, seed: u64, r: nat)
    requires 1 <= r <= 4 && 16 * r <= |input|
    ensures P.Pairs(acc, input, secret, seed, r) ==
            P.Pairs(Add64(Add64(acc, Mix16(input, 16 * (r - 1), secret, 32 * (r - 1), seed)),
                          Mix16(input, |input| - 16 * r, secret, 32 * (r - 1) + 16, seed)),
                    input, secret, seed, r - 1)
  {
    hide P.Mix, Mix16;
    MixIs(input, 16 * (r - 1), secret, 32 * (r - 1), seed);
    MixIs(input, |input| - 16 * r, secret, 32 * (r - 1) + 16, seed);
  }

  lemma Of17To128Is(input: seq<u8>, secret: Secret, seed: u64)
    requires 16 < |input| <= 128
    ensures P.Of17To128(input, secret, seed) == Len17To128(input, secret, seed)
  {
    hide P.Pairs, Mix16, Add64, P.Mixed, Avalanche3;
    var len := |input|;
    var acc0 := Mul64(len, Xxh64.PRIME64_1);
    var acc1, acc2, acc3 := acc0, acc0, acc0;
    if len > 96 {
      PairIs(acc0, input, secret, seed, 4);
      acc1 := Add64(Add64(acc0, Mix16(input, 48, secret, 96, seed)), Mix16(input, len - 64, secret, 112, seed));
    }
    acc2 := acc1;
    if len > 64 {
      PairIs(acc1, input, secret, seed, 3);
      acc2 := Add64(Add64(acc1, Mix16(input, 32, secret, 64, seed)), Mix16(input, len - 48, secret, 80, seed));
    }
    acc3 := acc2;
    if len > 32 {
      PairIs(acc2, input, secret, seed, 2);
      acc3 := Add64(Add64(acc2, Mix16(input, 16, secret, 32, seed)), Mix16(input, len - 32, secret, 48, seed));
    }
    PairIs(acc3, input, secret, seed, 1);
    var acc4 := Add64(Add64(acc3, Mix16(input, 0, secret, 0, seed)), Mix16(input, len - 16, secret, 16, seed));
    NoPairs(acc4, input, secret, seed);
    MixedIs(acc4);
  }

  lemma NoPairs(acc: u64, input: seq<u8>, secret: Secret, seed: u64)
    ensures P.Pairs(acc, input, secret, seed, 0) == acc
  {
  }

  lemma PlusIs(a: u64, b: u64)
    ensures P64.Plus(a, b) == Add64(a, b)
  {
  }

  lemma {:induction false} FirstChunksAre(acc: u64, input: seq<u8>, secret: Secret, seed: u64, n: nat)
    requires 128 < |input| && n <= 8
    ensures P.FirstChunks(acc, input, secret, seed, n) == MixAll(acc, input, secret, seed, FirstReads(n))
  {
    hide P.Mix, Mix16, FirstReads, MixAll;
    if n == 0 {
      StartSchedules(acc, input, secret, seed);
    } else {
      FirstChunksAre(acc, input, secret, seed, n - 1);
      FirstStep(acc, input, secret, seed, n - 1);
      MixIs(input, 16 * (n - 1), secret, 16 * (n - 1), seed);
    }
  }

  lemma {:induction false} LaterChunksAre(acc: u64, input: seq<u8>, secret: Secret, seed: u64, n: nat)
    requires 128 < |input| <= 240 && 8 <= n <= |input| / 16
    ensures P.LaterChunks(acc, input, secret, seed, n) == MixAll(acc, input, secret, seed, LaterReads(n))
  {
    hide P.Mix, Mix16, LaterReads, MixAll, Add64, P64.Plus;
    if n == 8 {
      StartSchedules(acc, input, secret, seed);
    } else {
      var m := n - 1;
      LaterChunksAre(acc, input, secret, seed, m);
      LaterStep(acc, input, secret, seed, m);
      assert 16 * (n - 9) + 3 == 16 * (m - 8) + MIDSIZE_STARTOFFSET;
      MixIs(input, 16 * m, secret, 16 * (m - 8) + MIDSIZE_STARTOFFSET, seed);
      PlusIs(MixAll(acc, input, secret, seed, LaterReads(m)),
             Mix16(input, 16 * m, secret, 16 * (m - 8) + MIDSIZE_STARTOFFSET, seed));
    }
  }

  lemma Of129To240Is(input: seq<u8>, secret: Secret, seed: u64)
    requires 128 < |input| <= 240
    ensures P.Of129To240(input, secret, seed) == Len129To240(input, secret, seed)
  {
    hide P.Mix, Mix16, FirstReads, LaterReads, MixAll, P.Mixed, Avalanche3, P.FirstChunks, P.LaterChunks;
    var start := Mul64(|input|, Xxh64.PRIME64_1);
    FirstChunksAre(start, input, secret, seed, 8);
    MixedIs(MixAll(start, input, secret, seed, FirstReads(8)));
    var middle := Avalanche3(MixAll(start, input, secret, seed, FirstReads(8)));
    LaterChunksAre(middle, input, secret, seed, |input| / 16);
    LastStep(middle, input, secret, seed);
    MixIs(input, |input| - 16, secret, 119, seed);
    MixedIs(MixAll(middle, input, secret, seed, LaterReads(|input| / 16) + [LastRead(|input|)]));
  }

  /** Up to 240 bytes, for all inputs, secrets and seeds. */
  lemma ShortIsPublished(input: seq<u8>, secret: Secret, seed: u64)
    requires |input| <= 240
    ensures HashShort(input, secret, seed) == P.OfShort(input, secret, seed)
  {
    hide P.Of0, P.Of1To3, P.Of4To8, P.Of9To16, P.Of17To128, P.Of129To240;
    hide Len1To3, Len4To8, Len9To16, Len17To128, Len129To240, Xxh64.Avalanche, Word64;
    var n := |input|;
    if n == 0 {
      assert input == [];
      Of0Is(secret, seed);
    } else if n <= 3 {
      Of1To3Is(input, secret, seed);
    } else if n <= 8 {
      Of4To8Is(input, secret, seed);
    } else if n <= 16 {
      Of9To16Is(input, secret, seed);
    } else if n <= 128 {
      Of17To128Is(input, secret, seed);
    } else {
      Of129To240Is(input, secret, seed);
    }
  }

  // ---------- more than 240 bytes ----------

  /** A word of a stripe is a word of the data. */
  lemma LaneAt(s: seq<u8>, p: nat, i: nat)
    requires p + 64 <= |s| && i < 8
    ensures Xxh3Kernels.Lane(At(s, p), i) == P.W(s, p + 8 * i)
  {
    hide Read64;
    SubSlice(s, p, p + 64, 8 * i, 8 * i + 8);
    WordIs(s, p + 8 * i);
  }

  lemma LaneTakesIs(a: u64, data: seq<u8>, p: nat, secret: seq<u8>, q: nat, i: nat)
    requires i < 8 && p + 64 <= |data| && q + 64 <= |secret|
    ensures P.LaneTakes(a, data, p, secret, q, i) ==
            Add64(Add64(a, Xxh3Kernels.Lane(At(data, p), Xxh3Kernels.Partner(i))),
                  Xxh3Kernels.Product(At(data, p), At(secret, q), i))
  {
    hide P.W, Xxh3Kernels.Lane, Bxor, Low32, High32, At;
    assert P.Other(i) == Xxh3Kernels.Partner(i);
    LaneAt(data, p, i);
    LaneAt(data, p, P.Other(i));
    LaneAt(secret, q, i);
  }

  lemma TakesIs(acc: Acc, data: seq<u8>, p: nat, secret: seq<u8>, q: nat)
    requires p + 64 <= |data| && q + 64 <= |secret|
    ensures P.Takes(acc, data, p, secret, q) == Xxh3Kernels.Scalar.accumulate(acc, At(data, p), At(secret, q))
  {
    hide P.LaneTakes, Xxh3Kernels.Lane, Xxh3Kernels.Product, Add64, At;
    forall i | 0 <= i < 8
      ensures P.Takes(acc, data, p, secret, q)[i] ==
              Xxh3Kernels.Accumulate512(acc, At(data, p), At(secret, q))[i]
    {
      LaneTakesIs(acc[i], data, p, secret, q, i);
    }
  }

  lemma LaneScramblesIs(a: u64, secret: seq<u8>, q: nat, i: nat)
    requires i < 8 && q + 64 <= |secret|
    ensures P.LaneScrambles(a, P.W(secret, q + 8 * i)) ==
            Xxh3Kernels.ScrambleLane(a, Xxh3Kernels.Lane(At(secret, q), i))
  {
    hide P.W, Xxh3Kernels.Lane, Bxor, At, P64.Down, Xorshift64;
    LaneAt(secret, q, i);
    P64.ShiftedIs(a, 47);
  }

  lemma ScramblesIs(acc: Acc, secret: seq<u8>, q: nat)
    requires q + 64 <= |secret|
    ensures P.Scrambles(acc, secret, q) == Xxh3Kernels.Scalar.scramble(acc, At(secret, q))
  {
    hide P.LaneScrambles, Xxh3Kernels.Lane, Xxh3Kernels.ScrambleLane, At;
    forall i | 0 <= i < 8
      ensures P.Scrambles(acc, secret, q)[i] == Xxh3Kernels.ScrambleAcc(acc, At(secret, q))[i]
    {
      LaneScramblesIs(acc[i], secret, q, i);
    }
  }

  lemma StartIs()
    ensures P.START == INIT_ACC
  {
  }

  /** The stripe machine with the scalar kernel: secret position and scramble by the count modulo the block. */
  lemma {:induction false} AfterIs(data: seq<u8>, secret: Secret, n: nat)
    requires 64 * n <= |data|
    ensures P.After(data, secret, n) == Absorb(Xxh3Kernels.Scalar, secret, data, n).acc
  {
    hide P.Takes, P.Scrambles, Xxh3Kernels.Scalar, At, INIT_ACC, P.START;
    if n == 0 {
      StartIs();
    } else {
      var k, m, d := Xxh3Kernels.Scalar, n - 1, StripesPerBlock(secret);
      AfterIs(data, secret, m);
      PositionIsRemainder(k, secret, data, m);
      NextRemainder(m, d);
      var st := Absorb(k, secret, data, m);
      TakesIs(st.acc, data, 64 * m, secret, 8 * st.pos);
      ScramblesIs(k.accumulate(st.acc, At(data, 64 * m), At(secret, 8 * st.pos)), secret, |secret| - 64);
    }
  }

  lemma PairOfLanes(a: u64, b: u64, secret: seq<u8>, q: nat, i: nat)
    requires q + 64 <= |secret| && i < 4
    ensures Mix2Accs(a, b, secret[q..][16 * i..16 * i + 16]) ==
            P.Fold(Bxor(a, P.W(secret, q + 16 * i)), Bxor(b, P.W(secret, q + 16 * i + 8)))
  {
    hide Read64, Bxor, Mul128Fold64, P.Fold, P.W;
    var s := secret[q..][16 * i..16 * i + 16];
    assert s == secret[q + 16 * i..q + 16 * i + 16];
    SubSlice(secret, q + 16 * i, q + 16 * i + 16, 0, 8);
    SubSlice(secret, q + 16 * i, q + 16 * i + 16, 8, 16);
    WordIs(secret, q + 16 * i);
    WordIs(secret, q + 16 * i + 8);
    FoldIs(Xor64(a, Word64(secret, q + 16 * i)), Xor64(b, Word64(secret, q + 16 * i + 8)));
  }

  /** The merge adds all four pairs, each lane xored with its own word of the secret. */
  lemma MergeIs(acc: Acc, secret: seq<u8>, q: nat, start: u64)
    requires q + 64 <= |secret|
    ensures MergeAccs(acc, secret[q..], start) == P.Merged(acc, secret, q, start)
  {
    hide Mix2Accs, P.Fold, Bxor, P.W, MergeSum, P.Mixed, Avalanche3, Add64;
    var s := secret[q..];
    MergeNone(acc, s, start);
    forall i: nat | i < 4
      ensures MergeSum(acc, s, start, i + 1) ==
              Add64(MergeSum(acc, s, start, i), Mix2Accs(acc[2 * i], acc[2 * i + 1], s[16 * i..16 * i + 16]))
    {
      MergeNext(acc, s, start, i);
    }
    PairOfLanes(acc[0], acc[1], secret, q, 0);
    PairOfLanes(acc[2], acc[3], secret, q, 1);
    PairOfLanes(acc[4], acc[5], secret, q, 2);
    PairOfLanes(acc[6], acc[7], secret, q, 3);
    var t0, t1 := Mix2Accs(acc[0], acc[1], s[0..16]), Mix2Accs(acc[2], acc[3], s[16..32]);
    var t2, t3 := Mix2Accs(acc[4], acc[5], s[32..48]), Mix2Accs(acc[6], acc[7], s[48..64]);
    SumOfFive(start, t0, t1, t2, t3);
    MixedIs(MergeSum(acc, s, start, 4));
  }

  lemma SumOfFive(a: u64, b: u64, c: u64, d: u64, e: u64)
    ensures Add64(Add64(Add64(Add64(a, b), c), d), e) == (a + b + c + d + e) % M64
  {
    SumOfFour(a, b, c, d);
    ModPlus(a + b + c + d, e);
  }

  /** More than 240 bytes with the scalar kernel, for all inputs and secrets. */
  lemma LongIsPublished(data: seq<u8>, secret: Secret)
    requires |data| > 240
    ensures HashLong(Xxh3Kernels.Scalar, secret, data) == P.OfLong(data, secret)
  {
    hide P.Takes, P.After, Xxh3Kernels.Scalar, Absorb, At, MergeAccs, P.Merged;
    var n, k := (|data| - 1) / 64, Xxh3Kernels.Scalar;
    AfterIs(data, secret, n);
    TakesIs(Absorb(k, secret, data, n).acc, data, |data| - 64, secret, |secret| - 71);
    MergeIs(LongAcc(k, secret, data), secret, 11, Mul64(Wrap64(|data|), Xxh64.PRIME64_1));
  }

  // ---------- the derived secret ----------

  lemma {:induction false} PairInPrefix(n: nat, seed: u64, i: nat)
    requires i < n <= 12
    ensures SeededPrefix(n, seed)[16 * i..16 * i + 16] == SeededPair(i, seed)
  {
    hide SeededPair;
    if i < n - 1 {
      PairInPrefix(n - 1, seed, i);
      assert SeededPrefix(n, seed)[16 * i..16 * i + 16] == SeededPrefix(n - 1, seed)[16 * i..16 * i + 16];
    }
  }

  lemma DerivedWords(seed: u64, i: nat)
    requires i < 12
    ensures Word64(Derive(seed), 16 * i) == Add64(Word64(K_SECRET, 16 * i), seed)
    ensures Word64(Derive(seed), 16 * i + 8) == Sub64(Word64(K_SECRET, 16 * i + 8), seed)
  {
    hide SeededPrefix, K_SECRET, Read64, Write64, Add64, Sub64;
    var s := Derive(seed);
    PairInPrefix(12, seed, i);
    SubSlice(s, 16 * i, 16 * i + 16, 0, 8);
    SubSlice(s, 16 * i, 16 * i + 16, 8, 16);
    var a, b := Add64(Word64(K_SECRET, 16 * i), seed), Sub64(Word64(K_SECRET, 16 * i + 8), seed);
    assert SeededPair(i, seed)[..8] == Write64(a) && SeededPair(i, seed)[8..] == Write64(b);
  }

  /** The seed is added to the first word of each 16 bytes of the default secret and taken from the second. */
  lemma DeriveIsPublished(seed: u64)
    ensures P.IsDerived(Derive(seed), K_SECRET, seed)
  {
    hide Derive, K_SECRET, P.W, Word64;
    forall i | 0 <= i < 12
      ensures P.W(Derive(seed), 16 * i) == P64.Plus(P.W(K_SECRET, 16 * i), seed)
      ensures P.W(Derive(seed), 16 * i + 8) == P.Minus(P.W(K_SECRET, 16 * i + 8), seed)
    {
      DerivedWords(seed, i);
      WordIs(Derive(seed), 16 * i);
      WordIs(Derive(seed), 16 * i + 8);
      WordIs(K_SECRET, 16 * i);
      WordIs(K_SECRET, 16 * i + 8);
    }
  }

  lemma SameWord(s: seq<u8>, t: seq<u8>, i: nat)
    requires i + 8 <= |s| && i + 8 <= |t| && P.W(s, i) == P.W(t, i)
    ensures s[i..i + 8] == t[i..i + 8]
  {
    hide LE;
    WordIs(s, i);
    WordIs(t, i);
    Xxh64Bijective.ReadInjective(s[i..i + 8], t[i..i + 8]);
  }

  /** Nothing but the derived secret has these words. */
  lemma OnlyDerive(secret: seq<u8>, seed: u64)
    requires P.IsDerived(secret, K_SECRET, seed)
    ensures secret == Derive(seed)
  {
    hide K_SECRET, P.W, P64.Plus, P.Minus;
    DeriveIsPublished(seed);
    var d := Derive(seed);
    hide Derive;
    forall b | 0 <= b < 192
      ensures secret[b] == d[b]
    {
      var i, w := b / 16, b / 8 * 8;
      assert w == 16 * i || w == 16 * i + 8;
      SameWord(secret, d, w);
      assert secret[w..w + 8][b - w] == d[w..w + 8][b - w];
    }
  }

  // ---------- the four variants ----------

  /** The secret of a mode up to 240 bytes, and its seed. */
  function ShortSecret(mode: Mode): Secret
  {
    if mode.WithSecret? then mode.secret else K_SECRET
  }

  function SeedOf(mode: Mode): u64
  {
    match mode
    case WithSeed(seed) => seed
    case WithSecretAndSeed(_, seed) => seed
    case _ => 0
  }

  /** The secret of a mode beyond 240 bytes. */
  ghost predicate IsLongSecret(mode: Mode, secret: seq<u8>)
  {
    match mode
    case Default => secret == K_SECRET
    case WithSecret(s) => secret == s
    case WithSeed(seed) => P.IsDerived(secret, K_SECRET, seed)
    case WithSecretAndSeed(s, _) => secret == s
  }

  lemma LongSecretIs(mode: Mode, secret: seq<u8>)
    requires IsLongSecret(mode, secret)
    ensures |secret| >= 136
    ensures secret == match mode
                      case Default => K_SECRET
                      case WithSecret(s) => s
                      case WithSeed(seed) => if seed == 0 then K_SECRET else Derive(seed)
                      case WithSecretAndSeed(s, _) => s
  {
    hide K_SECRET, Derive, P.W;
    if mode.WithSeed? {
      OnlyDerive(secret, mode.seed);
      DeriveZero();
    }
  }

  /** In all four modes, for every input, secret and seed, the hash with the scalar kernel is the integer formula. */
  lemma OneShotIsPublished(mode: Mode, data: seq<u8>, secret: seq<u8>)
    requires IsLongSecret(mode, secret)
    ensures |secret| >= 136
    ensures OneShot(Xxh3Kernels.Scalar, mode, data) ==
            if |data| <= 240 then P.OfShort(data, ShortSecret(mode), SeedOf(mode)) else P.OfLong(data, secret)
  {
    hide K_SECRET, Derive, HashShort, HashLong, P.OfShort, P.OfLong, Xxh3Kernels.Scalar, P.IsDerived;
    LongSecretIs(mode, secret);
    if |data| <= 240 {
      ShortIsPublished(data, ShortSecret(mode), SeedOf(mode));
    } else {
      LongIsPublished(data, secret);
    }
  }
}
