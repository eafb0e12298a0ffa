/**
 The long-input core of XXH3. The meaning is a machine that takes one 64-byte
 stripe at a time; the code works by blocks of stripes and is proved to agree
 with it. The two kernels are parameters here, as they are in the C code.
 */
module Xxh3Long {
  import opened Words
  import Xxh32
  import opened Xxh64
  import opened Multiply128

  const STRIPE_LEN: nat := 64
  const SECRET_CONSUME_RATE: nat := 8
  const SECRET_SIZE_MIN: nat := 136
  const SECRET_LASTACC_START: nat := 7
  const SECRET_MERGEACCS_START: nat := 11

  type Acc = s: seq<u64> | |s| == 8 witness [0, 0, 0, 0, 0, 0, 0, 0]
  type Stripe64 = s: seq<u8> | |s| == 64 witness seq(64, _ => 0)
  type Secret = s: seq<u8> | |s| >= 136 witness seq(136, _ => 0)

  /** What XXH3_f_accumulate_512 and XXH3_f_scrambleAcc point to. */
  datatype Kernel = Kernel(accumulate: (Acc, Stripe64, Stripe64) -> Acc, scramble: (Acc, Stripe64) -> Acc)

  const INIT_ACC: Acc :=
    [Xxh32.PRIME32_3, PRIME64_1, PRIME64_2, PRIME64_3, PRIME64_4, Xxh32.PRIME32_2, PRIME64_5, Xxh32.PRIME32_1]

  function At(s: seq<u8>, i: nat): Stripe64
    requires i + 64 <= |s|
  {
    s[i..i + 64]
  }

  function StripesPerBlock(secret: Secret): (n: nat)
    ensures n >= 9
    ensures 8 * n + 64 <= |secret|
  {
    (|secret| - STRIPE_LEN) / SECRET_CONSUME_RATE
  }

  // ---------- one stripe at a time ----------

  /** The accumulators, and how many stripes of the current block they have taken. */
  datatype Progress = Progress(acc: Acc, pos: nat)

  function Step(k: Kernel, secret: Secret, st: Progress, stripe: Stripe64): (r: Progress)
    requires st.pos < StripesPerBlock(secret)
    ensures r.pos < StripesPerBlock(secret)
  {
    var a := k.accumulate(st.acc, stripe, At(secret, 8 * st.pos));
    if st.pos + 1 == StripesPerBlock(secret)
    then Progress(k.scramble(a, At(secret, |secret| - 64)), 0)
    else Progress(a, st.pos + 1)
  }

  /** The first n stripes of the data. */
  function Absorb(k: Kernel, secret: Secret, data: seq<u8>, n: nat): (r: Progress)
    requires 64 * n <= |data|
    ensures r.pos < StripesPerBlock(secret)
  {
    if n == 0 then Progress(INIT_ACC, 0)
    else Step(k, secret, Absorb(k, secret, data, n - 1), At(data, 64 * (n - 1)))
  }

  /** All whole stripes that leave at least one byte, then the last 64 bytes. */
  function LongAcc(k: Kernel, secret: Secret, data: seq<u8>): Acc
    requires |data| > 64
  {
    k.accumulate(Absorb(k, secret, data, (|data| - 1) / 64).acc,
                 At(data, |data| - 64), At(secret, |secret| - 64 - SECRET_LASTACC_START))
  }

  function Avalanche3(h: u64): u64
  {
    Xorshift64(Mul64(Xorshift64(h, 37), 0x165667919E3779F9), 32)
  }

  function Mix2Accs(a: u64, b: u64, secret: seq<u8>): u64
    requires |secret| == 16
  {
    Mul128Fold64(Xor64(a, Read64(secret[..8])), Xor64(b, Read64(secret[8..])))
  }

  function MergeSum(acc: Acc, secret: seq<u8>, start: u64, n: nat): u64
    requires |secret| >= 64 && n <= 4
  {
    if n == 0 then start
    else Add64(MergeSum(acc, secret, start, n - 1),
               Mix2Accs(acc[2 * n - 2], acc[2 * n - 1], secret[16 * n - 16..16 * n]))
  }

  function MergeAccs(acc: Acc, secret: seq<u8>, start: u64): u64
    requires |secret| >= 64
  {
    Avalanche3(MergeSum(acc, secret, start, 4))
  }

  /** XXH3_hashLong_64b_internal */
  function HashLong(k: Kernel, secret: Secret, data: seq<u8>): u64
    requires |data| > 64
  {
    MergeAccs(LongAcc(k, secret, data), secret[SECRET_MERGEACCS_START..], Mul64(Wrap64(|data|), PRIME64_1))
  }

  // ---------- runs of stripes ----------

  /** n stripes with consecutive secret positions and no scramble: XXH3_accumulate. */
  function Run(k: Kernel, a: Acc, input: seq<u8>, secret: seq<u8>, n: nat): Acc
    requires 64 * n <= |input|
    requires n > 0 ==> 8 * (n - 1) + 64 <= |secret|
  {
    if n == 0 then a
    else k.accumulate(Run(k, a, input, secret, n - 1), At(input, 64 * (n - 1)), At(secret, 8 * (n - 1)))
  }

  /** Stripe m of the input is stripe n + m of the data, and its secret is eight bytes further for each stripe. */
  lemma SameOffsets(data: seq<u8>, n: nat, input: seq<u8>, secret: seq<u8>, pos: nat, m: nat)
    requires 64 * n <= |data| && 64 * m + 64 <= |input| && input <= data[64 * n..]
    requires 8 * (pos + m) + 64 <= |secret|
    ensures At(input, 64 * m) == At(data, 64 * (n + m))
    ensures At(secret[8 * pos..], 8 * m) == At(secret, 8 * (pos + m))
  {
    assert data[64 * n..][64 * m..64 * m + 64] == At(data, 64 * (n + m));
    assert input[64 * m..64 * m + 64] == data[64 * n..][64 * m..64 * m + 64];
  }

  lemma RunNothing(k: Kernel, a: Acc, input: seq<u8>, secret: seq<u8>)
    ensures Run(k, a, input, secret, 0) == a
  {
  }

  /** One more stripe of a run is one more step of the machine, with the scramble if the block ends there. */
  lemma StepAlongRun(k: Kernel, secret: Secret, data: seq<u8>, n: nat, input: seq<u8>, a: Acc, pos: nat, m: nat)
    requires 64 * n <= |data| && 64 * m + 64 <= |input| && input <= data[64 * n..]
    requires pos + m < StripesPerBlock(secret)
    requires Absorb(k, secret, data, n + m) == Progress(Run(k, a, input, secret[8 * pos..], m), pos + m)
    ensures var next := Run(k, a, input, secret[8 * pos..], m + 1);
            Absorb(k, secret, data, n + (m + 1)) ==
            if pos + m + 1 < StripesPerBlock(secret) then Progress(next, pos + m + 1)
            else Progress(k.scramble(next, At(secret, |secret| - 64)), 0)
  {
    SameOffsets(data, n, input, secret, pos, m);
    hide At;
  }

  /** Within a block a run of stripes takes the machine m steps further. */
  lemma {:induction false} AbsorbWithinBlock(k: Kernel, secret: Secret, data: seq<u8>, n: nat, input: seq<u8>, m: nat)
    requires 64 * n <= |data| && 64 * m <= |input| && input <= data[64 * n..]
    requires Absorb(k, secret, data, n).pos + m < StripesPerBlock(secret)
    ensures var st := Absorb(k, secret, data, n);
            Absorb(k, secret, data, n + m) == Progress(Run(k, st.acc, input, secret[8 * st.pos..], m), st.pos + m)
  {
    hide Absorb, Run, StripesPerBlock, At;
    var st := Absorb(k, secret, data, n);
    if m == 0 {
      RunNothing(k, st.acc, input, secret[8 * st.pos..]);
    } else {
      AbsorbWithinBlock(k, secret, data, n, input, m - 1);
      StepAlongRun(k, secret, data, n, input, st.acc, st.pos, m - 1);
    }
  }

  /** A run that reaches the end of the block is followed by the scramble. */
  lemma AbsorbToBlockEnd(k: Kernel, secret: Secret, data: seq<u8>, n: nat, input: seq<u8>, m: nat)
    requires 64 * n <= |data| && 64 * m <= |input| && input <= data[64 * n..]
    requires Absorb(k, secret, data, n).pos + m == StripesPerBlock(secret)
    ensures var st := Absorb(k, secret, data, n);
            Absorb(k, secret, data, n + m) ==
            Progress(k.scramble(Run(k, st.acc, input, secret[8 * st.pos..], m), At(secret, |secret| - 64)), 0)
  {
    hide Absorb, Run, StripesPerBlock, At;
    var st, m' := Absorb(k, secret, data, n), m - 1;
    AbsorbWithinBlock(k, secret, data, n, input, m');
    StepAlongRun(k, secret, data, n, input, st.acc, st.pos, m');
    assert m' + 1 == m;
  }

  /** A run over the end of a block: to the end, the scramble, and on in the next block. */
  lemma AbsorbOverBlockEnd(k: Kernel, secret: Secret, data: seq<u8>, n: nat, input: seq<u8>, m: nat, after: nat)
    requires 64 * n <= |data| && 64 * (m + after) <= |input| && input <= data[64 * n..]
    requires Absorb(k, secret, data, n).pos + m == StripesPerBlock(secret) && after < StripesPerBlock(secret)
    ensures var st := Absorb(k, secret, data, n);
            var atEnd := k.scramble(Run(k, st.acc, input, secret[8 * st.pos..], m), At(secret, |secret| - 64));
            Absorb(k, secret, data, n + m + after) ==
            Progress(Run(k, atEnd, input[64 * m..], secret, after), after)
  {
    hide Absorb, Run, At;
    AbsorbToBlockEnd(k, secret, data, n, input, m);
    assert input[64 * m..] <= data[64 * (n + m)..];
    AbsorbWithinBlock(k, secret, data, n + m, input[64 * m..], after);
    assert secret[0..] == secret;
  }

  /** The machine only looks at the stripes it has taken. */
  lemma {:induction false} AbsorbPrefix(k: Kernel, secret: Secret, data: seq<u8>, more: seq<u8>, n: nat)
    requires 64 * n <= |data|
    ensures Absorb(k, secret, data + more, n) == Absorb(k, secret, data, n)
  {
    if n > 0 {
      AbsorbPrefix(k, secret, data, more, n - 1);
      assert At(data + more, 64 * (n - 1)) == At(data, 64 * (n - 1));
    }
  }

  /** The position is the stripe count modulo the stripes per block. */
  lemma {:induction false} PositionIsRemainder(k: Kernel, secret: Secret, data: seq<u8>, n: nat)
    requires 64 * n <= |data|
    ensures Absorb(k, secret, data, n).pos == n % StripesPerBlock(secret)
  {
    if n > 0 {
      PositionIsRemainder(k, secret, data, n - 1);
      NextRemainder(n - 1, StripesPerBlock(secret));
    }
  }

  lemma NextRemainder(n: nat, d: nat)
    requires d > 0
    ensures (n + 1) % d == if n % d + 1 == d then 0 else n % d + 1
  {
    var q, r := n / d, n % d;
    assert n == d * q + r;
    if r + 1 == d {
      assert d * (q + 1) == d * q + d;
      DivUnique(n + 1, d, q + 1, 0);
    } else {
      DivUnique(n + 1, d, q, r + 1);
    }
  }

  // ---------- the code ----------

  method Store(acc: array<u64>, value: Acc)
    requires acc.Length == 8
    modifies acc
    ensures acc[..] == value
  {
    forall i | 0 <= i < 8 { acc[i] := value[i]; }
  }

  /** XXH3_accumulate */
  method Accumulate(k: Kernel, acc: array<u64>, input: seq<u8>, secret: seq<u8>, nbStripes: nat)
    requires acc.Length == 8
    requires 64 * nbStripes <= |input|
    requires nbStripes > 0 ==> 8 * (nbStripes - 1) + 64 <= |secret|
    modifies acc
    ensures acc[..] == Run(k, old(acc[..]), input, secret, nbStripes)
  {
    for n := 0 to nbStripes
      invariant acc[..] == Run(k, old(acc[..]), input, secret, n)
    {
      Store(acc, k.accumulate(acc[..], At(input, 64 * n), At(secret, 8 * n)));
    }
  }

  method Scramble(k: Kernel, acc: array<u64>, secret: Stripe64)
    requires acc.Length == 8
    modifies acc
    ensures acc[..] == k.scramble(old(acc[..]), secret)
  {
    Store(acc, k.scramble(acc[..], secret));
  }

  /** One block: all its stripes, then the scramble. */
  method Block(k: Kernel, acc: array<u64>, input: seq<u8>, secret: Secret, ghost data: seq<u8>, ghost n: nat)
    requires acc.Length == 8
    requires 64 * StripesPerBlock(secret) <= |input| && 64 * n <= |data| && input <= data[64 * n..]
    requires Progress(acc[..], 0) == Absorb(k, secret, data, n)
    modifies acc
    ensures Progress(acc[..], 0) == Absorb(k, secret, data, n + StripesPerBlock(secret))
  {
    AbsorbToBlockEnd(k, secret, data, n, input, StripesPerBlock(secret));
    assert secret[0..] == secret;
    Accumulate(k, acc, input, secret, StripesPerBlock(secret));
    Scramble(k, acc, At(secret, |secret| - 64));
  }

  /** The first loop of XXH3_hashLong_internal_loop: every block but the last. */
  method FullBlocks(k: Kernel, acc: array<u64>, input: seq<u8>, secret: Secret, blockLen: nat, nbBlocks: nat)
    returns (ghost done: nat)
    requires acc.Length == 8 && acc[..] == INIT_ACC
    requires blockLen == 64 * StripesPerBlock(secret)
    requires blockLen * nbBlocks <= |input|
    modifies acc
    ensures 64 * done == blockLen * nbBlocks
    ensures Progress(acc[..], 0) == Absorb(k, secret, input, done)
  {
    done := 0;
    for n := 0 to nbBlocks
      invariant 64 * done == blockLen * n <= |input|
      invariant Progress(acc[..], 0) == Absorb(k, secret, input, done)
    {
      MulLe(blockLen, n + 1, nbBlocks);
      assert blockLen * (n + 1) == blockLen * n + blockLen;
      Block(k, acc, input[blockLen * n..], secret, input, done);
      done := done + StripesPerBlock(secret);
    }
  }

  function BlockCount(len: nat, blockLen: nat): (n: nat)
    requires len > 64 && blockLen > 0
    ensures blockLen * n <= len - 1 < blockLen * n + blockLen
  {
    (len - 1) / blockLen
  }

  /** XXH3_hashLong_internal_loop */
  method HashLongInternalLoop(k: Kernel, acc: array<u64>, input: seq<u8>, secret: Secret)
    requires acc.Length == 8 && acc[..] == INIT_ACC
    requires |input| > 64
    modifies acc
    ensures acc[..] == LongAcc(k, secret, input)
  {
    var blockLen := 64 * StripesPerBlock(secret);
    var nbBlocks := BlockCount(|input|, blockLen);
    ghost var done := FullBlocks(k, acc, input, secret, blockLen, nbBlocks);
    LastStripes(k, acc, input, secret, blockLen * nbBlocks, done);
  }

  /** The last partial block and the last stripe. */
  method LastStripes(k: Kernel, acc: array<u64>, input: seq<u8>, secret: Secret, start: nat, ghost done: nat)
    requires acc.Length == 8 && start == 64 * done
    requires |input| > 64 && start <= |input| - 1 < start + 64 * StripesPerBlock(secret)
    requires Progress(acc[..], 0) == Absorb(k, secret, input, done)
    modifies acc
    ensures acc[..] == LongAcc(k, secret, input)
  {
    var nbStripes := (|input| - 1 - start) / 64;
    AbsorbWithinBlock(k, secret, input, done, input[start..], nbStripes);
    assert secret[0..] == secret;
    Accumulate(k, acc, input[start..], secret, nbStripes);
    Store(acc, k.accumulate(acc[..], At(input, |input| - 64), At(secret, |secret| - 64 - SECRET_LASTACC_START)));
  }

  lemma MergeNone(acc: Acc, secret: seq<u8>, start: u64)
    requires |secret| >= 64
    ensures MergeSum(acc, secret, start, 0) == start
  {
  }

  lemma MergeNext(acc: Acc, secret: seq<u8>, start: u64, i: nat)
    requires |secret| >= 64 && i < 4
    ensures MergeSum(acc, secret, start, i + 1) ==
            Add64(MergeSum(acc, secret, start, i), Mix2Accs(acc[2 * i], acc[2 * i + 1], secret[16 * i..16 * i + 16]))
  {
    hide Add64, Mix2Accs;
  }

  /** XXH3_mergeAccs: the loop over the four pairs of accumulators. */
  method MergeLoop(acc: Acc, secret: seq<u8>, start: u64) returns (h: u64)
    requires |secret| >= 64
    ensures h == MergeAccs(acc, secret, start)
  {
    hide Add64, Mix2Accs, Avalanche3, MergeSum;
    var result64 := start;
    MergeNone(acc, secret, start);
    for i := 0 to 4
      invariant result64 == MergeSum(acc, secret, start, i)
    {
      MergeNext(acc, secret, start, i);
      result64 := Add64(result64, Mix2Accs(acc[2 * i], acc[2 * i + 1], secret[16 * i..16 * i + 16]));
    }
    h := Avalanche3(result64);
  }

  /** XXH3_hashLong_64b_internal */
  method HashLongInternal(k: Kernel, input: seq<u8>, secret: Secret) returns (h: u64)
    requires |input| > 64
    ensures h == HashLong(k, secret, input)
  {
    hide MergeAccs;
    var acc := new u64[8];
    Store(acc, INIT_ACC);
    HashLongInternalLoop(k, acc, input, secret);
    h := MergeLoop(acc[..], secret[SECRET_MERGEACCS_START..], Mul64(Wrap64(|input|), PRIME64_1));
  }
}
