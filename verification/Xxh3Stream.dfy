/**
 The XXH3 streaming state. Whatever the resets and updates before, after a
 successful reset and any updates the digest is the one-shot hash of the
 concatenated input in the mode of that reset.
 */
module Xxh3Stream {
  import opened Wrappers
  import opened Words
  import opened Memory
  import Xxh64
  import opened Xxh3Secret
  import opened Xxh3Long
  import opened Xxh3Short
  import opened Xxh3

  const INTERNALBUFFER_SIZE: nat := 256
  const INTERNALBUFFER_STRIPES: nat := 4

  /** XXH3_consumeStripes: at most one block end is crossed. Returns the new nbStripesSoFar. */
  method ConsumeStripes(k: Kernel, acc: array<u64>, nbStripesSoFar: nat, input: seq<u8>, nbStripes: nat,
                        secret: Secret, ghost data: seq<u8>, ghost n: nat)
    returns (soFar: nat)
    requires acc.Length == 8
    requires nbStripes <= StripesPerBlock(secret) && 64 * nbStripes <= |input|
    requires 64 * n <= |data| && input <= data[64 * n..]
    requires Progress(acc[..], nbStripesSoFar) == Absorb(k, secret, data, n)
    modifies acc
    ensures Progress(acc[..], soFar) == Absorb(k, secret, data, n + nbStripes)
  {
    hide Absorb, Xxh3Long.Run, At;
    var perBlock := StripesPerBlock(secret);
    if perBlock - nbStripesSoFar <= nbStripes {
      var toEnd := perBlock - nbStripesSoFar;
      var after := nbStripes - toEnd;
      AbsorbOverBlockEnd(k, secret, data, n, input, toEnd, after);
      Accumulate(k, acc, input, secret[8 * nbStripesSoFar..], toEnd);
      Scramble(k, acc, At(secret, |secret| - 64));
      Accumulate(k, acc, input[64 * toEnd..], secret, after);
      soFar := after;
    } else {
      AbsorbWithinBlock(k, secret, data, n, input, nbStripes);
      Accumulate(k, acc, input, secret[8 * nbStripesSoFar..], nbStripes);
      soFar := nbStripesSoFar + nbStripes;
    }
  }

  class State {
    const acc: array<u64>
    const customSecret: array<u8>
    const buffer: array<u8>
    var bufferedSize: nat
    var useSeed: bool
    var nbStripesSoFar: nat
    var totalLen: u64
    var nbStripesPerBlock: nat
    var secretLimit: nat
    var seed: u64
    var extSecret: Option<seq<u8>>
    ghost var mode: Mode
    ghost var absorbed: seq<u8>
    ghost var consumed: nat  // stripes taken by the accumulators

    ghost predicate Shape()
    {
      && acc.Length == 8 && customSecret.Length == 192 && buffer.Length == 256
      && acc as object != customSecret && acc as object != buffer && customSecret != buffer
    }

    /** The secret memoised for a seed is the one that seed derives. */
    ghost predicate MemoFresh()
      reads this`seed, this`extSecret, customSecret
    {
      Shape() && (seed != 0 && extSecret.None? ==> customSecret[..] == Derive(seed))
    }

    /** state->extSecret == NULL ? state->customSecret : state->extSecret */
    function ActiveSecret(): seq<u8>
      reads this`extSecret, customSecret
    {
      if extSecret.None? then customSecret[..] else extSecret.value
    }

    /** What a successful reset in each mode leaves behind. */
    ghost predicate ModeSet()
      reads this`seed, this`extSecret, this`useSeed, this`mode, customSecret
    {
      && MemoFresh()
      && match mode
         case Default => extSecret == Some(K_SECRET) && !useSeed
         case WithSecret(s) => extSecret == Some(s) && !useSeed
         case WithSeed(sd) =>
           if sd == 0 then extSecret == Some(K_SECRET) && !useSeed
           else extSecret.None? && useSeed && seed == sd
         case WithSecretAndSeed(s, sd) => extSecret == Some(s) && useSeed && seed == sd
    }

    ghost predicate Configured()
      reads this`seed, this`extSecret, this`useSeed, this`mode, this`secretLimit, this`nbStripesPerBlock, customSecret
    {
      && Shape() && ModeSet()
      && |ActiveSecret()| >= SECRET_SIZE_MIN
      && secretLimit == |ActiveSecret()| - STRIPE_LEN
      && nbStripesPerBlock == StripesPerBlock(ActiveSecret())
    }

    /** The accumulators have taken the first `consumed` stripes of what was absorbed. */
    ghost predicate Consuming(k: Kernel)
      reads this, acc, customSecret
    {
      && Configured()
      && totalLen == Wrap64(|absorbed|)
      && 64 * consumed <= |absorbed|
      && Progress(acc[..], nbStripesSoFar) == Absorb(k, ActiveSecret(), absorbed, consumed)
    }

    /** The end of the buffer holds the stripe before the buffered bytes. */
    ghost predicate PreviousStripe()
      reads this, buffer
      requires buffer.Length == 256 && 64 * consumed <= |absorbed|
    {
      consumed > 0 ==> buffer[192..] == absorbed[64 * consumed - 64..64 * consumed]
    }

    ghost predicate Valid(k: Kernel)
      reads this, acc, customSecret, buffer
    {
      && Consuming(k)
      && bufferedSize <= 256
      && |absorbed| == 64 * consumed + bufferedSize
      && absorbed[64 * consumed..] == buffer[..bufferedSize]
      && (consumed > 0 ==> bufferedSize > 0 && |absorbed| > 256)
      && (bufferedSize < 64 ==> PreviousStripe())
    }

    /** XXH3_createState: only the seed is initialised. */
    constructor ()
      ensures MemoFresh()
      ensures fresh(acc) && fresh(customSecret) && fresh(buffer)
    {
      acc := new u64[8];
      customSecret := new u8[192];
      buffer := new u8[256];
      seed := 0;
      extSecret := *;
    }

    // ---------- resets ----------

    /** XXH3_reset_internal; the secret size may be anything here, as in the code. */
    method ResetInternal(seed0: u64, secret: Option<seq<u8>>, secretSize: u64)
      requires Shape()
      modifies this, acc
      ensures acc[..] == INIT_ACC && bufferedSize == 0 && nbStripesSoFar == 0 && totalLen == 0
      ensures seed == seed0 && useSeed == (seed0 != 0) && extSecret == secret
      ensures secretLimit == Sub64(secretSize, 64)
      ensures nbStripesPerBlock == secretLimit / 8
      ensures absorbed == [] && consumed == 0
    {
      hide INIT_ACC;
      bufferedSize, useSeed, nbStripesSoFar, totalLen := 0, false, 0, 0;
      Store(acc, INIT_ACC);
      seed := seed0;
      useSeed := seed0 != 0;
      extSecret := secret;
      secretLimit := Sub64(secretSize, STRIPE_LEN);
      nbStripesPerBlock := secretLimit / SECRET_CONSUME_RATE;
      absorbed, consumed := [], 0;
    }

    /** XXH3_64bits_reset */
    method Reset(ghost k: Kernel)
      requires MemoFresh()
      modifies this, acc
      ensures Valid(k) && mode == Mode.Default && absorbed == []
    {
      hide INIT_ACC, Derive, K_SECRET;
      ResetInternal(0, Some(K_SECRET), 192);
      mode := Mode.Default;
    }

    /** XXH3_64bits_reset_withSecret: the state is overwritten before the arguments are checked. */
    method ResetWithSecret(ghost k: Kernel, secret: Option<seq<u8>>, secretSize: u64) returns (ok: bool)
      requires MemoFresh()
      requires secret.Some? ==> |secret.value| == secretSize
      modifies this, acc
      ensures MemoFresh()
      ensures ok <==> secret.Some? && secretSize >= SECRET_SIZE_MIN
      ensures ok ==> Valid(k) && mode == WithSecret(secret.value) && absorbed == []
      ensures !ok ==> seed == 0 && extSecret == secret && absorbed == []
    {
      hide INIT_ACC, Derive;
      ResetInternal(0, secret, secretSize);
      if secret.None? { return false; }
      if secretSize < SECRET_SIZE_MIN { return false; }
      mode := WithSecret(secret.value);
      return true;
    }

    /** XXH3_64bits_reset_withSeed: the derived secret is rebuilt only when it may be another seed's. */
    method ResetWithSeed(ghost k: Kernel, seed0: u64)
      requires MemoFresh()
      modifies this, acc, customSecret
      ensures Valid(k) && mode == WithSeed(seed0) && absorbed == []
      ensures seed0 != 0 ==> customSecret[..] == Derive(seed0)
    {
      hide INIT_ACC, Derive, K_SECRET;
      if seed0 == 0 {
        Reset(k);
        mode := WithSeed(0);
        return;
      }
      if seed0 != seed || extSecret.Some? {
        InitCustomSecret(customSecret, seed0);
      }
      ResetInternal(seed0, None, 192);
      mode := WithSeed(seed0);
    }

    /** XXH3_64bits_reset_withSecretandSeed: the arguments are checked first. */
    method ResetWithSecretAndSeed(ghost k: Kernel, secret: Option<seq<u8>>, secretSize: u64, seed0: u64)
      returns (ok: bool)
      requires MemoFresh()
      requires secret.Some? ==> |secret.value| == secretSize
      modifies this, acc
      ensures MemoFresh()
      ensures ok <==> secret.Some? && secretSize >= SECRET_SIZE_MIN
      ensures ok ==> Valid(k) && mode == WithSecretAndSeed(secret.value, seed0) && absorbed == []
      ensures !ok ==> unchanged(this) && unchanged(acc)
      ensures !ok && old(Valid(k)) ==> Valid(k)
    {
      hide INIT_ACC, Derive;
      if secret.None? { return false; }
      if secretSize < SECRET_SIZE_MIN { return false; }
      ResetInternal(seed0, secret, secretSize);
      useSeed := true;
      mode := WithSecretAndSeed(secret.value, seed0);
      return true;
    }

    /** What is true between calls, in the terms of the fields. */
    lemma Between(k: Kernel)
      requires Valid(k)
      ensures (|absorbed| - bufferedSize) % 64 == 0
      ensures nbStripesSoFar == (|absorbed| - bufferedSize) / 64 % nbStripesPerBlock < nbStripesPerBlock
      ensures acc[..] == Absorb(k, ActiveSecret(), absorbed, (|absorbed| - bufferedSize) / 64).acc
      ensures |absorbed| > 256 ==> 1 <= bufferedSize <= 256
      ensures |absorbed| > 256 && bufferedSize < 64 ==>
                buffer[192..] == absorbed[|absorbed| - bufferedSize - 64..|absorbed| - bufferedSize]
    {
      hide ModeSet, MemoFresh, Step, Absorb, Wrap64;
      PositionIsRemainder(k, ActiveSecret(), absorbed, consumed);
    }

    lemma StillFresh(k: Kernel)
      requires Valid(k)
      ensures MemoFresh()
    {
    }

    // ---------- update ----------

    /** totalLen += len; the bytes are not consumed yet. */
    method Count(ghost k: Kernel, input: seq<u8>)
      requires Consuming(k)
      modifies this`totalLen, this`absorbed
      ensures Consuming(k) && absorbed == old(absorbed) + input
    {
      hide ModeSet, MemoFresh, Step, Add64, Wrap64;
      Wrap64Adds(|absorbed|, |input|);
      AbsorbPrefix(k, ActiveSecret(), absorbed, input, consumed);
      totalLen := Add64(totalLen, |input|);
      absorbed := absorbed + input;
    }

    /** Copy behind the buffered bytes. */
    method PutBehind(input: seq<u8>)
      requires buffer.Length == 256 && bufferedSize + |input| <= 256
      modifies this`bufferedSize, buffer
      ensures bufferedSize == old(bufferedSize) + |input|
      ensures buffer[..bufferedSize] == old(buffer[..bufferedSize]) + input
      ensures bufferedSize < 64 ==> buffer[192..] == old(buffer[192..])
    {
      ghost var before := buffer[..];
      CopyInto(buffer, bufferedSize, input);
      Overwritten(before, bufferedSize, input, buffer[..]);
      bufferedSize := bufferedSize + |input|;
      assert buffer[..][..bufferedSize] == buffer[..bufferedSize];
      assert buffer[..][192..] == buffer[192..];
    }

    /** The input fits in the buffer. */
    method Fill(k: Kernel, input: seq<u8>)
      requires Valid(k) && bufferedSize + |input| <= 256
      modifies this`totalLen, this`bufferedSize, this`absorbed, buffer
      ensures Valid(k) && absorbed == old(absorbed) + input
    {
      hide ModeSet, MemoFresh, Step, StripesPerBlock, Absorb, Wrap64;
      Count(k, input);
      PutBehind(input);
      FrontPart(old(absorbed), input, if consumed > 0 then 64 * consumed - 64 else 0, 64 * consumed);
    }

    /** Consume n stripes of bytes that are next in the absorbed sequence. */
    method Take(k: Kernel, bytes: seq<u8>, n: nat)
      requires Consuming(k) && n <= StripesPerBlock(ActiveSecret()) && 64 * n <= |bytes|
      requires bytes <= absorbed[64 * consumed..]
      modifies this`nbStripesSoFar, this`consumed, acc
      ensures Consuming(k) && consumed == old(consumed) + n
    {
      hide ModeSet, MemoFresh, Step, StripesPerBlock, Absorb, Wrap64;
      nbStripesSoFar := ConsumeStripes(k, acc, nbStripesSoFar, bytes, n, ActiveSecret(), absorbed, consumed);
      consumed := consumed + n;
    }

    /** Top the buffer up from the input and consume its four stripes. */
    method CompleteBuffer(k: Kernel, input: seq<u8>) returns (p: nat)
      requires Consuming(k) && 0 < bufferedSize <= 256 < bufferedSize + |input|
      requires absorbed[64 * consumed..] == buffer[..bufferedSize] + input
      modifies this`nbStripesSoFar, this`consumed, this`bufferedSize, acc, buffer
      ensures Consuming(k) && bufferedSize == 0 && PreviousStripe()
      ensures p < |input| && absorbed[64 * consumed..] == input[p..]
    {
      hide ModeSet, MemoFresh, Step, Absorb, Wrap64;
      p := 256 - bufferedSize;
      CopyInto(buffer, bufferedSize, input[..p]);
      assert absorbed[64 * consumed..] == buffer[..] + input[p..];
      Take(k, buffer[..], INTERNALBUFFER_STRIPES);
      SameStripe(absorbed, 64 * old(consumed), buffer[..] + input[p..], 0, 256);
      bufferedSize := 0;
    }

    /** To the end of the current block: the rest of its stripes, then the scramble. */
    method FinishBlock(k: Kernel, input: seq<u8>, start: nat) returns (p: nat)
      requires Consuming(k) && start <= |input| && absorbed[64 * consumed..] == input[start..]
      requires 64 * (nbStripesPerBlock - nbStripesSoFar) <= |input| - start
      modifies this`nbStripesSoFar, this`consumed, acc
      ensures Consuming(k) && nbStripesSoFar == 0
      ensures p == start + 64 * (nbStripesPerBlock - old(nbStripesSoFar))
      ensures consumed == old(consumed) + nbStripesPerBlock - old(nbStripesSoFar)
      ensures absorbed[64 * consumed..] == input[p..]
    {
      hide ModeSet, MemoFresh, Step, Absorb, Wrap64;
      var toEnd := nbStripesPerBlock - nbStripesSoFar;
      AbsorbToBlockEnd(k, ActiveSecret(), absorbed, consumed, input[start..], toEnd);
      Accumulate(k, acc, input[start..], ActiveSecret()[8 * nbStripesSoFar..], toEnd);
      Scramble(k, acc, At(ActiveSecret(), secretLimit));
      nbStripesSoFar := 0;
      consumed := consumed + toEnd;
      p := start + 64 * toEnd;
    }

    /** Buffer the predecessor of the last partial stripe. */
    method KeepPrevious(ghost k: Kernel, previous: seq<u8>)
      requires Consuming(k) && consumed > 0 && previous == absorbed[64 * consumed - 64..64 * consumed]
      modifies buffer
      ensures Consuming(k) && PreviousStripe()
    {
      hide ModeSet, MemoFresh, Step, Absorb, Wrap64;
      CopyInto(buffer, 192, previous);
      assert buffer[192..] == previous;
    }

    /** Consume per entire blocks. */
    method WholeBlocks(k: Kernel, input: seq<u8>, start: nat, nbStripes: nat) returns (p: nat, left: nat)
      requires Consuming(k) && nbStripesSoFar == 0 && start <= |input|
      requires absorbed[64 * consumed..] == input[start..]
      requires 64 * nbStripes < |input| - start <= 64 * nbStripes + 64
      modifies this`nbStripesSoFar, this`consumed, acc
      ensures Consuming(k) && nbStripesSoFar == 0 && left < nbStripesPerBlock
      ensures start <= p <= |input| && 64 * left < |input| - p <= 64 * left + 64
      ensures p - start == 64 * (consumed - old(consumed)) && absorbed[64 * consumed..] == input[p..]
    {
      hide ModeSet, MemoFresh, Step, Absorb, Wrap64;
      p, left := start, nbStripes;
      while left >= nbStripesPerBlock
        modifies this`nbStripesSoFar, this`consumed, acc
        invariant Consuming(k) && nbStripesSoFar == 0 && start <= p <= |input|
        invariant 64 * left < |input| - p <= 64 * left + 64
        invariant p - start == 64 * (consumed - old(consumed))
        invariant absorbed[64 * consumed..] == input[p..]
      {
        p := FinishBlock(k, input, p);
        left := left - nbStripesPerBlock;
      }
    }

    /** Consume the last partial block, and keep its last stripe in the buffer. */
    method LastPartial(k: Kernel, input: seq<u8>, start: nat, nbStripes: nat, ghost first: nat, ghost before: nat)
      returns (p: nat)
      requires Consuming(k) && first <= start <= |input| && absorbed[64 * consumed..] == input[start..]
      requires nbStripes < nbStripesPerBlock && 64 * nbStripes < |input| - start <= 64 * nbStripes + 64
      requires before < consumed && start - first == 64 * (consumed - before)
      requires absorbed[64 * before..] == input[first..]
      modifies this`nbStripesSoFar, this`consumed, acc, buffer
      ensures Consuming(k) && PreviousStripe() && consumed > 0
      ensures p < |input| <= p + 64 && absorbed[64 * consumed..] == input[p..]
    {
      hide ModeSet, MemoFresh, Step, Absorb, Wrap64;
      Take(k, input[start..], nbStripes);
      p := start + 64 * nbStripes;
      SameStripe(absorbed, 64 * before, input, first, p - first);
      KeepPrevious(k, input[p - 64..p]);
    }

    /** The large-input path of XXH3_update: join the block, whole blocks, last partial block. */
    method LargeInput(k: Kernel, input: seq<u8>, start: nat) returns (p: nat)
      requires Consuming(k) && start <= |input| && absorbed[64 * consumed..] == input[start..]
      requires |input| - start > 64 * nbStripesPerBlock
      modifies this`nbStripesSoFar, this`consumed, acc, buffer
      ensures Consuming(k) && PreviousStripe() && consumed > 0
      ensures p < |input| <= p + 64 && absorbed[64 * consumed..] == input[p..]
    {
      hide ModeSet, MemoFresh, Step, Absorb, Wrap64;
      var nbStripes := (|input| - 1 - start) / 64;
      nbStripes := nbStripes - (nbStripesPerBlock - nbStripesSoFar);
      p := FinishBlock(k, input, start);
      p, nbStripes := WholeBlocks(k, input, p, nbStripes);
      p := LastPartial(k, input, p, nbStripes, start, old(consumed));
    }

    /** Four stripes at a time while more than 256 bytes are left. */
    method TakeBuffers(k: Kernel, input: seq<u8>, start: nat) returns (p: nat)
      requires Consuming(k) && start < |input| && absorbed[64 * consumed..] == input[start..]
      modifies this`nbStripesSoFar, this`consumed, acc
      ensures Consuming(k) && start <= p < |input| <= p + 256
      ensures p - start == 64 * (consumed - old(consumed)) && absorbed[64 * consumed..] == input[p..]
    {
      hide ModeSet, MemoFresh, Step, Absorb, Wrap64;
      p := start;
      while |input| - p > 256
        modifies this`nbStripesSoFar, this`consumed, acc
        invariant Consuming(k) && start <= p < |input|
        invariant p - start == 64 * (consumed - old(consumed))
        invariant absorbed[64 * consumed..] == input[p..]
      {
        Take(k, input[p..], INTERNALBUFFER_STRIPES);
        p := p + 256;
      }
    }

    /** The small-block path of XXH3_update. */
    method MediumInput(k: Kernel, input: seq<u8>, start: nat) returns (p: nat)
      requires Consuming(k) && start < |input| && absorbed[64 * consumed..] == input[start..]
      requires buffer.Length == 256 && PreviousStripe()
      modifies this`nbStripesSoFar, this`consumed, acc, buffer
      ensures Consuming(k) && PreviousStripe()
      ensures p < |input| <= p + 256 && absorbed[64 * consumed..] == input[p..]
    {
      hide ModeSet, MemoFresh, Step, Absorb, Wrap64;
      p := start;
      if |input| - p > INTERNALBUFFER_SIZE {
        p := TakeBuffers(k, input, start);
        SameStripe(absorbed, 64 * old(consumed), input, start, p - start);
        KeepPrevious(k, input[p - 64..p]);
      }
    }

    /** What is left goes into the empty buffer. */
    method BufferRest(ghost k: Kernel, rest: seq<u8>)
      requires Consuming(k) && PreviousStripe() && 0 < |rest| <= 256
      requires rest == absorbed[64 * consumed..] && |absorbed| > 256
      modifies this`bufferedSize, buffer
      ensures Valid(k)
    {
      hide ModeSet, MemoFresh, Step, Absorb, Wrap64;
      CopyInto(buffer, 0, rest);
      bufferedSize := |rest|;
      assert buffer[..bufferedSize] == rest;
      assert bufferedSize < 64 ==> buffer[192..] == old(buffer[192..]);
    }

    /** XXH3_64bits_update, accumulating directly in the state. */
    method Update(k: Kernel, input: seq<u8>)
      requires Valid(k)
      modifies this`totalLen, this`bufferedSize, this`nbStripesSoFar, this`absorbed, this`consumed, acc, buffer
      ensures Valid(k) && absorbed == old(absorbed) + input
    {
      hide ModeSet, MemoFresh, Step, Absorb, Wrap64;
      if bufferedSize + |input| <= INTERNALBUFFER_SIZE {
        Fill(k, input);
        return;
      }
      Count(k, input);
      var p := 0;
      if bufferedSize > 0 {
        p := CompleteBuffer(k, input);
      }
      if |input| - p > nbStripesPerBlock * STRIPE_LEN {
        p := LargeInput(k, input, p);
      } else {
        p := MediumInput(k, input, p);
      }
      BufferRest(k, input[p..]);
    }

    // ---------- digest ----------

    /** At least a stripe is buffered: its whole stripes but the last bytes, then the last 64 bytes. */
    method DigestBuffered(k: Kernel, local: array<u64>)
      requires Valid(k) && |absorbed| > MIDSIZE_MAX && bufferedSize >= STRIPE_LEN
      requires local.Length == 8 && local[..] == acc[..]
      requires local != acc && local as object != buffer && local as object != customSecret
      modifies local
      ensures local[..] == LongAcc(k, ActiveSecret(), absorbed)
    {
      hide ModeSet, MemoFresh, Step, Absorb, Wrap64;
      var nbStripes := (bufferedSize - 1) / STRIPE_LEN;
      var bytes := buffer[..bufferedSize];
      var _ := ConsumeStripes(k, local, nbStripesSoFar, bytes, nbStripes, ActiveSecret(), absorbed, consumed);
      SameStripe(absorbed, 64 * consumed, bytes, 0, bufferedSize);
      assert At(bytes, bufferedSize - STRIPE_LEN) == At(absorbed, |absorbed| - 64);
      assert consumed + nbStripes == (|absorbed| - 1) / 64;
      Store(local, k.accumulate(local[..], At(bytes, bufferedSize - STRIPE_LEN),
                                At(ActiveSecret(), secretLimit - SECRET_LASTACC_START)));
    }

    /** Less than a stripe is buffered: the last 64 bytes reach back into the previous stripe. */
    method DigestSpliced(k: Kernel, local: array<u64>)
      requires Valid(k) && |absorbed| > MIDSIZE_MAX && bufferedSize < STRIPE_LEN
      requires local.Length == 8 && local[..] == acc[..]
      modifies local
      ensures local[..] == LongAcc(k, ActiveSecret(), absorbed)
    {
      hide ModeSet, MemoFresh, Step, Absorb, Wrap64;
      var catchupSize := STRIPE_LEN - bufferedSize;
      var lastStripe := buffer[256 - catchupSize..] + buffer[..bufferedSize];
      assert buffer[192..][bufferedSize..] == buffer[256 - catchupSize..];
      SpliceStripe(absorbed, 64 * consumed, buffer[192..], buffer[..bufferedSize]);
      assert lastStripe == At(absorbed, |absorbed| - 64);
      assert consumed == (|absorbed| - 1) / 64;
      Store(local, k.accumulate(local[..], lastStripe, At(ActiveSecret(), secretLimit - SECRET_LASTACC_START)));
    }

    /** XXH3_digest_long, on a local copy of the accumulators. */
    method DigestLong(k: Kernel, local: array<u64>)
      requires Valid(k) && |absorbed| > MIDSIZE_MAX
      requires local.Length == 8
      requires local != acc && local as object != buffer && local as object != customSecret
      modifies local
      ensures local[..] == LongAcc(k, ActiveSecret(), absorbed)
    {
      hide ModeSet, MemoFresh, Step, Absorb, Wrap64, LongAcc;
      Store(local, acc[..]);
      if bufferedSize >= STRIPE_LEN {
        DigestBuffered(k, local);
      } else {
        DigestSpliced(k, local);
      }
    }

    /** XXH3_64bits_digest: the state is only read. */
    method Digest(k: Kernel) returns (h: u64)
      requires Valid(k) && |absorbed| < M64
      ensures h == OneShot(k, mode, absorbed)
    {
      hide Derive, K_SECRET, Step, Absorb, MergeAccs, HashShort, LongAcc;
      assert totalLen == |absorbed|;
      if totalLen > MIDSIZE_MAX {
        var local := new u64[8];
        DigestLong(k, local);
        h := MergeLoop(local[..], ActiveSecret()[SECRET_MERGEACCS_START..], Mul64(totalLen, Xxh64.PRIME64_1));
        return;
      }
      assert consumed == 0 && buffer[..totalLen] == absorbed;
      if useSeed {
        return HashShort(buffer[..totalLen], K_SECRET, seed);
      }
      return HashShort(buffer[..totalLen], ActiveSecret(), 0);
    }
  }

  /** The last 64 bytes, part from the previous stripe and part from the buffered rest. */
  lemma SpliceStripe(data: seq<u8>, n: nat, previous: seq<u8>, rest: seq<u8>)
    requires 64 <= n <= |data| && previous == data[n - 64..n] && rest == data[n..] && |rest| <= 64
    ensures previous[|rest|..] + rest == data[|data| - 64..]
  {
  }

  lemma SameStripe(data: seq<u8>, i: nat, input: seq<u8>, j: nat, d: nat)
    requires i <= |data| && j <= |input| && data[i..] == input[j..]
    requires 64 <= d <= |data| - i
    ensures data[i + d - 64..i + d] == input[j + d - 64..j + d]
  {
    assert data[i..][d - 64..d] == data[i + d - 64..i + d];
    assert input[j..][d - 64..d] == input[j + d - 64..j + d];
  }

  // ---------- whole runs ----------

  /** A reset that is refused: no secret, or one that is too short. */
  datatype Refusal = NoSecret(size: u64) | ShortSecret(secret: seq<u8>) | NoSecretSeeded(size: u64, seed: u64)
                   | ShortSecretSeeded(secret: seq<u8>, seed: u64)

  ghost predicate IsRefused(r: Refusal)
  {
    r.ShortSecret? || r.ShortSecretSeeded? ==> |r.secret| < SECRET_SIZE_MIN
  }

  /** One use of a state: resets that are refused, the one that starts it, and the updates that follow. */
  datatype Session = Session(refused: seq<Refusal>, mode: Mode, chunks: seq<seq<u8>>)

  /** The sizes of secrets and the total length are 64-bit. */
  ghost predicate Representable(s: Session)
  {
    && (forall r | r in s.refused :: IsRefused(r))
    && |Concat(s.chunks)| < M64
    && (s.mode.WithSecret? || s.mode.WithSecretAndSeed? ==> |s.mode.secret| < M64)
  }

  /** The hashes of the empty input and of the input after each chunk. */
  ghost predicate PrefixHashes(k: Kernel, s: Session, hashes: seq<u64>)
  {
    && |hashes| == |s.chunks| + 1
    && forall i | 0 <= i <= |s.chunks| :: hashes[i] == OneShot(k, s.mode, Concat(s.chunks[..i]))
  }

  method ResetFor(k: Kernel, st: State, mode: Mode)
    requires st.MemoFresh()
    requires mode.WithSecret? || mode.WithSecretAndSeed? ==> |mode.secret| < M64
    modifies st, st.acc, st.customSecret
    ensures st.Valid(k) && st.mode == mode && st.absorbed == []
  {
    hide Derive, K_SECRET, Absorb;
    match mode {
      case Default => st.Reset(k);
      case WithSecret(secret) => var ok := st.ResetWithSecret(k, Some(secret), |secret|);
      case WithSeed(seed) => st.ResetWithSeed(k, seed);
      case WithSecretAndSeed(secret, seed) => var ok := st.ResetWithSecretAndSeed(k, Some(secret), |secret|, seed);
    }
  }

  /** A refused reset, which may have overwritten the state, leaves no stale secret behind. */
  method Refuse(ghost k: Kernel, st: State, r: Refusal)
    requires st.MemoFresh() && IsRefused(r)
    modifies st, st.acc
    ensures st.MemoFresh()
  {
    hide State.Valid, State.MemoFresh;
    var ok: bool;
    match r {
      case NoSecret(size) => ok := st.ResetWithSecret(k, None, size);
      case ShortSecret(secret) => ok := st.ResetWithSecret(k, Some(secret), |secret|);
      case NoSecretSeeded(size, seed) => ok := st.ResetWithSecretAndSeed(k, None, size, seed);
      case ShortSecretSeeded(secret, seed) => ok := st.ResetWithSecretAndSeed(k, Some(secret), |secret|, seed);
    }
    assert !ok;
  }

  /** Reset in the given mode, update chunk by chunk, and take a digest before and after each update. */
  method Run(k: Kernel, st: State, s: Session) returns (hashes: seq<u64>)
    requires st.MemoFresh() && Representable(s)
    modifies st, st.acc, st.customSecret, st.buffer
    ensures st.MemoFresh()
    ensures PrefixHashes(k, s, hashes)
  {
    hide OneShot, State.Valid, State.MemoFresh;
    for i := 0 to |s.refused|
      invariant st.MemoFresh()
    {
      Refuse(k, st, s.refused[i]);
    }
    ResetFor(k, st, s.mode);
    PrefixIsShorter(s.chunks, 0);
    var h := st.Digest(k);
    hashes := [h];
    for i := 0 to |s.chunks|
      invariant st.Valid(k) && st.mode == s.mode && st.absorbed == Concat(s.chunks[..i])
      invariant |hashes| == i + 1
      invariant forall j | 0 <= j <= i :: hashes[j] == OneShot(k, s.mode, Concat(s.chunks[..j]))
    {
      ConcatStep(s.chunks, i);
      PrefixIsShorter(s.chunks, i + 1);
      st.Update(k, s.chunks[i]);
      h := st.Digest(k);
      hashes := hashes + [h];
    }
    st.StillFresh(k);
  }

  /** One state, reused over any run of resets, accepted or refused: every digest is the hash of what came since. */
  method RunAll(k: Kernel, sessions: seq<Session>) returns (hashes: seq<seq<u64>>)
    requires forall s | s in sessions :: Representable(s)
    ensures |hashes| == |sessions|
    ensures forall i | 0 <= i < |sessions| :: PrefixHashes(k, sessions[i], hashes[i])
  {
    hide PrefixHashes, Derive, K_SECRET, Absorb;
    var st := new State();
    hashes := [];
    for n := 0 to |sessions|
      invariant st.MemoFresh() && fresh(st) && fresh(st.acc) && fresh(st.customSecret) && fresh(st.buffer)
      invariant |hashes| == n
      invariant forall i | 0 <= i < n :: PrefixHashes(k, sessions[i], hashes[i])
    {
      var h := Run(k, st, sessions[n]);
      hashes := hashes + [h];
    }
  }
}
