/** The four public one-shot variants of the 64-bit XXH3. */
module Xxh3 {
  import opened Words
  import opened Xxh3Secret
  import opened Xxh3Long
  import opened Xxh3Short

  datatype Mode =
    | Default
    | WithSecret(secret: Secret)
    | WithSeed(seed: u64)
    | WithSecretAndSeed(secret: Secret, seed: u64)

  /** XXH3_64bits, _withSecret, _withSeed and _withSecretandSeed. */
  function OneShot(k: Kernel, mode: Mode, data: seq<u8>): u64
  {
    if |data| <= MIDSIZE_MAX then
      match mode
      case Default => HashShort(data, K_SECRET, 0)
      case WithSecret(secret) => HashShort(data, secret, 0)
      case WithSeed(seed) => HashShort(data, K_SECRET, seed)
      case WithSecretAndSeed(_, seed) => HashShort(data, K_SECRET, seed)
    else
      match mode
      case Default => HashLong(k, K_SECRET, data)
      case WithSecret(secret) => HashLong(k, secret, data)
      case WithSeed(seed) => HashLong(k, if seed == 0 then K_SECRET else Derive(seed), data)
      case WithSecretAndSeed(secret, _) => HashLong(k, secret, data)
  }

  /** With the secret generated from the seed, the combined variant is the seeded one, at every length. */
  lemma GeneratedSecretGivesSeeded(k: Kernel, data: seq<u8>, seed: u64)
    ensures OneShot(k, WithSecretAndSeed(Derive(seed), seed), data) == OneShot(k, WithSeed(seed), data)
  {
    hide HashShort, HashLong, Derive, K_SECRET;
    if seed == 0 {
      DeriveZero();
    }
  }

  /** The unseeded variant is the seed 0. */
  lemma SeedZeroIsDefault(k: Kernel, data: seq<u8>)
    ensures OneShot(k, WithSeed(0), data) == OneShot(k, Default, data)
  {
    hide HashShort, HashLong, K_SECRET;
  }

  /** Up to 240 bytes, 240 included, the combined variant looks at the seed alone; beyond, at the secret alone. */
  lemma CombinedIsSeedOrSecret(k: Kernel, secret: Secret, seed: u64, data: seq<u8>)
    ensures OneShot(k, WithSecretAndSeed(secret, seed), data) ==
            OneShot(k, if |data| <= MIDSIZE_MAX then WithSeed(seed) else WithSecret(secret), data)
  {
    hide HashShort, HashLong, Derive, K_SECRET;
  }

  /** As the header comment has it: the seed for less than 240 bytes, the secret for 240 and more. */
  function Documented(k: Kernel, secret: Secret, seed: u64, data: seq<u8>): u64
  {
    OneShot(k, if |data| < MIDSIZE_MAX then WithSeed(seed) else WithSecret(secret), data)
  }

  /** The code does as its comment says at every other length; at 240 bytes it gives one hash for all secrets. */
  lemma DocumentedExceptAt240(k: Kernel, secret: Secret, secret': Secret, seed: u64, data: seq<u8>)
    ensures |data| != 240 ==> OneShot(k, WithSecretAndSeed(secret, seed), data) == Documented(k, secret, seed, data)
    ensures |data| == 240 ==> OneShot(k, WithSecretAndSeed(secret, seed), data) ==
                              OneShot(k, WithSecretAndSeed(secret', seed), data)
    ensures |data| == 240 ==> Documented(k, secret, seed, data) == Len129To240(data, secret, 0)
    ensures |data| == 240 ==> OneShot(k, WithSecretAndSeed(secret, seed), data) == Len129To240(data, K_SECRET, seed)
  {
    hide HashLong, Derive, K_SECRET, Len129To240;
    CombinedIsSeedOrSecret(k, secret, seed, data);
    CombinedIsSeedOrSecret(k, secret', seed, data);
  }

  // ---------- kernels that agree ----------

  ghost predicate Agree(k: Kernel, k': Kernel)
  {
    && (forall a: Acc, i: Stripe64, s: Stripe64 :: k.accumulate(a, i, s) == k'.accumulate(a, i, s))
    && (forall a: Acc, s: Stripe64 :: k.scramble(a, s) == k'.scramble(a, s))
  }

  lemma {:induction false} AgreeingAbsorb(k: Kernel, k': Kernel, secret: Secret, data: seq<u8>, n: nat)
    requires Agree(k, k') && 64 * n <= |data|
    ensures Absorb(k, secret, data, n) == Absorb(k', secret, data, n)
  {
    if n > 0 {
      AgreeingAbsorb(k, k', secret, data, n - 1);
    }
  }

  /** Kernels that agree on single stripes give one hash function. */
  lemma AgreeingKernels(k: Kernel, k': Kernel, mode: Mode, data: seq<u8>)
    requires Agree(k, k')
    ensures OneShot(k, mode, data) == OneShot(k', mode, data)
  {
    hide HashShort, MergeAccs, Derive, K_SECRET;
    if |data| > MIDSIZE_MAX {
      var secret: Secret :=
        match mode
        case Default => K_SECRET
        case WithSecret(s) => s
        case WithSeed(seed) => if seed == 0 then K_SECRET else Derive(seed)
        case WithSecretAndSeed(s, _) => s;
      AgreeingAbsorb(k, k', secret, data, (|data| - 1) / 64);
      assert LongAcc(k, secret, data) == LongAcc(k', secret, data);
    }
  }
}
