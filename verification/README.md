# DeviceAtlas Cloud client: verified model

The client looks device properties up in a local cache before it asks a server.
Three parts of it decide whether the answer is right, and they are modelled and
proved here.

**The hash engine** (`import/xxhash.h`), which turns request headers into cache
keys. The meaning of each hash is a function of the whole input: `Xxh64.Hash`,
`Xxh32.Hash` and `Xxh3.OneShot`. Proved about it:

- each of these is, for every input, seed and secret, a second description in
  integer arithmetic with all constants as numbers: XXH64 and XXH32 by the steps
  of the xxHash specification (`Xxh64Published`, `Xxh32Published`), with one
  published value of XXH64 derived from them (`KnownHashes`), and XXH3 by a formula
  for each length class (`Xxh3Published`, `Xxh3IsPublished`), the merge of the
  accumulators and the secret derived from a seed included;
- the streaming states of XXH64, XXH32 and XXH3 give that function for every way
  of cutting the input, at every intermediate digest; for XXH3 in all four reset
  modes, for every secret of at least 136 bytes, and for one state reused over
  any run of mixed resets (modules `Xxh64Stream`, `Xxh32Stream`, `Xxh3Stream`);
- the block loops, the overlapping reads and the buffer bookkeeping of the C code
  refine a machine that takes one 64-byte stripe at a time (`Xxh3Long`), and the
  reads cover every input byte (`Xxh3Short`);
- the SSE2 and AVX2 kernels equal the scalar kernel, so the hash does not depend
  on the instruction set (`Xxh3Kernels`);
- the portable 64 by 64 bit multiplication is exact (`Multiply128`);
- nothing is lost where nothing need be: every mixing step of XXH64 has an
  inverse and inputs that differ in one word of the tail never collide
  (`Xxh64Bijective`); XXH3 is one-to-one on inputs of one length up to eight
  bytes, for each secret and seed, and from 9 to 16 bytes in each of the two words
  where the other one cancels its key (`Xxh3Injective`);
- canonical forms round trip between machines of both byte orders and keep the
  order of the hashes (`Canonical`).

**The arena** (`dacloud_mem.c`) that all other parts allocate from. `Arena` is the
arithmetic of cursor and growth, `ArenaRuns` what whole runs keep and under which
condition known before each call, `ArenaLimits` for which arenas some run breaks
it and how many chunks a run can make, and `ArenaChain` the linked chunks in
memory, with in-bounds, apart and unchanged strings, and exact release.

**The cache pipeline**: header list and its buffer (`HeaderList`), which lists share
a cache key (`CacheKeys`), the tail-queue cache (`MemoryCache`), the response buffer
(`Response`), the detection step over them (`Detect`), and which headers are given
each other's bodies (`SharedBodies`).

Words are integers in range. Wrap-around is written as `% 2^64`, the bitwise
operators are defined digit by digit (`Words`), so facts about carries and facts
about exclusive or meet in one proof. Streaming states, arena and cache are
classes whose fields are the fields of the C structs, plus ghost fields for what
has been absorbed or handed out.

## Where the code and its documentation or intent differ

The model follows the code. The member that shows each difference is named with it.

- The header comment gives inputs of 240 bytes to the secret in the
  `_withSecretandSeed` variants (`import/xxhash.h:1173-1175`); the code hashes
  them with the seed (`import/xxhash.h:4583`), alike for all secrets. On 240 zero
  bytes with seed 0 the two differ (`Xxh3At240.DiffersAt240`); they agree on all
  inputs of a length, for all secrets and seeds, exactly if it is not 240
  (`Xxh3At240.AsDocumentedIff`).
- An arena chunk whose size is 2 or 3 modulo 4 lets the cursor pass its end,
  because the check uses the size asked for and the cursor moves by the size
  rounded up; one chunk is safe exactly for sizes 0 and 1 modulo 4
  (`Arena.CursorStaysInsideIff`). A good first size does not help once the arena
  grows: for every first size, some run of small requests is handed bytes outside
  its chunk, unless the arena is too large to grow at all
  (`ArenaLimits.SafeForAllRunsIff`). A caller who looks at each request before it
  is made can tell exactly whether it keeps the sizes good
  (`ArenaRuns.RunSizesGoodIff`), and then everything is in bounds and apart
  (`ArenaRuns.RunIsTidy`).
- The mask `0xfffffffc` is 32 bits wide: the step covers the request exactly for
  requests of at most 2^32 - 4 bytes (`Arena.StepCoversRequest`).
- One new chunk serves a request exactly when the grown size, which wraps around in
  `size_t`, is more than the request (`Arena.GrowsAtMostOnce`, `Arena.EnoughIff`).
  Otherwise the recursion goes on: `Arena.WrappedRequest` is such an input, for
  the requests of `Arena.WrapNeverEnds` every new chunk has the old size until no
  memory is left, and so it is for a request of no bytes on a chunk of no bytes
  (`Arena.EmptyRequestNeverMet`).
- Nothing sets the counter of the memory cache: `memory_cache_init`
  (`memory_cache_provider.c:145-182`) initialises the queue and leaves in `cnt`
  what the allocator's memory holds. All runs therefore start from any 64-bit
  counter `c0`. With 4095 to 2^64 - 2 in it the first entry stored is not found,
  although the cache is new (`MemoryCache.DirtyStart`, `MemoryCache.FirstSetFoundIff`).
- Flushing does not reset the counter either: once `c0` and the stored entries
  together reach 4096, no lookup succeeds (`MemoryCache.NeverAnswersAgain`,
  `Detect.CacheGoesSilent`) until the counter wraps around at 2^64, which takes a
  start near 2^64 or 2^64 stored entries; then the cache answers again
  (`MemoryCache.AnswersAgainPastWrap`) and can hold 4097 entries, one more than
  before a wrap (`Detect.QueueIsBounded`, `Detect.QueueOverfull`). What every
  lookup gives, from every counter and with wrap-around, is
  `MemoryCache.AnswerIsEarliest`. The threshold read from the configuration
  (`memory_cache_provider.c:170-175`) is never compared with anything.
- When the response buffer cannot be grown, `default_realloc` frees the old block
  (`dacloud_mem.c:16-28`), the buffer goes on pointing at it, and its release frees
  it again (`dacloud.c:194-201`): exactly when a growth failed
  (`Response.CollectAndRelease`).
- Different header lists can have one cache key, and then the body stored for one
  is returned for the other (`SharedBodies.OtherHeadersBody`). There are three causes.
  A pair that does not fit in the buffer, as none of 1024 bytes does
  (`CacheKeys.LongIsSkipped`), is skipped and leaves no trace
  (`CacheKeys.SkippedLeavesNoTrace`); through it every list of
  two headers or more shares its key with others under the same keys
  (`CacheKeys.SharedStringIff`, `SharedBodies.EveryListSharesBody`). The boundary
  between a key and its value is lost (`CacheKeys.MovedIntoKey`). A value that
  contains the prefix spells another header (`CacheKeys.PrefixInValueSplits`).
  For lists with the same keys in the same order, all of whose pairs fit, the
  buffer is the list's own exactly when no key but the first can be read a few
  bytes earlier or later (`CacheKeys.OwnStringIff`), and values free of the prefix
  are enough to tell any two apart (`CacheKeys.KeysTellHeadersApart`).
- A transfer that completes without a byte leaves no buffer, and the NUL behind the
  body is written through a null pointer (`dacloud.c:339`). The outcome `Fault`
  stands for that; `Detect.FaultIff` says when it happens.

## Model

| member | source | states |
|---|---|---|
| Words.RotlIsSum | import/xxhash.h:1783-1784 | the shift-and-or rotation moves the top digits below the others, with no digit lost |
| Words.Write64 | import/xxhash.h:3666-3670 | reading a word back from where it was written gives the word |
| Xxh64.Finalize | import/xxhash.h:2460-2484 | the three loops over 8, 4 and 1 byte words absorb exactly the first len mod 32 bytes, in order |
| Xxh64.OneShot | import/xxhash.h:2496-2530 | the pointer loop computes the hash function of the whole input |
| Xxh64.StripesAppend | import/xxhash.h:2510-2515 | folding a whole number of stripes first and the rest later is folding everything |
| Xxh64Published.HashIsPublished | import/xxhash.h:2496-2530 | for all inputs and seeds the hash is steps 1 to 7 of the section "XXH64 Algorithm Description" in integer arithmetic: each accumulator a fold over its own words, all four converged in order, then length, remaining input and final mix |
| KnownHashes.KnownXxh64 | import/xxhash.h:2496-2530 | the 39 bytes "Nobody inspects the spammish repetition" with seed 0 hash to 0xFBCEA83C8A378BF1 |
| Xxh64Stream.State.Reset | import/xxhash.h:2574-2585 | nothing absorbed, lanes derived from the seed |
| Xxh64Stream.State.Update | import/xxhash.h:2588-2636 | whatever is buffered, the input is appended to what was absorbed and the invariant holds again |
| Xxh64Stream.State.CompleteBuffer | import/xxhash.h:2606-2615 | topping up the buffer folds one stripe and leaves the rest of the input next |
| Xxh64Stream.State.Shape | import/xxhash.h:2600-2632 | between calls memsize is total mod 32, and the third lane is still the seed below 32 bytes |
| Xxh64Stream.State.Digest | import/xxhash.h:2640-2657 | the digest is the one-shot hash of all bytes absorbed, and the state is not changed |
| Xxh64Stream.HashPrefixes | import/xxhash.h:2574-2657 | every cutting of every input, with a digest after each chunk, gives the one-shot hash of each prefix |
| Xxh32.Finalize | import/xxhash.h:1993-2020 | the compact loops absorb exactly the first len mod 16 bytes |
| Xxh32.OneShot | import/xxhash.h:2082-2113 | the pointer loop computes the hash function of the whole input, the length entering modulo 2^32 |
| Xxh32Published.HashIsPublished | import/xxhash.h:2082-2113 | for all inputs and seeds the hash is the steps of the section "XXH32 Algorithm Description" in integer arithmetic, with the length modulo 2^32 |
| Xxh32Stream.State.Count | import/xxhash.h:2184-2185 | the 32-bit length wraps, yet the sticky flag is set exactly when at least 16 bytes came in all |
| Xxh32Stream.State.Update | import/xxhash.h:2173-2223 | the input is appended to what was absorbed and the invariant holds again |
| Xxh32Stream.State.Digest | import/xxhash.h:2228-2244 | the one-shot hash of all bytes absorbed, at every length, past 2^32 bytes too |
| Xxh32Stream.HashPrefixes | import/xxhash.h:2158-2244 | every cutting of every input gives the one-shot hash of each prefix |
| Xxh64Bijective.RoundBijectiveInAcc | import/xxhash.h:2431-2437 | the round has a two-sided inverse in the accumulator |
| Xxh64Bijective.RoundBijectiveInInput | import/xxhash.h:2431-2437 | the round has a two-sided inverse in the input word |
| Xxh64Bijective.XorshiftUndone | import/xxhash.h:2449-2453 | a word xored with its own shift can be rebuilt, for every shift |
| Xxh64Bijective.AvalancheBijective | import/xxhash.h:2447-2455 | the avalanche has a two-sided inverse on 64-bit words |
| Xxh64Bijective.TailInjectiveInHash | import/xxhash.h:2460-2484 | for a fixed tail the finalisation is one-to-one in the running hash |
| Xxh64Bijective.OneWordChangesTail | import/xxhash.h:2460-2484 | tails that differ within one word leave different running hashes |
| Xxh64Bijective.TailWordSeparates | import/xxhash.h:2496-2530 | inputs of one length that differ in exactly one word of the tail never collide |
| Xxh64Bijective.InjectiveOnOneWord | import/xxhash.h:2532-2551 | on inputs of 1, 4 or 8 bytes equal hashes mean equal inputs, for each seed |
| Xxh64Bijective.InjectiveInSeed | import/xxhash.h:2532-2551 | below 32 bytes equal hashes of one input mean equal seeds |
| Multiply128.NoOverflow | import/xxhash.h:3348-3351 | none of the sums of the grade-school multiplication wraps |
| Multiply128.MultiplyIsExact | import/xxhash.h:3342-3357 | low half plus 2^64 times high half is the exact product |
| Multiply128.FoldIsHalves | import/xxhash.h:3372-3376 | the fold is the exclusive or of the two halves of the exact product, for all operands |
| Xxh3Secret.InitCustomSecret | import/xxhash.h:4230-4292 | the loop writes the secret derived from the seed |
| Xxh3Secret.DeriveZero | import/xxhash.h:4287-4290 | the seed 0 derives the default secret itself |
| Xxh3IsPublished.DeriveIsPublished | import/xxhash.h:4287-4290 | for every seed, each first word of 16 bytes of the derived secret is the default word plus the seed and each second word the default word minus the seed, modulo 2^64 |
| Xxh3IsPublished.OnlyDerive | import/xxhash.h:4287-4290 | no other 192 bytes have these words |
| Xxh3Long.Accumulate | import/xxhash.h:4357-4372 | a run of stripes with consecutive secret positions |
| Xxh3Long.AbsorbToBlockEnd | import/xxhash.h:4389-4392 | a run that reaches the end of the block, then the scramble, is that many steps of the stripe machine |
| Xxh3Long.AbsorbWithinBlock | import/xxhash.h:4394-4398 | a run inside a block is that many steps of the stripe machine |
| Xxh3Long.PositionIsRemainder | import/xxhash.h:4762-4774 | the position in the block is the stripe count modulo the stripes per block |
| Xxh3Long.HashLongInternalLoop | import/xxhash.h:4374-4405 | blocks, last partial block and last stripe leave the accumulators of the stripe machine |
| Xxh3Long.MergeLoop | import/xxhash.h:4415-4439 | the merge of the four accumulator pairs |
| Xxh3Long.HashLongInternal | import/xxhash.h:4445-4461 | the long hash as a function of kernel, secret and input |
| Xxh3IsPublished.AfterIs | import/xxhash.h:4374-4405 | the accumulators after n stripes in closed form: eight integer lanes, the secret position and the scramble given by n modulo the stripes per block |
| Xxh3IsPublished.MergeIs | import/xxhash.h:4415-4439 | the merge is the mixed sum of the start and all four products, each lane xored with its own word of the secret |
| Xxh3IsPublished.LongIsPublished | import/xxhash.h:4445-4461 | for all inputs beyond 240 bytes and all secrets the long hash is the integer formula, initial accumulators and secret offsets as numbers |
| Xxh3Short.Len17To128IsSchedule | import/xxhash.h:3571-3597 | the nested conditionals perform exactly the scheduled 16-byte mixes, in order |
| Xxh3Short.Reads17To128 | import/xxhash.h:3579-3593 | every scheduled read is inside the input and inside the shortest secret |
| Xxh3Short.Reads17To128Cover | import/xxhash.h:3579-3593 | the overlapping reads from both ends touch every byte |
| Xxh3Short.HashLen129To240 | import/xxhash.h:3601-3652 | the two loops and the last read perform exactly the scheduled mixes |
| Xxh3IsPublished.Of9To16Is | import/xxhash.h:3485-3499 | 9 to 16 bytes: the mixed sum of the length, the keyed first word with its bytes reversed, the keyed last word, and the two halves of their product xored |
| Xxh3IsPublished.ShortIsPublished | import/xxhash.h:3446-3652 | up to 240 bytes, for all inputs, secrets and seeds, the hash is the integer formula of its length class |
| Xxh3Short.Reads129To240Cover | import/xxhash.h:3613-3649 | the scheduled reads touch every byte |
| Xxh3Short.LongAccIsSchedule | import/xxhash.h:4374-4405 | the long hash feeds exactly the scheduled stripes |
| Xxh3Short.StripeOffsetsCover | import/xxhash.h:4374-4405 | whole stripes and the last 64 bytes are in bounds and touch every byte |
| Xxh3Injective.RotValue | import/xxhash.h:1783-1784 | n single rotations move the low digits up n places and the top n below them |
| Xxh3Injective.SpreadInjective | import/xxhash.h:3405 | xoring a word with two rotations of itself is one-to-one, for all amounts |
| Xxh3Injective.RrmxmxInjective | import/xxhash.h:3402-3410 | the rrmxmx mix is one-to-one for each length up to eight |
| Xxh3Injective.CombinedValue | import/xxhash.h:3457-3461 | the packed word of 1 to 3 bytes keeps each byte in its own place |
| Xxh3Injective.ShortInputsNeverCollide | import/xxhash.h:3446-3510 | for inputs of one length up to eight bytes, equal hashes mean equal inputs, for each secret and seed |
| Xxh3Injective.Avalanche3Injective | import/xxhash.h:3389-3395 | the XXH3 avalanche is one-to-one |
| Xxh3Injective.LastWordSeparates | import/xxhash.h:3485-3499 | inputs of one length from 9 to 16 bytes whose first word cancels its key have equal hashes exactly if they are equal |
| Xxh3Injective.FirstWordSeparates | import/xxhash.h:3485-3499 | so have inputs whose last word cancels its key |
| Xxh3IsPublished.OneShotIsPublished | import/xxhash.h:4535-4586 | in all four variants, for every input, secret and seed, the hash with the scalar kernel is the formula of its length, with the secret the variant prescribes |
| Xxh3.GeneratedSecretGivesSeeded | import/xxhash.h:1184-1187 | with the generated secret the combined variant gives exactly the seeded hash, at every length and for every seed |
| Xxh3.SeedZeroIsDefault | import/xxhash.h:4501-4511 | the seeded variant with seed 0 is the unseeded one, at every length |
| Xxh3.CombinedIsSeedOrSecret | import/xxhash.h:4580-4585 | the combined variant depends on the seed alone up to 240 bytes and on the secret alone beyond |
| Xxh3.DocumentedExceptAt240 | import/xxhash.h:1171-1175 | the code does as its comment says at every length but 240, where it gives one hash for all secrets |
| Xxh3At240.SecretsDiffer | import/xxhash.h:3601-3652 | two secrets of 136 bytes with different hashes of 240 zero bytes |
| Xxh3At240.DiffersAt240 | import/xxhash.h:1171-1175 | on 240 zero bytes and seed 0 code and comment differ for one of two given secrets |
| Xxh3At240.AsDocumentedIff | import/xxhash.h:1171-1175 | code and comment agree on all inputs of a length, for all secrets and seeds, exactly if the length is not 240 |
| Xxh3.AgreeingKernels | import/xxhash.h:4445-4461 | kernels equal on single stripes give equal hashes in all modes |
| Xxh3Kernels.AccumulateScalar | import/xxhash.h:4195-4211 | the in-place loop with its swap of neighbouring lanes computes each lane once |
| Xxh3Kernels.ScrambleScalar | import/xxhash.h:4213-4228 | the in-place scramble, lane by lane |
| Xxh3Kernels.AccumulateStepIsScalar | import/xxhash.h:3942-3959 | one SSE2 step does to two lanes what the scalar code does |
| Xxh3Kernels.ProductFromHalves | import/xxhash.h:3986-3989 | the product of the low half plus the shifted product of the high half is the 64-bit product |
| Xxh3Kernels.ScrambleStepIsScalar | import/xxhash.h:3975-3990 | one SSE2 scramble step equals the scalar scramble of two lanes |
| Xxh3Kernels.RunAccumulateSse2 | import/xxhash.h:3930-3963 | the SSE2 loop, in place |
| Xxh3Kernels.RunScrambleSse2 | import/xxhash.h:3965-3992 | the SSE2 scramble loop, in place |
| Xxh3Kernels.InitCustomSecretSse2 | import/xxhash.h:3994-4025 | adding the seed vector derives the same secret as the scalar code |
| Xxh3Kernels.RunAccumulateAvx2 | import/xxhash.h:3825-3857 | the AVX2 loop, in place |
| Xxh3Kernels.RunScrambleAvx2 | import/xxhash.h:3859-3886 | the AVX2 scramble loop, in place |
| Xxh3Kernels.VectorKernelsAgree | import/xxhash.h:3825-3992 | both vector kernels equal the scalar kernel on every accumulator, stripe and secret |
| Xxh3Kernels.HashIsPortable | import/xxhash.h:4300-4336 | the hash is the same whichever kernel is compiled in |
| Xxh3Stream.ConsumeStripes | import/xxhash.h:4753-4775 | any stripes up to a block, wherever the block stands, are that many steps of the stripe machine |
| Xxh3Stream.State.constructor | import/xxhash.h:4657-4663 | a new state has no memoised secret that could be wrong |
| Xxh3Stream.State.ResetInternal | import/xxhash.h:4679-4704 | the fields after the reset, for any secret size, with the limit wrapping below 64 |
| Xxh3Stream.State.Reset | import/xxhash.h:4707-4713 | ready to stream in the default mode |
| Xxh3Stream.State.ResetWithSecret | import/xxhash.h:4716-4724 | succeeds exactly for a secret of at least 136 bytes; the state is overwritten before the check |
| Xxh3Stream.State.ResetWithSeed | import/xxhash.h:4727-4736 | the derived secret is the given seed's, also when the rebuild is skipped |
| Xxh3Stream.State.ResetWithSecretAndSeed | import/xxhash.h:4739-4748 | succeeds exactly for a secret of at least 136 bytes; a rejected call changes no field, and a stream under way goes on |
| Xxh3Stream.State.Between | import/xxhash.h:4785-4897 | the stream invariant between calls, in the terms of the fields |
| Xxh3Stream.State.LargeInput | import/xxhash.h:4838-4867 | joining the block, whole blocks and the last partial block consume all but the last 1 to 64 bytes |
| Xxh3Stream.State.MediumInput | import/xxhash.h:4867-4883 | four stripes at a time, leaving the last 1 to 256 bytes |
| Xxh3Stream.State.Update | import/xxhash.h:4785-4897 | the input is appended to what was absorbed and the invariant holds again |
| Xxh3Stream.State.DigestLong | import/xxhash.h:4909-4940 | the accumulators of the whole input, with the last stripe taken from the buffer or spliced from its two ends |
| Xxh3Stream.State.Digest | import/xxhash.h:4944-4959 | the one-shot hash, in the mode of the last reset, of everything absorbed since; the state is not changed |
| Xxh3Stream.RunAll | import/xxhash.h:4679-4959 | one state reused over any run of mixed resets, with refused ones in between: every digest, also between updates, is the one-shot hash of what came since the last accepted reset |
| Canonical.CanonicalIsBigEndian64 | import/xxhash.h:2663-2668 | the canonical bytes are the big-endian digits on machines of both byte orders |
| Canonical.CanonicalIsBigEndian32 | import/xxhash.h:2263-2268 | the canonical bytes are the big-endian digits on machines of both byte orders |
| Canonical.RoundTrips | import/xxhash.h:5475-5495 | 32, 64 and 128 bit hashes come back, whoever wrote and whoever reads |
| Canonical.LexicographicIsNumeric | import/xxhash.h:2246-2262 | the byte order of canonical forms is the order of the values |
| Canonical.CmpIsCanonicalOrder | import/xxhash.h:5458-5470 | XXH128_cmp has the sign of the byte-wise comparison of the canonical forms |
| Arena.StepCoversRequest | dacloud_mem.c:68 | the rounded step covers the request exactly up to 2^32 - 4 bytes, and is a multiple of four |
| Arena.BumpStaysInside | dacloud_mem.c:62-75 | in a chunk of size 0 or 1 modulo 4 the cursor stays inside and aligned |
| Arena.CursorOvershoots | dacloud_mem.c:67-70 | for any other size a run of small requests takes the cursor past the end |
| Arena.PastTheEnd | dacloud_mem.c:67-70 | once the cursor is past the end the room wraps around: requests up to nearly 2^64 bytes are all met there and no chunk is linked |
| Arena.CursorStaysInsideIff | dacloud_mem.c:62-75 | the cursor never passes the end, over all runs, exactly for sizes 0 and 1 modulo 4 |
| Arena.GrowsAtMostOnce | dacloud_mem.c:123-145 | what an allocation does to the chain, for all inputs; if the chain grows, one new chunk serves the request exactly when the grown size is more than the request |
| Arena.EnoughIff | dacloud_mem.c:131 | the grown size is more than the request exactly for a chunk of at least one byte and a sum that does not wrap |
| Arena.WrappedRequest | dacloud_mem.c:131-141 | a request on a chunk of 4096 bytes for which the sum wraps and two new chunks are both too small |
| Arena.WrapNeverEnds | dacloud_mem.c:131-141 | for each chunk size there is a request that links chunks of the same size until memory is out |
| Arena.BeyondLimitNeverMet | dacloud_mem.c:131-141 | a request of LONG_MAX bytes or more that does not fit in the current chunk is never met |
| Arena.EmptyChunkGrowsTwice | dacloud_mem.c:131-141 | on an empty chunk the first new chunk is never enough for a non-empty request, and the second is exactly if the sum does not wrap |
| Arena.EmptyRequestNeverMet | dacloud_mem.c:131-141 | an empty request on an empty chunk recurses until the backing allocator fails |
| ArenaRuns.AllocateKeepsTidy | dacloud_mem.c:123-145 | one allocation keeps all regions in bounds, aligned and apart, given a condition on the state and the request before the call |
| ArenaRuns.SizesStayGoodIff | dacloud_mem.c:131-141 | that condition is exact: chunk sizes stay good exactly when it holds before the call |
| ArenaRuns.StaysGoodOnce | dacloud_mem.c:131-141 | for a sum that does not wrap the condition is that a + a/2 + needed is 0 or 1 modulo 4, if the chain grows |
| ArenaRuns.RunSizesGoodIff | dacloud_mem.c:123-145 | over any run all chunk sizes are good exactly when the first is and each request, looked at before it is made, keeps them so |
| ArenaRuns.RunIsTidy | dacloud_mem.c:123-145 | over any such run, with a first size up to LONG_MAX, all regions ever handed out are in bounds, aligned and apart |
| ArenaRuns.ConsecutiveApartIff | dacloud_mem.c:67-70 | two regions in a row share no byte exactly when the first has at most 2^32 - 4 bytes |
| ArenaLimits.SafeForAllRunsIff | dacloud_mem.c:62-145 | no run of requests up to 2^32 - 4 bytes is handed bytes outside its chunk exactly when the first size is 0 or 1 modulo 4 and too large to grow |
| ArenaLimits.RunIsGrowthChain | dacloud_mem.c:123-145 | over any run of requests up to 2^62 bytes each capacity is a + a/2 + needed of the one before |
| ArenaLimits.ChunkCountIsLogarithmic | dacloud_mem.c:123-145 | for the chunks of any such run, n growths multiply the capacity by at least (3/2)^n |
| ArenaLimits.AtMost108Chunks | dacloud_mem.c:123-145 | no such run makes more than 108 chunks |
| ArenaChain.Mem.Alloc | dacloud_mem.c:62-75 | the cursor field moves as the arithmetic says |
| ArenaChain.Create | dacloud_mem.c:103-121 | both blocks or none, for sizes up to LONG_MAX: the header, already allocated, is freed when the chunk fails |
| ArenaChain.Pool.Obtain | dacloud_mem.c:123-145 | the linked chunks become what the arithmetic says; the chain grows at its end and stays linked from the root |
| ArenaChain.Pool.AllocApart | dacloud_mem.c:123-145 | a new region leaves every string in place and, in an arena that is ready for the request, is apart from them |
| ArenaChain.Pool.Strdup | dacloud_mem.c:147-160 | the string is in its region, and all strings copied before are unchanged; the region is outside its chunk exactly when the cursor had passed the end and the request is served there |
| ArenaChain.Pool.Free | dacloud_mem.c:162-172 | every header and chunk of the chain is freed exactly once, and nothing else |
| ArenaChain.Use | dacloud_mem.c:103-160 | created and used for any requests, the arena is what the run on values gives; after a careful run all is in bounds and apart and all strings put in are there, in order |
| ArenaChain.Life | dacloud_mem.c:103-172 | created, used for any requests, freed: the live blocks are those from before |
| HeaderList.RunIsWellKeyed | dacloud_header_property.c:56-82 | over any run of adds the prefixed keys are pairwise distinct and are prefix plus original key |
| HeaderList.FirstAddWins | dacloud_header_property.c:76-81 | the first value added under a key is the one in the list |
| HeaderList.HeaderHead.Add | dacloud_header_property.c:56-100 | a new key becomes the head and the cache key is recomputed; a duplicate changes neither list nor cache key |
| HeaderList.HashList | dacloud_header_property.c:84-96 | the in-place buffer holds the greedy concatenation and zeros, and its hash is returned |
| HeaderList.NothingSkippedIff | dacloud_header_property.c:84-94 | no pair is skipped exactly when all of them fit into 1023 bytes |
| HeaderList.PaddedInjective | dacloud_header_property.c:96 | hashing the zero-padded buffer loses nothing of the string |
| HeaderList.KeyIsHash | dacloud_header_property.c:97 | cache keys are equal exactly when the 64-bit hashes are |
| HeaderList.DecimalIff | dacloud_header_property.c:97 | the decimal form is the only string of digits without a leading zero that has the value |
| HeaderList.DecimalFits | dacloud_header_property.c:97-98 | the decimal form has at most 20 digits |
| CacheKeys.PairByPair | dacloud_header_property.c:82-94 | header by header the buffer gets the key and then the value, exactly if both fit in the 1023 bytes with what is there |
| CacheKeys.KeyIsPublished | dacloud_header_property.c:82-96 | if all pairs fit, the key is the published XXH64 of keys and values in list order and zeros up to 1024 bytes |
| CacheKeys.LongIsSkipped | dacloud_header_property.c:84-87 | a pair of 1024 bytes or more is skipped wherever it stands, in every list |
| CacheKeys.SkippedLeavesNoTrace | dacloud_header_property.c:84-94 | a pair that does not fit where it stands can be left out, in every list, without a change of the cache key |
| CacheKeys.SkippedValuesShareKey | dacloud_header_property.c:84-97 | lists that differ in a skipped header only have one cache key |
| CacheKeys.MovedIntoKey | dacloud_header_property.c:88-93 | in every list, bytes moved from the front of a value to the end of its key keep the cache key |
| CacheKeys.PrefixInValueSplits | dacloud_header_property.c:88-93 | in every list, a value that contains the prefix can be split into two headers with the same cache key |
| CacheKeys.KeysTellHeadersApart | dacloud_header_property.c:84-96 | lists with the same keys in order, all pairs fitting and no prefix in a value, fill the buffer alike only if they are equal |
| CacheKeys.OwnStringIff | dacloud_header_property.c:84-96 | a list whose pairs fit has a buffer of its own among such lists with its keys exactly when no key but the first can be read earlier or later |
| CacheKeys.SharedStringIff | dacloud_header_property.c:84-96 | without the condition that pairs fit, a list shares its string with another with the same keys exactly if it has two headers or one that is skipped |
| CacheKeys.DifferentHeadersOneKey | dacloud_header_property.c:84-97 | every list of two headers or more has the cache key of other headers under the same keys |
| MemoryCache.Cache.constructor | memory_cache_provider.c:145-182 | a new cache has an empty queue and any counter |
| MemoryCache.Cache.RemoveAll | memory_cache_provider.c:131-138 | the queue is emptied; the counter stays |
| MemoryCache.Cache.Get | memory_cache_provider.c:184-212 | the first match, or a flush and a miss at the threshold |
| MemoryCache.Cache.Set | memory_cache_provider.c:214-238 | the entry goes to the tail and is counted, or nothing changes |
| MemoryCache.EarliestIff | memory_cache_provider.c:184-238 | the earliest value of a history, and its absence, by the index of the first step that sets the key |
| MemoryCache.QueueKeepsEarliest | memory_cache_provider.c:184-238 | from any counter the queue finds the earliest value set since the last flush |
| MemoryCache.AnswerIsEarliest | memory_cache_provider.c:184-238 | after any history from any counter a lookup gives the earliest value set since the last flush, exactly while the wrapping counter is below 4096 |
| MemoryCache.AnswerUntilWrap | memory_cache_provider.c:184-238 | until the counter wraps around, it gives the earliest value ever set, exactly while the start and the stored entries together are below 4096 |
| MemoryCache.NeverAnswersAgain | memory_cache_provider.c:131-138 | once these reach 4096, no later history before the wrap makes a lookup succeed |
| MemoryCache.FirstSetFoundIff | memory_cache_provider.c:145-182 | the first value stored in a new cache is found exactly if the word of the counter held less than 4095 or 2^64 - 1 |
| MemoryCache.DirtyStart | memory_cache_provider.c:145-182 | with 4096 left in the word the first value stored is not found, with 0 it is |
| MemoryCache.AnswersAgainPastWrap | memory_cache_provider.c:195-233 | from 2^64 - 2 a cache that did not answer answers again past the wrap |
| MemoryCache.SetThenGet | memory_cache_provider.c:184-238 | a value just set is found exactly when its key is new since the last flush and the counter is below the threshold |
| MemoryCache.QueueIsMap | memory_cache_provider.c:200-208 | searching the queue is looking up a first-write-wins map |
| Response.DataReader.Write | dacloud.c:249-268 | the pieces are appended in order, with room for the NUL; a failed growth leaves the pointer to a block that is gone |
| Response.DataReader.Release | dacloud.c:194-201 | the block is freed, for the second time exactly if the pointer was dangling |
| Response.Collect | dacloud.c:249-268 | the body is the concatenation of all pieces unless a growth fails, which is told exactly |
| Response.CollectAndRelease | dacloud.c:249-268 | over a transfer and its release the block is freed twice exactly when a growth failed |
| Response.Receive | dacloud.c:249-268 | with memory enough, the concatenation of all pieces; without a piece there is no buffer |
| Detect.DetectBody | dacloud.c:305-364 | one call: the hit, or what the first server to complete a transfer decides; and the cache afterwards |
| Detect.FreshIff | dacloud.c:326-364 | failover: what the servers give is decided by the first that completes a transfer, whatever failed before it: a fault without a piece, the C string if it is an object, else a failure; and a failure if none completes one |
| Detect.FirstOfferedIff | dacloud.c:305-364 | the object offered first for a key is that of the first call, by index, in which the servers give one |
| Detect.RunKeepsInv | dacloud.c:305-364 | over any run from any counter the keys are distinct and every stored body is an object from the first reachable server of a call with its key |
| Detect.QueueIsBounded | memory_cache_provider.c:184-238 | at most 4097 entries are queued, and at most 4096 until the counter wraps around |
| Detect.QueueOverfull | memory_cache_provider.c:184-238 | from a counter of 2^64 - 1 the 4097 entries are reached |
| Detect.CacheIsTransparent | dacloud.c:305-364 | from any counter each call gives the first object offered for its key since the last flush, exactly while the wrapping counter is below 4096, otherwise what the first server to complete a transfer decides now |
| Detect.TransparentUntilWrap | dacloud.c:305-364 | until the counter wraps around, it is the first object ever offered, exactly while the start and the stored bodies together are below 4096 |
| Detect.HitWasStored | dacloud.c:305-310 | a hit is an object that an earlier call with the same key stored from its first reachable server |
| Detect.CacheGoesSilent | dacloud.c:305-364 | once start and stored bodies reach 4096, every call before the wrap goes to the servers |
| Detect.FaultIff | dacloud.c:338-340 | from any counter a call faults exactly when the cache does not answer and the first reachable server sends nothing |
| SharedBodies.OtherHeadersBody | dacloud.c:305-310 | for all two heads, empty ones included, the body offered for the first is returned for the second exactly when their keys are equal and the counter is below the threshold |
| SharedBodies.AnswersIff | memory_cache_provider.c:195 | that is so exactly for a start below 4095 or at 2^64 - 1 |
| SharedBodies.SkippedHeaderSharesBody | dacloud.c:305-310 | requests that differ in a skipped header only are given one body |
| SharedBodies.LongHeaderSharesBody | dacloud.c:305-310 | so are, in every list, requests that differ in a header of 1024 bytes or more only |
| SharedBodies.EveryListSharesBody | dacloud.c:305-310 | for every list of two headers or more there are other values that are given its body |
| SharedBodies.SharedOnlyByCollision | dacloud.c:305-310 | lists that fit, with the same keys and no prefix in a value, are given each other's bodies only if different buffers collide under XXH64 |

## Left out

- Null pointers: a null state, a null input and a null arena are not modelled; a null input does what an empty input does. A null secret is modelled.
- Secrets are byte values: that the caller keeps the memory behind a secret unchanged while a state refers to it is taken for granted, as the interface demands.
- Sizes of single inputs: `memsize + len` is computed without wrap-around, since no object in memory is that close to 2^64 bytes.
- XXH64 and XXH3 digests of 2^64 or more bytes in all: the one-shot hash takes no such length.
- XXH3 accumulators are kept in the state during an update; the variant that copies them to the stack and back (`import/xxhash.h:4797-4804`) is the same computation.
- The 128-bit variants of XXH3, and `XXH3_generateSecret`, which needs them; only the comparison and canonical form of 128-bit hashes are modelled.
- The unrolled switch of XXH32_finalize, the NEON, VSX and AVX512 kernels, prefetching and compiler guards.
- `XXH3_initCustomSecret_avx2` is the SSE2 derivation two vectors at a time; only the SSE2 loop is modelled.
- `XXH_alignedMalloc` and `XXH_alignedFree`.
- ArenaLimits.SafeForAllRunsIff: is for first sizes up to LONG_MAX, since no block of memory is larger.
- ArenaRuns.RunIsTidy: is for first sizes up to LONG_MAX, since no block of memory is larger; the wrap of `sizeof(*dcm) + needed` (`dacloud_mem.c:51`) needs more.
- ArenaChain.Create: is for sizes up to LONG_MAX, for the same reason.
- ArenaLimits.AtMost108Chunks: is for requests up to 2^62 bytes; for requests near 2^64 the count has no bound (`Arena.WrapNeverEnds`).
- ArenaChain.Pool.Strdup: a copy that leaves its chunk is reported and not carried out, since the memory behind the chunk is not modelled.
- Detect.DetectBody: is for calls in which no allocation fails; a failed growth of the response buffer is in `Response`.
- Response.DataReader.Write: the first allocation of a transfer, which the code does not check, is taken to succeed; a caller's own reallocator that keeps the block on failure is not modelled.
- In `da_cloud_header_add` only the first allocation is checked by the code; failure of the other two is not modelled.
- Transfers, server ranking, URL building, parsing the body into properties, property lookup, logging and configuration files.
- The file, memcached and GLib cache providers, and the language wrappers.
