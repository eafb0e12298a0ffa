/**
 XXH3 on inputs of at most 240 bytes. The middle lengths are sums of 16-byte
 mixes; the sums are also given as schedules of (input offset, secret offset),
 and every schedule stays in bounds and covers every input byte.
 */
module Xxh3Short {
  import opened Words
  import opened Xxh64
  import opened Multiply128
  import opened Xxh3Long

  const MIDSIZE_MAX: nat := 240
  const MIDSIZE_STARTOFFSET: nat := 3
  const MIDSIZE_LASTOFFSET: nat := 17

  // ---------- 0 to 16 bytes ----------

  /** The 1 to 3 bytes and the length, in one 32-bit word. */
  function Combined(input: seq<u8>): u32
    requires 1 <= |input| <= 3
  {
    var c1: int, c2: int, c3: int := input[0], input[|input| / 2], input[|input| - 1];
    Or32(Or32(Or32(c1 * 0x1_0000, c2 * 0x100_0000), c3), |input| * 0x100)
  }

  function Len1To3(input: seq<u8>, secret: Secret, seed: u64): u64
    requires 1 <= |input| <= 3
  {
    var bitflip := Add64(Xor32(Word32(secret, 0), Word32(secret, 4)), seed);
    Avalanche(Xor64(Combined(input), bitflip))
  }

  function Rrmxmx(h: u64, len: nat): u64
  {
    var a := Xor64(h, Xor64(Rotl64(h, 49), Rotl64(h, 24)));
    var b := Mul64(a, 0x9FB21C651E98DF25);
    var c := Xor64(b, Add64(Shr64(b, 35), len));
    Xorshift64(Mul64(c, 0x9FB21C651E98DF25), 28)
  }

  function Input64(input: seq<u8>): u64
    requires 4 <= |input| <= 8
  {
    Add64(Word32(input, |input| - 4), Word32(input, 0) * M32)
  }

  function Len4To8(input: seq<u8>, secret: Secret, seed: u64): u64
    requires 4 <= |input| <= 8
  {
    var seed' := Xor64(seed, Swap32(seed % M32) * M32);
    var bitflip := Sub64(Xor64(Word64(secret, 8), Word64(secret, 16)), seed');
    Rrmxmx(Xor64(Input64(input), bitflip), |input|)
  }

  function Len9To16(input: seq<u8>, secret: Secret, seed: u64): u64
    requires 9 <= |input| <= 16
  {
    var bitflip1 := Add64(Xor64(Word64(secret, 24), Word64(secret, 32)), seed);
    var bitflip2 := Sub64(Xor64(Word64(secret, 40), Word64(secret, 48)), seed);
    var inputLo := Xor64(Word64(input, 0), bitflip1);
    var inputHi := Xor64(Word64(input, |input| - 8), bitflip2);
    Avalanche3(Add64(Add64(Add64(|input|, Swap64(inputLo)), inputHi), Mul128Fold64(inputLo, inputHi)))
  }

  function Len0To16(input: seq<u8>, secret: Secret, seed: u64): u64
    requires |input| <= 16
  {
    if |input| > 8 then Len9To16(input, secret, seed)
    else if |input| >= 4 then Len4To8(input, secret, seed)
    else if |input| > 0 then Len1To3(input, secret, seed)
    else Avalanche(Xor64(seed, Xor64(Word64(secret, 56), Word64(secret, 64))))
  }

  // ---------- 17 to 240 bytes ----------

  /** XXH3_mix16B, reading 16 bytes of input at i and 16 bytes of secret at j. */
  function Mix16(input: seq<u8>, i: nat, secret: Secret, j: nat, seed: u64): u64
    requires i + 16 <= |input| && j + 16 <= |secret|
  {
    Mul128Fold64(Xor64(Word64(input, i), Add64(Word64(secret, j), seed)),
                 Xor64(Word64(input, i + 8), Sub64(Word64(secret, j + 8), seed)))
  }

  /** XXH3_len_17to128_64b */
  function Len17To128(input: seq<u8>, secret: Secret, seed: u64): u64
    requires 16 < |input| <= 128
  {
    var len := |input|;
    var acc0 := Mul64(len, PRIME64_1);
    var acc1 :=
      if len > 96 then Add64(Add64(acc0, Mix16(input, 48, secret, 96, seed)), Mix16(input, len - 64, secret, 112, seed))
      else acc0;
    var acc2 :=
      if len > 64 then Add64(Add64(acc1, Mix16(input, 32, secret, 64, seed)), Mix16(input, len - 48, secret, 80, seed))
      else acc1;
    var acc3 :=
      if len > 32 then Add64(Add64(acc2, Mix16(input, 16, secret, 32, seed)), Mix16(input, len - 32, secret, 48, seed))
      else acc2;
    Avalanche3(Add64(Add64(acc3, Mix16(input, 0, secret, 0, seed)), Mix16(input, len - 16, secret, 16, seed)))
  }

  /** One 16-byte mix: where it reads the input and where the secret. */
  datatype Read = Read(input: nat, secret: nat)

  ghost predicate InBounds(plan: seq<Read>, len: nat)
  {
    forall r | r in plan :: r.input + 16 <= len && r.secret + 16 <= SECRET_SIZE_MIN
  }

  ghost predicate Touches(plan: seq<Read>, i: nat, b: nat)
  {
    i < |plan| && plan[i].input <= b < plan[i].input + 16
  }

  ghost predicate Covers(plan: seq<Read>, len: nat)
  {
    forall b: nat | b < len :: Touched(plan, b)
  }

  ghost predicate Touched(plan: seq<Read>, b: nat)
  {
    exists i: nat :: Touches(plan, i, b)
  }

  /** Mixes in the order of the schedule. */
  function MixAll(acc: u64, input: seq<u8>, secret: Secret, seed: u64, plan: seq<Read>): u64
    requires forall r | r in plan :: r.input + 16 <= |input| && r.secret + 16 <= |secret|
  {
    if plan == [] then acc
    else
      var r := plan[|plan| - 1];
      Add64(MixAll(acc, input, secret, seed, plan[..|plan| - 1]), Mix16(input, r.input, secret, r.secret, seed))
  }

  /** The reads of the 17 to 128 byte hash, outer bytes last. */
  function Reads17To128(len: nat): (plan: seq<Read>)
    requires 16 < len <= 128
    ensures InBounds(plan, len)
  {
    (if len > 96 then [Read(48, 96), Read(len - 64, 112)] else [])
    + (if len > 64 then [Read(32, 64), Read(len - 48, 80)] else [])
    + (if len > 32 then [Read(16, 32), Read(len - 32, 48)] else [])
    + [Read(0, 0), Read(len - 16, 16)]
  }

  lemma MixTwo(acc: u64, input: seq<u8>, secret: Secret, seed: u64, before: seq<Read>, a: Read, b: Read)
    requires forall r | r in before + [a, b] :: r.input + 16 <= |input| && r.secret + 16 <= |secret|
    ensures MixAll(acc, input, secret, seed, before + [a, b]) ==
            Add64(Add64(MixAll(acc, input, secret, seed, before), Mix16(input, a.input, secret, a.secret, seed)),
                  Mix16(input, b.input, secret, b.secret, seed))
  {
    hide Add64, Mix16;
    var all := before + [a, b];
    assert all[..|all| - 1] == before + [a];
    assert (before + [a])[..|before|] == before;
  }

  /** The nested conditionals of the code perform exactly the scheduled reads. */
  lemma Len17To128IsSchedule(input: seq<u8>, secret: Secret, seed: u64)
    requires 16 < |input| <= 128
    ensures Len17To128(input, secret, seed) ==
            Avalanche3(MixAll(Mul64(|input|, PRIME64_1), input, secret, seed, Reads17To128(|input|)))
  {
    hide Add64, Mix16, Mul64, Avalanche3;
    var len := |input|;
    var acc := Mul64(len, PRIME64_1);
    var r1 := if len > 96 then [Read(48, 96), Read(len - 64, 112)] else [];
    var r2 := if len > 64 then r1 + [Read(32, 64), Read(len - 48, 80)] else r1;
    var r3 := if len > 32 then r2 + [Read(16, 32), Read(len - 32, 48)] else r2;
    assert Reads17To128(len) == r3 + [Read(0, 0), Read(len - 16, 16)];
    if len > 96 {
      assert r1 == [] + r1;
      MixTwo(acc, input, secret, seed, [], r1[0], r1[1]);
    }
    if len > 64 {
      MixTwo(acc, input, secret, seed, r1, Read(32, 64), Read(len - 48, 80));
    }
    if len > 32 {
      MixTwo(acc, input, secret, seed, r2, Read(16, 32), Read(len - 32, 48));
    }
    MixTwo(acc, input, secret, seed, r3, Read(0, 0), Read(len - 16, 16));
  }

  lemma Reads17To128Cover(len: nat)
    requires 16 < len <= 128
    ensures Covers(Reads17To128(len), len)
  {
    var plan := Reads17To128(len);
    forall b: nat | b < len
      ensures Touched(plan, b)
    {
      var n := |plan|;
      // from the two ends of the input inwards, the pairs are listed from the last to the first
      var pair := if b < 16 || b >= len - 16 then 1 else if b < 32 || b >= len - 32 then 2
      else if b < 48 || b >= len - 48 then 3 else 4;
      var i := if b < 16 * pair then n - 2 * pair else n - 2 * pair + 1;
      assert Touches(plan, i, b);
    }
  }

  /** The reads of the 129 to 240 byte hash before its middle avalanche. */
  function FirstReads(n: nat): (plan: seq<Read>)
    requires n <= 8
    ensures |plan| == n
    ensures InBounds(plan, 128)
    ensures forall i | 0 <= i < n :: plan[i] == Read(16 * i, 16 * i)
  {
    if n == 0 then [] else FirstReads(n - 1) + [Read(16 * (n - 1), 16 * (n - 1))]
  }

  /** ... and after it, round 8 to round n - 1. */
  function LaterReads(n: nat): (plan: seq<Read>)
    requires 8 <= n <= 15
    ensures |plan| == n - 8
    ensures InBounds(plan, 16 * n)
    ensures forall i | 0 <= i < n - 8 :: plan[i] == Read(16 * (i + 8), 16 * i + 3)
  {
    if n == 8 then [] else LaterReads(n - 1) + [Read(16 * (n - 1), 16 * (n - 1 - 8) + MIDSIZE_STARTOFFSET)]
  }

  function LastRead(len: nat): Read
    requires 128 < len <= 240
  {
    Read(len - 16, SECRET_SIZE_MIN - MIDSIZE_LASTOFFSET)
  }

  function Reads129To240(len: nat): (plan: seq<Read>)
    requires 128 < len <= 240
    ensures InBounds(plan, len)
  {
    FirstReads(8) + LaterReads(len / 16) + [LastRead(len)]
  }

  function Len129To240(input: seq<u8>, secret: Secret, seed: u64): u64
    requires 128 < |input| <= 240
  {
    var acc := Avalanche3(MixAll(Mul64(|input|, PRIME64_1), input, secret, seed, FirstReads(8)));
    Avalanche3(MixAll(acc, input, secret, seed, LaterReads(|input| / 16) + [LastRead(|input|)]))
  }

  lemma Reads129To240Cover(len: nat)
    requires 128 < len <= 240
    ensures Covers(Reads129To240(len), len)
  {
    var plan, n := Reads129To240(len), len / 16;
    forall b: nat | b < len
      ensures Touched(plan, b)
    {
      if b < 128 {
        assert plan[b / 16] == FirstReads(8)[b / 16];
        assert Touches(plan, b / 16, b);
      } else if b < 16 * n {
        assert plan[b / 16] == LaterReads(n)[b / 16 - 8];
        assert Touches(plan, b / 16, b);
      } else {
        assert plan[|plan| - 1] == LastRead(len);
        assert Touches(plan, |plan| - 1, b);
      }
    }
  }

  lemma StartSchedules(acc: u64, input: seq<u8>, secret: Secret, seed: u64)
    requires 128 < |input|
    ensures MixAll(acc, input, secret, seed, FirstReads(0)) == acc
    ensures MixAll(acc, input, secret, seed, LaterReads(8)) == acc
  {
  }

  /** One more mix of the first eight. */
  lemma FirstStep(acc: u64, input: seq<u8>, secret: Secret, seed: u64, i: nat)
    requires 128 < |input| && i < 8
    ensures MixAll(acc, input, secret, seed, FirstReads(i + 1)) ==
            Add64(MixAll(acc, input, secret, seed, FirstReads(i)), Mix16(input, 16 * i, secret, 16 * i, seed))
  {
    hide Add64, Mix16;
    assert FirstReads(i + 1)[..i] == FirstReads(i);
  }

  /** One more mix after the middle avalanche. */
  lemma LaterStep(acc: u64, input: seq<u8>, secret: Secret, seed: u64, i: nat)
    requires 128 < |input| <= 240 && 8 <= i < |input| / 16
    ensures MixAll(acc, input, secret, seed, LaterReads(i + 1)) ==
            Add64(MixAll(acc, input, secret, seed, LaterReads(i)),
                  Mix16(input, 16 * i, secret, 16 * (i - 8) + MIDSIZE_STARTOFFSET, seed))
  {
    hide Add64, Mix16;
    assert LaterReads(i + 1)[..i - 8] == LaterReads(i);
  }

  /** The last 16 bytes. */
  lemma LastStep(acc: u64, input: seq<u8>, secret: Secret, seed: u64)
    requires 128 < |input| <= 240
    ensures MixAll(acc, input, secret, seed, LaterReads(|input| / 16) + [LastRead(|input|)]) ==
            Add64(MixAll(acc, input, secret, seed, LaterReads(|input| / 16)),
                  Mix16(input, |input| - 16, secret, SECRET_SIZE_MIN - MIDSIZE_LASTOFFSET, seed))
  {
    hide Add64, Mix16;
    var plan := LaterReads(|input| / 16) + [LastRead(|input|)];
    assert plan[..|plan| - 1] == LaterReads(|input| / 16);
  }

  /** XXH3_len_129to240_64b: the two loops perform the scheduled reads. */
  method HashLen129To240(input: seq<u8>, secret: Secret, seed: u64) returns (h: u64)
    requires 128 < |input| <= 240
    ensures h == Len129To240(input, secret, seed)
  {
    hide Add64, Mix16, Mul64, Avalanche3, MixAll, FirstReads, LaterReads;
    var acc := Mul64(|input|, PRIME64_1);
    StartSchedules(acc, input, secret, seed);
    var nbRounds := |input| / 16;
    for i := 0 to 8
      invariant acc == MixAll(Mul64(|input|, PRIME64_1), input, secret, seed, FirstReads(i))
    {
      acc := Add64(acc, Mix16(input, 16 * i, secret, 16 * i, seed));
      FirstStep(Mul64(|input|, PRIME64_1), input, secret, seed, i);
    }
    acc := Avalanche3(acc);
    ghost var middle := acc;
    StartSchedules(acc, input, secret, seed);
    for i := 8 to nbRounds
      invariant acc == MixAll(middle, input, secret, seed, LaterReads(i))
    {
      acc := Add64(acc, Mix16(input, 16 * i, secret, 16 * (i - 8) + MIDSIZE_STARTOFFSET, seed));
      LaterStep(middle, input, secret, seed, i);
    }
    LastStep(middle, input, secret, seed);
    acc := Add64(acc, Mix16(input, |input| - 16, secret, SECRET_SIZE_MIN - MIDSIZE_LASTOFFSET, seed));
    h := Avalanche3(acc);
  }

  /** XXH3_64bits_internal on at most 240 bytes. */
  function HashShort(input: seq<u8>, secret: Secret, seed: u64): u64
    requires |input| <= MIDSIZE_MAX
  {
    if |input| <= 16 then Len0To16(input, secret, seed)
    else if |input| <= 128 then Len17To128(input, secret, seed)
    else Len129To240(input, secret, seed)
  }

  // ---------- more than 240 bytes ----------

  /** Where the long hash reads its 64-byte stripes: whole stripes, then the last 64 bytes. */
  function StripeOffsets(len: nat): (offsets: seq<nat>)
    requires len > 64
    ensures |offsets| == (len - 1) / 64 + 1
    ensures forall i | 0 <= i < |offsets| - 1 :: offsets[i] == 64 * i
    ensures offsets[|offsets| - 1] == len - 64
  {
    seq((len - 1) / 64, (i: nat) => 64 * i) + [len - 64]
  }

  ghost predicate StripeTouches(offsets: seq<nat>, i: nat, b: nat)
  {
    i < |offsets| && offsets[i] <= b < offsets[i] + 64
  }

  ghost predicate StripeTouched(offsets: seq<nat>, b: nat)
  {
    exists i: nat :: StripeTouches(offsets, i, b)
  }

  lemma StripeOffsetsCover(len: nat)
    requires len > 64
    ensures forall i | 0 <= i < |StripeOffsets(len)| :: StripeOffsets(len)[i] + 64 <= len
    ensures forall b: nat | b < len :: StripeTouched(StripeOffsets(len), b)
  {
    var offsets := StripeOffsets(len);
    forall b: nat | b < len
      ensures StripeTouched(offsets, b)
    {
      if b < 64 * ((len - 1) / 64) {
        assert StripeTouches(offsets, b / 64, b);
      } else {
        assert StripeTouches(offsets, |offsets| - 1, b);
      }
    }
  }

  /** The stripe machine fed with the data at the given offsets. */
  function Feed(k: Kernel, secret: Secret, data: seq<u8>, offsets: seq<nat>): (r: Progress)
    requires forall i | 0 <= i < |offsets| :: offsets[i] + 64 <= |data|
    ensures r.pos < StripesPerBlock(secret)
  {
    if offsets == [] then Progress(INIT_ACC, 0)
    else Step(k, secret, Feed(k, secret, data, offsets[..|offsets| - 1]), At(data, offsets[|offsets| - 1]))
  }

  lemma {:induction false} AbsorbIsFeed(k: Kernel, secret: Secret, data: seq<u8>, n: nat)
    requires |data| > 64 && n <= (|data| - 1) / 64
    ensures forall i | 0 <= i < n :: StripeOffsets(|data|)[i] + 64 <= |data|
    ensures Absorb(k, secret, data, n) == Feed(k, secret, data, StripeOffsets(|data|)[..n])
  {
    hide Step, INIT_ACC;
    if n > 0 {
      AbsorbIsFeed(k, secret, data, n - 1);
      assert StripeOffsets(|data|)[..n][..n - 1] == StripeOffsets(|data|)[..n - 1];
    }
  }

  /** The long hash reads exactly the scheduled stripes: all but the last through the machine. */
  lemma LongAccIsSchedule(k: Kernel, secret: Secret, data: seq<u8>)
    requires |data| > 64
    ensures var o := StripeOffsets(|data|);
            && (forall i | 0 <= i < |o| :: o[i] + 64 <= |data|)
            && LongAcc(k, secret, data) ==
               k.accumulate(Feed(k, secret, data, o[..|o| - 1]).acc, At(data, o[|o| - 1]), At(secret, |secret| - 71))
  {
    hide Step, Absorb, Feed;
    StripeOffsetsCover(|data|);
    AbsorbIsFeed(k, secret, data, (|data| - 1) / 64);
  }
}
