/**
 The one length at which the code of the `_withSecretandSeed` variants differs from
 its header comment: on 240 zero bytes the code gives one hash for all secrets, and
 by the comment the hash depends on the secret.
 */
module Xxh3At240 {
  import opened Words
  import opened Memory
  import Xxh64
  import opened Xxh64Bijective
  import opened Multiply128
  import opened Xxh3Long
  import opened Xxh3Short
  import opened Xxh3Injective
  import opened Xxh3

  /** No bytes but zeros, and the same with two ones, in the last two words that are read. */
  const ZERO_SECRET: Secret := Zeros(136)
  const OTHER_SECRET: Secret := Zeros(136)[119 := 1][128 := 1]

  lemma ZeroWord(s: seq<u8>, i: nat)
    requires i + 8 <= |s| && forall j | i <= j < i + 8 :: s[j] == 0
    ensures Word64(s, i) == 0
  {
    ZerosAreZero(s[i..i + 8]);
  }

  /** The last two words of the other secret are 1 and 256. */
  lemma LastWords()
    ensures Word64(OTHER_SECRET, 119) == 1 && Word64(OTHER_SECRET, 127) == 256
  {
    var s, t := OTHER_SECRET[119..127], OTHER_SECRET[127..135];
    ZerosAreZero(s[1..]);
    ZerosAreZero(t[2..]);
    assert LE(t[1..]) == 1 + 256 * LE(t[1..][1..]) && t[1..][1..] == t[2..];
  }

  /** On zero bytes and seed 0 a mix is the folded product of two words of the secret. */
  lemma MixOfZeros(secret: Secret, i: nat, j: nat)
    requires i + 16 <= 240 && j + 16 <= |secret|
    ensures Mix16(Zeros(240), i, secret, j, 0) == Mul128Fold64(Word64(secret, j), Word64(secret, j + 8))
  {
    hide Word64, Mul128Fold64, Bxor;
    ZeroWord(Zeros(240), i);
    ZeroWord(Zeros(240), i + 8);
    BxorZero(Word64(secret, j));
    BxorZero(Word64(secret, j + 8));
  }

  /** The second word of each read of the schedule is zero in the secret. */
  ghost predicate Blank(secret: Secret, plan: seq<Read>)
  {
    forall r | r in plan :: r.input + 16 <= 240 && r.secret + 16 <= |secret| && Word64(secret, r.secret + 8) == 0
  }

  lemma {:induction false} BlankMixesNothing(acc: u64, secret: Secret, plan: seq<Read>)
    requires Blank(secret, plan)
    ensures MixAll(acc, Zeros(240), secret, 0, plan) == acc
  {
    hide Word64, Mul128Fold64, Mix16;
    if plan != [] {
      var r := plan[|plan| - 1];
      BlankMixesNothing(acc, secret, plan[..|plan| - 1]);
      MixOfZeros(secret, r.input, r.secret);
      FoldSmall(Word64(secret, r.secret), 0);
    }
  }

  ghost predicate ZeroButTwo(secret: Secret)
  {
    forall j | 0 <= j < 136 && j != 119 && j != 128 :: secret[j] == 0
  }

  lemma BothAreZeroButTwo()
    ensures ZeroButTwo(ZERO_SECRET) && ZeroButTwo(OTHER_SECRET)
  {
  }

  /** No second word of a read reaches the byte 128, and the byte 119 is in a first word. */
  lemma FirstReadsAreBlank(secret: Secret)
    requires ZeroButTwo(secret)
    ensures Blank(secret, FirstReads(8))
  {
    hide Word64, FirstReads;
    forall r | r in FirstReads(8)
      ensures Word64(secret, r.secret + 8) == 0
    {
      var i :| 0 <= i < 8 && FirstReads(8)[i] == r;
      ZeroWord(secret, 16 * i + 8);
    }
  }

  lemma LaterReadsAreBlank(secret: Secret)
    requires ZeroButTwo(secret)
    ensures Blank(secret, LaterReads(15))
  {
    hide Word64, LaterReads;
    forall r | r in LaterReads(15)
      ensures Word64(secret, r.secret + 8) == 0
    {
      var i :| 0 <= i < 7 && LaterReads(15)[i] == r;
      ZeroWord(secret, 16 * i + 11);
    }
  }

  /** All mixes but the last vanish. */
  lemma HashOfZeros(secret: Secret)
    requires ZeroButTwo(secret)
    ensures var middle := Avalanche3(Mul64(240, Xxh64.PRIME64_1));
            Len129To240(Zeros(240), secret, 0) ==
            Avalanche3(Add64(middle, Mul128Fold64(Word64(secret, 119), Word64(secret, 127))))
  {
    hide Word64, Mul128Fold64, Mix16, MixAll, Avalanche3, Mul64, Add64, FirstReads, LaterReads;
    var start := Mul64(240, Xxh64.PRIME64_1);
    FirstReadsAreBlank(secret);
    LaterReadsAreBlank(secret);
    BlankMixesNothing(start, secret, FirstReads(8));
    BlankMixesNothing(Avalanche3(start), secret, LaterReads(15));
    LastStep(Avalanche3(start), Zeros(240), secret, 0);
    MixOfZeros(secret, 224, 119);
  }

  /** By the comment the two secrets have different hashes. */
  lemma SecretsDiffer()
    ensures Len129To240(Zeros(240), ZERO_SECRET, 0) != Len129To240(Zeros(240), OTHER_SECRET, 0)
  {
    hide Word64, Mul128Fold64, Avalanche3, Mul64, Add64, Len129To240;
    BothAreZeroButTwo();
    HashOfZeros(ZERO_SECRET);
    HashOfZeros(OTHER_SECRET);
    ZeroWord(ZERO_SECRET, 119);
    ZeroWord(ZERO_SECRET, 127);
    LastWords();
    FoldSmall(0, 0);
    FoldSmall(1, 256);
    var middle := Avalanche3(Mul64(240, Xxh64.PRIME64_1));
    SumWraps(middle, 0);
    SumWraps(middle, 256);
    if Avalanche3(Add64(middle, 0)) == Avalanche3(Add64(middle, 256)) {
      Avalanche3Injective(Add64(middle, 0), Add64(middle, 256));
    }
  }

  /** Code and comment agree on an input, whatever the kernel. */
  ghost predicate AsDocumented(k: Kernel, secret: Secret, seed: u64, data: seq<u8>)
  {
    OneShot(k, WithSecretAndSeed(secret, seed), data) == Documented(k, secret, seed, data)
  }

  /** On 240 zero bytes and seed 0 code and comment differ for one of two secrets. */
  lemma DiffersAt240(k: Kernel)
    ensures !AsDocumented(k, ZERO_SECRET, 0, Zeros(240)) || !AsDocumented(k, OTHER_SECRET, 0, Zeros(240))
  {
    hide OneShot, Documented, Len129To240;
    DocumentedExceptAt240(k, ZERO_SECRET, OTHER_SECRET, 0, Zeros(240));
    DocumentedExceptAt240(k, OTHER_SECRET, ZERO_SECRET, 0, Zeros(240));
    SecretsDiffer();
  }

  /** Code and comment agree on all inputs of a length, for all secrets and seeds, exactly if the length is not 240. */
  lemma AsDocumentedIff(k: Kernel, n: nat)
    ensures (forall secret: Secret, seed: u64, data: seq<u8> | |data| == n :: AsDocumented(k, secret, seed, data))
       <==> n != 240
  {
    if n == 240 {
      DiffersAt240(k);
    } else {
      hide OneShot, Documented;
      forall secret: Secret, seed: u64, data: seq<u8> | |data| == n
        ensures AsDocumented(k, secret, seed, data)
      {
        DocumentedExceptAt240(k, secret, secret, seed, data);
      }
    }
  }
}
