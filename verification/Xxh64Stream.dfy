/**
 The XXH64 streaming state. Its invariant ties the lanes, the 32-byte buffer and
 the two counters to the sequence of all bytes absorbed since the reset; the
 digest is the one-shot hash of that sequence.
 */
module Xxh64Stream {
  import opened Words
  import opened Memory
  import Xxh64

  class State {
    const v: array<u64>
    const mem64: array<u8>
    var totalLen: u64
    var memsize: nat
    ghost var seed: u64
    ghost var absorbed: seq<u8>
    ghost var stripes: nat  // how many 32-byte stripes the lanes have folded

    /** The bytes already folded into the lanes. */
    ghost function Folded(): seq<u8>
      reads this
      requires 32 * stripes <= |absorbed|
    {
      absorbed[..32 * stripes]
    }

    ghost function Lanes(): Xxh64.Lanes
      reads v
      requires v.Length == 4
    {
      Xxh64.Lanes(v[0], v[1], v[2], v[3])
    }

    /** The lanes are the fold of the first `stripes` stripes absorbed. */
    ghost predicate Folding()
      reads this, v, mem64
    {
      && v.Length == 4
      && mem64.Length == 32
      && v as object != mem64
      && totalLen == Wrap64(|absorbed|)
      && 32 * stripes <= |absorbed|
      && Lanes() == Xxh64.Stripes(Xxh64.Init(seed), Folded())
    }

    /** Between calls the buffer holds all the bytes that are not folded yet. */
    ghost predicate Valid()
      reads this, v, mem64
    {
      && Folding()
      && memsize < 32
      && |absorbed| == 32 * stripes + memsize
      && absorbed[32 * stripes..] == mem64[..memsize]
    }

    constructor (seed0: u64)
      ensures Valid() && absorbed == [] && seed == seed0
      ensures fresh(v) && fresh(mem64)
    {
      v := new u64[4];
      mem64 := new u8[32];
      new;
      Reset(seed0);
    }

    method Reset(seed0: u64)
      requires v.Length == 4 && mem64.Length == 32 && v as object != mem64
      modifies this, v, mem64
      ensures Valid() && absorbed == [] && seed == seed0
    {
      hide Xxh64.Stripe, Add64, Sub64;
      forall i | 0 <= i < mem64.Length { mem64[i] := 0; }
      totalLen, memsize := 0, 0;
      v[0] := Add64(Add64(seed0, Xxh64.PRIME64_1), Xxh64.PRIME64_2);
      v[1] := Add64(seed0, Xxh64.PRIME64_2);
      v[2] := seed0;
      v[3] := Sub64(seed0, Xxh64.PRIME64_1);
      absorbed, seed, stripes := [], seed0, 0;
    }

    /** Four rounds on 32 bytes. */
    method Rounds(s: seq<u8>)
      requires v.Length == 4 && |s| == 32
      modifies v
      ensures Lanes() == Xxh64.Stripe(old(Lanes()), s)
    {
      hide Xxh64.Round, Read64;
      v[0] := Xxh64.Round(v[0], Read64(s[..8]));
      v[1] := Xxh64.Round(v[1], Read64(s[8..16]));
      v[2] := Xxh64.Round(v[2], Read64(s[16..24]));
      v[3] := Xxh64.Round(v[3], Read64(s[24..]));
    }

    /** The input fits in the buffer: no stripe is complete yet. */
    method Fill(input: seq<u8>)
      requires Valid() && memsize + |input| < 32
      modifies this, mem64
      ensures Valid()
      ensures absorbed == old(absorbed) + input && seed == old(seed)
    {
      hide Xxh64.Stripe, Xxh64.Stripes, Xxh64.Init, Add64, Wrap64;
      Wrap64Adds(|absorbed|, |input|);
      totalLen := Add64(totalLen, |input|);
      CopyInto(mem64, memsize, input);
      memsize := memsize + |input|;
      absorbed := absorbed + input;
      assert Folded() == old(Folded());
      assert absorbed[32 * stripes..] == old(mem64[..memsize]) + input == mem64[..memsize];
    }

    /** Fold the next stripe absorbed, wherever its bytes are. */
    method FoldStripe(s: seq<u8>)
      requires Folding() && 32 * (stripes + 1) <= |absorbed|
      requires s == absorbed[32 * stripes..][..32]
      modifies v, this`stripes
      ensures Folding() && stripes == old(stripes) + 1
    {
      hide Xxh64.Stripe, Xxh64.Stripes, Xxh64.Init, Wrap64;
      FoldOne(Xxh64.Init(seed), Folded(), s, stripes);
      assert absorbed[..32 * (stripes + 1)] == Folded() + s;
      Rounds(s);
      stripes := stripes + 1;
    }

    /** Fewer bytes than a stripe are left; keep them in the empty buffer. */
    method BufferRest(rest: seq<u8>)
      requires Folding() && |rest| < 32 && rest == absorbed[32 * stripes..]
      modifies this`memsize, mem64
      ensures Valid()
    {
      hide Xxh64.Stripe, Xxh64.Stripes, Xxh64.Init, Wrap64;
      CopyInto(mem64, 0, rest);
      memsize := |rest|;
      assert mem64[..memsize] == rest;
    }

    /** Top the buffer up from the input and fold it. */
    method CompleteBuffer(input: seq<u8>) returns (p: nat)
      requires Folding() && 0 < memsize < 32 <= memsize + |input|
      requires absorbed[32 * stripes..] == mem64[..memsize] + input
      modifies v, mem64, this`stripes, this`memsize
      ensures Folding() && memsize == 0 && p <= |input|
      ensures absorbed[32 * stripes..] == input[p..]
    {
      hide Xxh64.Stripe, Xxh64.Stripes, Xxh64.Init, Wrap64;
      p := 32 - memsize;
      CopyInto(mem64, memsize, input[..p]);
      assert mem64[..] == absorbed[32 * stripes..][..32];
      FoldStripe(mem64[..]);
      memsize := 0;
    }

    /** Fold the stripes of the input from position p on. */
    method FoldInput(input: seq<u8>, start: nat) returns (p: nat)
      requires Folding() && start <= |input| && absorbed[32 * stripes..] == input[start..]
      modifies v, this`stripes
      ensures Folding() && p <= |input| < p + 32 && absorbed[32 * stripes..] == input[p..]
    {
      hide Xxh64.Stripe, Xxh64.Stripes, Xxh64.Init, Wrap64;
      p := start;
      while p + 32 <= |input|
        invariant p <= |input| && Folding() && absorbed[32 * stripes..] == input[p..]
      {
        assert input[p..p + 32] == input[p..][..32];
        FoldStripe(input[p..p + 32]);
        p := p + 32;
      }
    }

    method Update(input: seq<u8>)
      requires Valid()
      modifies this, v, mem64
      ensures Valid()
      ensures absorbed == old(absorbed) + input && seed == old(seed)
    {
      hide Xxh64.Stripe, Xxh64.Stripes, Xxh64.Init, Wrap64, Add64;
      var bEnd := |input|;
      if memsize + bEnd < 32 {
        Fill(input);
        return;
      }
      Wrap64Adds(|absorbed|, bEnd);
      totalLen := Add64(totalLen, bEnd);
      absorbed := absorbed + input;
      assert Folded() == old(Folded());
      var p := 0;
      if memsize > 0 {
        p := CompleteBuffer(input);
      }
      p := FoldInput(input, p);
      if p < bEnd {
        BufferRest(input[p..]);
      }
    }

    /** What the documentation of the state promises between calls. */
    lemma Shape()
      requires Valid()
      ensures memsize == |absorbed| % 32
      ensures |absorbed| < 32 ==> v[2] == seed
    {
      hide Xxh64.Stripe;
    }

    /** XXH64_digest: the state is only read. */
    method Digest() returns (h: u64)
      requires Valid()
      requires |absorbed| < M64
      ensures h == Xxh64.Hash(absorbed, seed)
    {
      hide Xxh64.Stripe, Xxh64.Round, Xxh64.MergeRound, Xxh64.Avalanche, Xxh64.Tail, Rotl64, Add64;
      Xxh64.StripesPart(Xxh64.Init(seed), Folded(), mem64[..memsize], stripes);
      Shape();
      assert Folded() + mem64[..memsize] == absorbed;
      if totalLen >= 32 {
        h := Add64(Add64(Add64(Rotl64(v[0], 1), Rotl64(v[1], 7)), Rotl64(v[2], 12)), Rotl64(v[3], 18));
        h := Xxh64.MergeRound(h, v[0]);
        h := Xxh64.MergeRound(h, v[1]);
        h := Xxh64.MergeRound(h, v[2]);
        h := Xxh64.MergeRound(h, v[3]);
      } else {
        assert Folded() == [];
        h := Add64(v[2], Xxh64.PRIME64_5);
      }
      h := Add64(h, totalLen);
      h := Xxh64.Finalize(h, mem64[..], totalLen);
    }
  }

  lemma FoldOne(v: Xxh64.Lanes, done: seq<u8>, s: seq<u8>, n: nat)
    requires |done| == 32 * n && |s| == 32
    ensures Xxh64.Stripes(v, done + s) == Xxh64.Stripe(Xxh64.Stripes(v, done), s)
  {
    hide Xxh64.Stripe;
    Xxh64.StripesAppend(v, done, s, n);
    assert s[..32] == s && s[32..] == [];
  }

  /**
   Every way of cutting the input gives the one-shot hash of the whole input, and
   every digest taken on the way the hash of what was absorbed so far.
   */
  method HashPrefixes(chunks: seq<seq<u8>>, seed: u64) returns (hashes: seq<u64>)
    requires |Concat(chunks)| < M64
    ensures |hashes| == |chunks| + 1
    ensures forall i | 0 <= i <= |chunks| :: hashes[i] == Xxh64.Hash(Concat(chunks[..i]), seed)
  {
    hide Xxh64.Hash;
    var st := new State(seed);
    PrefixIsShorter(chunks, 0);
    var h := st.Digest();
    hashes := [h];
    for i := 0 to |chunks|
      invariant st.Valid() && fresh(st) && fresh(st.v) && fresh(st.mem64)
      invariant st.seed == seed && st.absorbed == Concat(chunks[..i])
      invariant |hashes| == i + 1
      invariant forall j | 0 <= j <= i :: hashes[j] == Xxh64.Hash(Concat(chunks[..j]), seed)
    {
      ConcatStep(chunks, i);
      PrefixIsShorter(chunks, i + 1);
      st.Update(chunks[i]);
      h := st.Digest();
      hashes := hashes + [h];
    }
  }
}
