/**
 The XXH32 streaming state. Its invariant ties the lanes, the 16-byte buffer, the
 wrapping 32-bit length and the sticky large-length flag to the sequence of all
 bytes absorbed since the reset; the digest is the one-shot hash of that
 sequence at every length, past 2^32 bytes too.
 */
module Xxh32Stream {
  import opened Words
  import opened Memory
  import Xxh32

  class State {
    const v: array<u32>
    const mem32: array<u8>
    var totalLen32: u32
    var largeLen: bool
    var memsize: nat
    ghost var seed: u32
    ghost var absorbed: seq<u8>
    ghost var stripes: nat  // how many 16-byte stripes the lanes have folded

    /** The bytes already folded into the lanes. */
    ghost function Folded(): seq<u8>
      reads this
      requires 16 * stripes <= |absorbed|
    {
      absorbed[..16 * stripes]
    }

    ghost function Lanes(): Xxh32.Lanes
      reads v
      requires v.Length == 4
    {
      Xxh32.Lanes(v[0], v[1], v[2], v[3])
    }

    /** The lanes are the fold of the first `stripes` stripes absorbed. */
    ghost predicate Folding()
      reads this, v, mem32
    {
      && v.Length == 4
      && mem32.Length == 16
      && v as object != mem32
      && totalLen32 == Wrap32(|absorbed|)
      && largeLen == (|absorbed| >= 16)
      && 16 * stripes <= |absorbed|
      && Lanes() == Xxh32.Stripes(Xxh32.Init(seed), Folded())
    }

    /** Between calls the buffer holds all the bytes that are not folded yet. */
    ghost predicate Valid()
      reads this, v, mem32
    {
      && Folding()
      && memsize < 16
      && |absorbed| == 16 * stripes + memsize
      && absorbed[16 * stripes..] == mem32[..memsize]
    }

    constructor (seed0: u32)
      ensures Valid() && absorbed == [] && seed == seed0
      ensures fresh(v) && fresh(mem32)
    {
      v := new u32[4];
      mem32 := new u8[16];
      new;
      Reset(seed0);
    }

    method Reset(seed0: u32)
      requires v.Length == 4 && mem32.Length == 16 && v as object != mem32
      modifies this, v, mem32
      ensures Valid() && absorbed == [] && seed == seed0
    {
      hide Xxh32.Stripe, Add32, Sub32;
      forall i | 0 <= i < mem32.Length { mem32[i] := 0; }
      totalLen32, largeLen, memsize := 0, false, 0;
      v[0] := Add32(Add32(seed0, Xxh32.PRIME32_1), Xxh32.PRIME32_2);
      v[1] := Add32(seed0, Xxh32.PRIME32_2);
      v[2] := seed0;
      v[3] := Sub32(seed0, Xxh32.PRIME32_1);
      absorbed, seed, stripes := [], seed0, 0;
    }

    /** Four rounds on 16 bytes. */
    method Rounds(s: seq<u8>)
      requires v.Length == 4 && |s| == 16
      modifies v
      ensures Lanes() == Xxh32.Stripe(old(Lanes()), s)
    {
      hide Xxh32.Round, Read32;
      v[0] := Xxh32.Round(v[0], Read32(s[..4]));
      v[1] := Xxh32.Round(v[1], Read32(s[4..8]));
      v[2] := Xxh32.Round(v[2], Read32(s[8..12]));
      v[3] := Xxh32.Round(v[3], Read32(s[12..]));
    }

    /** Both length counters; the flag is set for good once 16 bytes have come. */
    method Count(len: nat)
      requires totalLen32 == Wrap32(|absorbed|) && largeLen == (|absorbed| >= 16)
      modifies this`totalLen32, this`largeLen
      ensures totalLen32 == Wrap32(|absorbed| + len)
      ensures largeLen == (|absorbed| + len >= 16)
    {
      Wrap32Adds(|absorbed|, len);
      totalLen32 := Add32(totalLen32, Wrap32(len));
      largeLen := largeLen || len >= 16 || totalLen32 >= 16;
    }

    /** The input fits in the buffer: no stripe is complete yet. */
    method Fill(input: seq<u8>)
      requires Valid() && memsize + |input| < 16
      modifies this, mem32
      ensures Valid()
      ensures absorbed == old(absorbed) + input && seed == old(seed)
    {
      hide Xxh32.Stripe, Xxh32.Stripes, Xxh32.Init, Add32, Wrap32;
      Count(|input|);
      CopyInto(mem32, memsize, input);
      memsize := memsize + |input|;
      absorbed := absorbed + input;
      assert Folded() == old(Folded());
      assert absorbed[16 * stripes..] == old(mem32[..memsize]) + input == mem32[..memsize];
    }

    /** Fold the next stripe absorbed, wherever its bytes are. */
    method FoldStripe(s: seq<u8>)
      requires Folding() && 16 * (stripes + 1) <= |absorbed|
      requires s == absorbed[16 * stripes..][..16]
      modifies v, this`stripes
      ensures Folding() && stripes == old(stripes) + 1
    {
      hide Xxh32.Stripe, Xxh32.Stripes, Xxh32.Init, Wrap32;
      FoldOne(Xxh32.Init(seed), Folded(), s, stripes);
      assert absorbed[..16 * (stripes + 1)] == Folded() + s;
      Rounds(s);
      stripes := stripes + 1;
    }

    /** Fewer bytes than a stripe are left; keep them in the empty buffer. */
    method BufferRest(rest: seq<u8>)
      requires Folding() && |rest| < 16 && rest == absorbed[16 * stripes..]
      modifies this`memsize, mem32
      ensures Valid()
    {
      hide Xxh32.Stripe, Xxh32.Stripes, Xxh32.Init, Wrap32;
      CopyInto(mem32, 0, rest);
      memsize := |rest|;
      assert mem32[..memsize] == rest;
    }

    /** Top the buffer up from the input and fold it. */
    method CompleteBuffer(input: seq<u8>) returns (p: nat)
      requires Folding() && 0 < memsize < 16 <= memsize + |input|
      requires absorbed[16 * stripes..] == mem32[..memsize] + input
      modifies v, mem32, this`stripes, this`memsize
      ensures Folding() && memsize == 0 && p <= |input|
      ensures absorbed[16 * stripes..] == input[p..]
    {
      hide Xxh32.Stripe, Xxh32.Stripes, Xxh32.Init, Wrap32;
      p := 16 - memsize;
      CopyInto(mem32, memsize, input[..p]);
      assert mem32[..] == absorbed[16 * stripes..][..16];
      FoldStripe(mem32[..]);
      memsize := 0;
    }

    /** Fold the stripes of the input from position p on. */
    method FoldInput(input: seq<u8>, start: nat) returns (p: nat)
      requires Folding() && start <= |input| && absorbed[16 * stripes..] == input[start..]
      modifies v, this`stripes
      ensures Folding() && p <= |input| < p + 16 && absorbed[16 * stripes..] == input[p..]
    {
      hide Xxh32.Stripe, Xxh32.Stripes, Xxh32.Init, Wrap32;
      p := start;
      while p + 16 <= |input|
        invariant p <= |input| && Folding() && absorbed[16 * stripes..] == input[p..]
      {
        assert input[p..p + 16] == input[p..][..16];
        FoldStripe(input[p..p + 16]);
        p := p + 16;
      }
    }

    method Update(input: seq<u8>)
      requires Valid()
      modifies this, v, mem32
      ensures Valid()
      ensures absorbed == old(absorbed) + input && seed == old(seed)
    {
      hide Xxh32.Stripe, Xxh32.Stripes, Xxh32.Init, Wrap32, Add32;
      var bEnd := |input|;
      if memsize + bEnd < 16 {
        Fill(input);
        return;
      }
      Count(bEnd);
      absorbed := absorbed + input;
      assert Folded() == old(Folded());
      var p := 0;
      if memsize > 0 {
        p := CompleteBuffer(input);
      }
      p := FoldInput(input, p);
      if p < bEnd {
        BufferRest(input[p..]);
      }
    }

    /** What the documentation of the state promises between calls. */
    lemma Shape()
      requires Valid()
      ensures memsize == |absorbed| % 16
      ensures |absorbed| < 16 ==> v[2] == seed
    {
      hide Xxh32.Stripe;
    }

    /** XXH32_digest: the state is only read. */
    method Digest() returns (h: u32)
      requires Valid()
      ensures h == Xxh32.Hash(absorbed, seed)
    {
      hide Xxh32.Stripe, Xxh32.Round, Xxh32.Avalanche, Xxh32.Tail, Rotl32, Add32, Wrap32;
      Xxh32.StripesPart(Xxh32.Init(seed), Folded(), mem32[..memsize], stripes);
      Shape();
      assert Folded() + mem32[..memsize] == absorbed;
      if largeLen {
        h := Add32(Add32(Add32(Rotl32(v[0], 1), Rotl32(v[1], 7)), Rotl32(v[2], 12)), Rotl32(v[3], 18));
      } else {
        assert Folded() == [];
        h := Add32(v[2], Xxh32.PRIME32_5);
      }
      h := Add32(h, totalLen32);
      h := Xxh32.Finalize(h, mem32[..], memsize);
    }
  }

  lemma FoldOne(v: Xxh32.Lanes, done: seq<u8>, s: seq<u8>, n: nat)
    requires |done| == 16 * n && |s| == 16
    ensures Xxh32.Stripes(v, done + s) == Xxh32.Stripe(Xxh32.Stripes(v, done), s)
  {
    hide Xxh32.Stripe;
    Xxh32.StripesAppend(v, done, s, n);
    assert s[..16] == s && s[16..] == [];
  }

  /**
   Every way of cutting the input gives the one-shot hash of the whole input, and
   every digest taken on the way the hash of what was absorbed so far.
   */
  method HashPrefixes(chunks: seq<seq<u8>>, seed: u32) returns (hashes: seq<u32>)
    ensures |hashes| == |chunks| + 1
    ensures forall i | 0 <= i <= |chunks| :: hashes[i] == Xxh32.Hash(Concat(chunks[..i]), seed)
  {
    hide Xxh32.Hash;
    var st := new State(seed);
    var h := st.Digest();
    hashes := [h];
    for i := 0 to |chunks|
      invariant st.Valid() && fresh(st) && fresh(st.v) && fresh(st.mem32)
      invariant st.seed == seed && st.absorbed == Concat(chunks[..i])
      invariant |hashes| == i + 1
      invariant forall j | 0 <= j <= i :: hashes[j] == Xxh32.Hash(Concat(chunks[..j]), seed)
    {
      ConcatStep(chunks, i);
      st.Update(chunks[i]);
      h := st.Digest();
      hashes := hashes + [h];
    }
  }
}
