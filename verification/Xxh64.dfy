/**
 XXH64: the one-shot hash as a function of its input, and the loops of the
 C code proved to compute it.
 */
module Xxh64 {
  import opened Memory
  import opened Words

  const PRIME64_1: u64 := 0x9E3779B185EBCA87
  const PRIME64_2: u64 := 0xC2B2AE3D27D4EB4F
  const PRIME64_3: u64 := 0x165667B19E3779F9
  const PRIME64_4: u64 := 0x85EBCA77C2B2AE63
  const PRIME64_5: u64 := 0x27D4EB2F165667C5

  // ---------- mixing steps ----------

  function Round(acc: u64, input: u64): u64
  {
    Mul64(Rotl64(Add64(acc, Mul64(input, PRIME64_2)), 31), PRIME64_1)
  }

  function MergeRound(acc: u64, val: u64): u64
  {
    Add64(Mul64(Xor64(acc, Round(0, val)), PRIME64_1), PRIME64_4)
  }

  function Avalanche(h: u64): u64
  {
    Xorshift64(Mul64(Xorshift64(Mul64(Xorshift64(h, 33), PRIME64_2), 29), PRIME64_3), 32)
  }

  /** The last 0 to 31 bytes are absorbed by words of 8, then 4, then 1 byte. */
  function Absorb8(h: u64, word: u64): u64
  {
    Add64(Mul64(Rotl64(Xor64(h, Round(0, word)), 27), PRIME64_1), PRIME64_4)
  }

  function Absorb4(h: u64, word: u32): u64
  {
    Add64(Mul64(Rotl64(Xor64(h, Mul64(word, PRIME64_1)), 23), PRIME64_2), PRIME64_3)
  }

  function Absorb1(h: u64, byte: u8): u64
  {
    Mul64(Rotl64(Xor64(h, Mul64(byte, PRIME64_5)), 11), PRIME64_1)
  }

  // ---------- the hash of a whole input ----------

  datatype Lanes = Lanes(v1: u64, v2: u64, v3: u64, v4: u64)

  function Init(seed: u64): Lanes
  {
    Lanes(Add64(Add64(seed, PRIME64_1), PRIME64_2), Add64(seed, PRIME64_2), seed, Sub64(seed, PRIME64_1))
  }

  function Stripe(v: Lanes, s: seq<u8>): Lanes
    requires |s| == 32
  {
    Lanes(Round(v.v1, Read64(s[..8])), Round(v.v2, Read64(s[8..16])),
          Round(v.v3, Read64(s[16..24])), Round(v.v4, Read64(s[24..])))
  }

  /** All the whole stripes of the data, in order. */
  function Stripes(v: Lanes, data: seq<u8>): Lanes
    decreases |data|
  {
    if |data| < 32 then v else Stripes(Stripe(v, data[..32]), data[32..])
  }

  function Converge(v: Lanes): u64
  {
    var h := Add64(Add64(Add64(Rotl64(v.v1, 1), Rotl64(v.v2, 7)), Rotl64(v.v3, 12)), Rotl64(v.v4, 18));
    MergeRound(MergeRound(MergeRound(MergeRound(h, v.v1), v.v2), v.v3), v.v4)
  }

  function Tail(h: u64, s: seq<u8>): u64
    decreases |s|
  {
    if |s| >= 8 then Tail(Absorb8(h, Read64(s[..8])), s[8..])
    else if |s| >= 4 then Tail(Absorb4(h, Read32(s[..4])), s[4..])
    else if |s| >= 1 then Tail(Absorb1(h, s[0]), s[1..])
    else h
  }

  /** What is left after the whole stripes. */
  function Rest(data: seq<u8>): (r: seq<u8>)
    ensures |r| == |data| % 32
  {
    data[|data| / 32 * 32..]
  }

  function Start(v: Lanes, seed: u64, len: nat): u64
  {
    Add64(if len >= 32 then Converge(v) else Add64(seed, PRIME64_5), len)
  }

  /** XXH64(data, seed) */
  function Hash(data: seq<u8>, seed: u64): u64
  {
    Avalanche(Tail(Start(Stripes(Init(seed), data), seed, |data|), Rest(data)))
  }

  /** Folding a whole number of stripes first changes nothing. */
  lemma {:induction false} StripesAppend(v: Lanes, a: seq<u8>, b: seq<u8>, n: nat)
    requires |a| == 32 * n
    ensures Stripes(v, a + b) == Stripes(Stripes(v, a), b)
    decreases n
  {
    hide Stripe;
    if n == 0 {
      assert a + b == b;
    } else {
      assert (a + b)[..32] == a[..32];
      assert (a + b)[32..] == a[32..] + b;
      StripesAppend(Stripe(v, a[..32]), a[32..], b, n - 1);
    }
  }

  lemma StripesPart(v: Lanes, whole: seq<u8>, rest: seq<u8>, n: nat)
    requires |whole| == 32 * n && |rest| < 32
    ensures Stripes(v, whole + rest) == Stripes(v, whole)
    ensures Rest(whole + rest) == rest
  {
    hide Stripe;
    StripesAppend(v, whole, rest, n);
  }

  // ---------- the code ----------

  /** XXH64_finalize; `len` is masked to its low five bits first. */
  method Finalize(h0: u64, mem: seq<u8>, len0: nat) returns (h: u64)
    requires len0 % 32 <= |mem|
    ensures h == Avalanche(Tail(h0, mem[..len0 % 32]))
  {
    hide Round, Mul64, Rotl64, Xor64, Add64, Avalanche, Read64, Read32;
    h := h0;
    var ptr := 0;
    var len := len0 % 32;
    ghost var s := mem[..len];
    while len >= 8
      invariant ptr + len == |s|
      invariant Tail(h, s[ptr..]) == Tail(h0, s)
    {
      NextWord(mem, |s|, ptr, 8);
      var k1 := Round(0, Read64(mem[ptr..ptr + 8]));
      ptr := ptr + 8;
      h := Xor64(h, k1);
      h := Add64(Mul64(Rotl64(h, 27), PRIME64_1), PRIME64_4);
      len := len - 8;
    }
    if len >= 4 {
      NextWord(mem, |s|, ptr, 4);
      h := Xor64(h, Mul64(Read32(mem[ptr..ptr + 4]), PRIME64_1));
      ptr := ptr + 4;
      h := Add64(Mul64(Rotl64(h, 23), PRIME64_2), PRIME64_3);
      len := len - 4;
    }
    while len > 0
      invariant 0 <= len < 4 && ptr + len == |s|
      invariant Tail(h, s[ptr..]) == Tail(h0, s)
    {
      NextWord(mem, |s|, ptr, 1);
      h := Xor64(h, Mul64(mem[ptr], PRIME64_5));
      ptr := ptr + 1;
      h := Mul64(Rotl64(h, 11), PRIME64_1);
      len := len - 1;
    }
    h := Avalanche(h);
  }

  /** Reading the parts of the next stripe directly from the input. */
  lemma Quarters(input: seq<u8>, p: nat)
    requires p + 32 <= |input|
    ensures var s := input[p..][..32];
            && s[..8] == input[p..p + 8] && s[8..16] == input[p + 8..p + 16]
            && s[16..24] == input[p + 16..p + 24] && s[24..] == input[p + 24..p + 32]
    ensures input[p..][32..] == input[p + 32..]
  {
  }

  /** XXH64_endian_align, the one-shot code. */
  method OneShot(input: seq<u8>, seed: u64) returns (h: u64)
    ensures h == Hash(input, seed)
  {
    hide Round, Mul64, Rotl64, Xor64, Add64, Sub64, Avalanche, Read64, Tail, MergeRound;
    var p := 0;
    if |input| >= 32 {
      var v1 := Add64(Add64(seed, PRIME64_1), PRIME64_2);
      var v2 := Add64(seed, PRIME64_2);
      var v3 := seed;
      var v4 := Sub64(seed, PRIME64_1);
      while p + 32 <= |input|
        invariant p <= |input| && p % 32 == 0
        invariant Stripes(Lanes(v1, v2, v3, v4), input[p..]) == Stripes(Init(seed), input)
      {
        Quarters(input, p);
        v1 := Round(v1, Read64(input[p..p + 8]));
        v2 := Round(v2, Read64(input[p + 8..p + 16]));
        v3 := Round(v3, Read64(input[p + 16..p + 24]));
        v4 := Round(v4, Read64(input[p + 24..p + 32]));
        p := p + 32;
      }
      h := Add64(Add64(Add64(Rotl64(v1, 1), Rotl64(v2, 7)), Rotl64(v3, 12)), Rotl64(v4, 18));
      h := MergeRound(h, v1);
      h := MergeRound(h, v2);
      h := MergeRound(h, v3);
      h := MergeRound(h, v4);
    } else {
      h := Add64(seed, PRIME64_5);
    }
    h := Add64(h, |input|);
    assert input[p..] == Rest(input);
    assert input[p..][..|input| % 32] == input[p..];
    h := Finalize(h, input[p..], |input|);
  }
}
