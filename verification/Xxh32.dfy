/**
 XXH32: the one-shot hash as a function of its input, and the loops of the C
 code proved to compute it.
 */
module Xxh32 {
  import opened Memory
  import opened Words

  const PRIME32_1: u32 := 0x9E3779B1
  const PRIME32_2: u32 := 0x85EBCA77
  const PRIME32_3: u32 := 0xC2B2AE3D
  const PRIME32_4: u32 := 0x27D4EB2F
  const PRIME32_5: u32 := 0x165667B1

  function Round(acc: u32, input: u32): u32
  {
    Mul32(Rotl32(Add32(acc, Mul32(input, PRIME32_2)), 13), PRIME32_1)
  }

  function Xorshift(h: u32, k: nat): u32 { Xor32(h, Shr32(h, k)) }

  function Avalanche(h: u32): u32
  {
    Xorshift(Mul32(Xorshift(Mul32(Xorshift(h, 15), PRIME32_2), 13), PRIME32_3), 16)
  }

  /** The last 0 to 15 bytes are absorbed by words of 4, then 1 byte. */
  function Absorb4(h: u32, word: u32): u32
  {
    Mul32(Rotl32(Add32(h, Mul32(word, PRIME32_3)), 17), PRIME32_4)
  }

  function Absorb1(h: u32, byte: u8): u32
  {
    Mul32(Rotl32(Add32(h, Mul32(byte, PRIME32_5)), 11), PRIME32_1)
  }

  datatype Lanes = Lanes(v1: u32, v2: u32, v3: u32, v4: u32)

  function Init(seed: u32): Lanes
  {
    Lanes(Add32(Add32(seed, PRIME32_1), PRIME32_2), Add32(seed, PRIME32_2), seed, Sub32(seed, PRIME32_1))
  }

  function Stripe(v: Lanes, s: seq<u8>): Lanes
    requires |s| == 16
  {
    Lanes(Round(v.v1, Read32(s[..4])), Round(v.v2, Read32(s[4..8])),
          Round(v.v3, Read32(s[8..12])), Round(v.v4, Read32(s[12..])))
  }

  /** All the whole stripes of the data, in order. */
  function Stripes(v: Lanes, data: seq<u8>): Lanes
    decreases |data|
  {
    if |data| < 16 then v else Stripes(Stripe(v, data[..16]), data[16..])
  }

  function Converge(v: Lanes): u32
  {
    Add32(Add32(Add32(Rotl32(v.v1, 1), Rotl32(v.v2, 7)), Rotl32(v.v3, 12)), Rotl32(v.v4, 18))
  }

  function Tail(h: u32, s: seq<u8>): u32
    decreases |s|
  {
    if |s| >= 4 then Tail(Absorb4(h, Read32(s[..4])), s[4..])
    else if |s| >= 1 then Tail(Absorb1(h, s[0]), s[1..])
    else h
  }

  /** What is left after the whole stripes. */
  function Rest(data: seq<u8>): (r: seq<u8>)
    ensures |r| == |data| % 16
  {
    data[|data| / 16 * 16..]
  }

  /** The length enters the hash modulo 2^32. */
  function Start(v: Lanes, seed: u32, len: nat): u32
  {
    Add32(if len >= 16 then Converge(v) else Add32(seed, PRIME32_5), Wrap32(len))
  }

  /** XXH32(data, seed) */
  function Hash(data: seq<u8>, seed: u32): u32
  {
    Avalanche(Tail(Start(Stripes(Init(seed), data), seed, |data|), Rest(data)))
  }

  /** Folding a whole number of stripes first changes nothing. */
  lemma {:induction false} StripesAppend(v: Lanes, a: seq<u8>, b: seq<u8>, n: nat)
    requires |a| == 16 * n
    ensures Stripes(v, a + b) == Stripes(Stripes(v, a), b)
    decreases n
  {
    hide Stripe;
    if n == 0 {
      assert a + b == b;
    } else {
      assert (a + b)[..16] == a[..16];
      assert (a + b)[16..] == a[16..] + b;
      StripesAppend(Stripe(v, a[..16]), a[16..], b, n - 1);
    }
  }

  lemma StripesPart(v: Lanes, whole: seq<u8>, rest: seq<u8>, n: nat)
    requires |whole| == 16 * n && |rest| < 16
    ensures Stripes(v, whole + rest) == Stripes(v, whole)
    ensures Rest(whole + rest) == rest
  {
    hide Stripe;
    StripesAppend(v, whole, rest, n);
  }

  // ---------- the code ----------

  /** XXH32_finalize, the compact form; `len` is masked to its low four bits first. */
  method Finalize(h0: u32, mem: seq<u8>, len0: nat) returns (h: u32)
    requires len0 % 16 <= |mem|
    ensures h == Avalanche(Tail(h0, mem[..len0 % 16]))
  {
    hide Add32, Mul32, Rotl32, Read32, Avalanche;
    h := h0;
    var ptr := 0;
    var len := len0 % 16;
    ghost var s := mem[..len];
    while len >= 4
      invariant ptr + len == |s|
      invariant Tail(h, s[ptr..]) == Tail(h0, s)
    {
      NextWord(mem, |s|, ptr, 4);
      h := Add32(h, Mul32(Read32(mem[ptr..ptr + 4]), PRIME32_3));
      ptr := ptr + 4;
      h := Mul32(Rotl32(h, 17), PRIME32_4);
      len := len - 4;
    }
    while len > 0
      invariant 0 <= len < 4 && ptr + len == |s|
      invariant Tail(h, s[ptr..]) == Tail(h0, s)
    {
      NextWord(mem, |s|, ptr, 1);
      h := Add32(h, Mul32(mem[ptr], PRIME32_5));
      ptr := ptr + 1;
      h := Mul32(Rotl32(h, 11), PRIME32_1);
      len := len - 1;
    }
    h := Avalanche(h);
  }

  /** Reading the parts of the next stripe directly from the input. */
  lemma Quarters(input: seq<u8>, p: nat)
    requires p + 16 <= |input|
    ensures var s := input[p..][..16];
            && s[..4] == input[p..p + 4] && s[4..8] == input[p + 4..p + 8]
            && s[8..12] == input[p + 8..p + 12] && s[12..] == input[p + 12..p + 16]
    ensures input[p..][16..] == input[p + 16..]
  {
  }

  /** XXH32_endian_align, the one-shot code. */
  method OneShot(input: seq<u8>, seed: u32) returns (h: u32)
    ensures h == Hash(input, seed)
  {
    hide Round, Add32, Sub32, Rotl32, Wrap32, Avalanche, Read32, Tail;
    var p := 0;
    if |input| >= 16 {
      var v1 := Add32(Add32(seed, PRIME32_1), PRIME32_2);
      var v2 := Add32(seed, PRIME32_2);
      var v3 := seed;
      var v4 := Sub32(seed, PRIME32_1);
      while p + 16 <= |input|
        invariant p <= |input| && p % 16 == 0
        invariant Stripes(Lanes(v1, v2, v3, v4), input[p..]) == Stripes(Init(seed), input)
      {
        Quarters(input, p);
        v1 := Round(v1, Read32(input[p..p + 4]));
        v2 := Round(v2, Read32(input[p + 4..p + 8]));
        v3 := Round(v3, Read32(input[p + 8..p + 12]));
        v4 := Round(v4, Read32(input[p + 12..p + 16]));
        p := p + 16;
      }
      h := Add32(Add32(Add32(Rotl32(v1, 1), Rotl32(v2, 7)), Rotl32(v3, 12)), Rotl32(v4, 18));
    } else {
      h := Add32(seed, PRIME32_5);
    }
    h := Add32(h, Wrap32(|input|));
    assert input[p..] == Rest(input);
    assert input[p..][..|input| % 16] == input[p..];
    h := Finalize(h, input[p..], |input| % 16);
  }
}
