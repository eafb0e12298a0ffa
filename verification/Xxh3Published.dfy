/**
 The 64-bit XXH3 in integer arithmetic modulo 2^64, with its constants as numbers:
 what each length class computes from the words of input and secret, stripe by
 stripe and lane by lane. The four one-shot variants are these functions, for all
 inputs, seeds and secrets.
 */
module Xxh3Published {
  import opened Words
  import opened Xxh64Published

  const MX2 := 0x9FB21C651E98DF25

  function Minus(a: nat, b: nat): nat { (a - b) % 0x1_0000_0000_0000_0000 }

  /** The little-endian 64-bit and 32-bit words at position i. */
  function W(s: seq<u8>, i: nat): nat
    requires i + 8 <= |s|
  {
    Number(s, i, 8)
  }

  function W4(s: seq<u8>, i: nat): nat
    requires i + 4 <= |s|
  {
    Number(s, i, 4)
  }

  /** The two halves of the product, xored. */
  function Fold(x: nat, y: nat): nat
  {
    MulLe(x, 0, y);
    QuotientIsNat(x * y, 0x1_0000_0000_0000_0000);
    Bxor(x * y % 0x1_0000_0000_0000_0000, x * y / 0x1_0000_0000_0000_0000)
  }

  function Mixed(h: nat): nat
  {
    var a := Times(Bxor(h, Down(h, 37)), 0x165667919E3779F9);
    Bxor(a, Down(a, 32))
  }

  /** The n low bytes of x in the other order. */
  function Swapped(x: nat, n: nat): nat
  {
    if n == 0 then 0 else x % 256 * Pow2(8 * (n - 1)) + Swapped(x / 256, n - 1)
  }

  // ---------- 0 to 16 bytes ----------

  function Of0(secret: seq<u8>, seed: u64): nat
    requires |secret| >= 136
  {
    FinalMix(Bxor(seed, Bxor(W(secret, 56), W(secret, 64))))
  }

  function Of1To3(input: seq<u8>, secret: seq<u8>, seed: u64): nat
    requires |secret| >= 136 && 1 <= |input| <= 3
  {
    var n := |input|;
    var first: nat, middle: nat, last: nat := input[0], input[n / 2], input[n - 1];
    var combined := last + 0x100 * n + 0x1_0000 * first + 0x100_0000 * middle;
    FinalMix(Bxor(combined, Plus(Bxor(W4(secret, 0), W4(secret, 4)), seed)))
  }

  function Of4To8(input: seq<u8>, secret: seq<u8>, seed: u64): nat
    requires |secret| >= 136 && 4 <= |input| <= 8
  {
    var n := |input|;
    var modified := Bxor(seed, Swapped(seed % 0x1_0000_0000, 4) * 0x1_0000_0000);
    var both := Plus(W4(input, n - 4), W4(input, 0) * 0x1_0000_0000);
    var keyed := Bxor(both, Minus(Bxor(W(secret, 8), W(secret, 16)), modified));
    var a := Times(Bxor(keyed, Bxor(Turn(keyed, 49), Turn(keyed, 24))), MX2);
    var b := Times(Bxor(a, Plus(Down(a, 35), n)), MX2);
    Bxor(b, Down(b, 28))
  }

  /** The first and the last word of 9 to 16 bytes, each xored with its part of secret and seed. */
  function LowOf(input: seq<u8>, secret: seq<u8>, seed: u64): nat
    requires |secret| >= 136 && 9 <= |input| <= 16
  {
    Bxor(W(input, 0), Plus(Bxor(W(secret, 24), W(secret, 32)), seed))
  }

  function HighOf(input: seq<u8>, secret: seq<u8>, seed: u64): nat
    requires |secret| >= 136 && 9 <= |input| <= 16
  {
    Bxor(W(input, |input| - 8), Minus(Bxor(W(secret, 40), W(secret, 48)), seed))
  }

  function Of9To16(input: seq<u8>, secret: seq<u8>, seed: u64): nat
    requires |secret| >= 136 && 9 <= |input| <= 16
  {
    var low, high := LowOf(input, secret, seed), HighOf(input, secret, seed);
    Mixed((|input| + Swapped(low, 8) + high + Fold(low, high)) % 0x1_0000_0000_0000_0000)
  }

  // ---------- 17 to 240 bytes ----------

  /** 16 bytes of input at i, mixed with 16 bytes of secret at j. */
  function Mix(input: seq<u8>, i: nat, secret: seq<u8>, j: nat, seed: u64): nat
    requires i + 16 <= |input| && j + 16 <= |secret|
  {
    Fold(Bxor(W(input, i), Plus(W(secret, j), seed)), Bxor(W(input, i + 8), Minus(W(secret, j + 8), seed)))
  }

  /** Pair r of the outer rounds, r - 1 to 0: 16 bytes from the start and 16 from the end. */
  function Pairs(acc: nat, input: seq<u8>, secret: seq<u8>, seed: u64, r: nat): nat
    requires |secret| >= 136 && r <= 4 && 16 * r <= |input|
    decreases r
  {
    if r == 0 then acc
    else
      var start := Plus(acc, Mix(input, 16 * (r - 1), secret, 32 * (r - 1), seed));
      var end := Plus(start, Mix(input, |input| - 16 * r, secret, 32 * (r - 1) + 16, seed));
      Pairs(end, input, secret, seed, r - 1)
  }

  function Of17To128(input: seq<u8>, secret: seq<u8>, seed: u64): nat
    requires |secret| >= 136 && 16 < |input| <= 128
  {
    Mixed(Pairs(Times(|input|, P1), input, secret, seed, (|input| - 1) / 32 + 1))
  }

  /** The first n chunks of 16 bytes, the secret going along. */
  function FirstChunks(acc: nat, input: seq<u8>, secret: seq<u8>, seed: u64, n: nat): nat
    requires |secret| >= 136 && n <= 8 && 16 * n <= |input|
  {
    if n == 0 then acc
    else Plus(FirstChunks(acc, input, secret, seed, n - 1), Mix(input, 16 * (n - 1), secret, 16 * (n - 1), seed))
  }

  /** The chunks 8 to n - 1, the secret starting again at 3. */
  function LaterChunks(acc: nat, input: seq<u8>, secret: seq<u8>, seed: u64, n: nat): nat
    requires |secret| >= 136 && 8 <= n <= 15 && 16 * n <= |input|
  {
    if n == 8 then acc
    else Plus(LaterChunks(acc, input, secret, seed, n - 1), Mix(input, 16 * (n - 1), secret, 16 * (n - 9) + 3, seed))
  }

  function Of129To240(input: seq<u8>, secret: seq<u8>, seed: u64): nat
    requires |secret| >= 136 && 128 < |input| <= 240
  {
    var middle := Mixed(FirstChunks(Times(|input|, P1), input, secret, seed, 8));
    var acc := LaterChunks(middle, input, secret, seed, |input| / 16);
    Mixed(Plus(acc, Mix(input, |input| - 16, secret, 119, seed)))
  }

  function OfShort(input: seq<u8>, secret: seq<u8>, seed: u64): nat
    requires |secret| >= 136 && |input| <= 240
  {
    var n := |input|;
    if n == 0 then Of0(secret, seed)
    else if n <= 3 then Of1To3(input, secret, seed)
    else if n <= 8 then Of4To8(input, secret, seed)
    else if n <= 16 then Of9To16(input, secret, seed)
    else if n <= 128 then Of17To128(input, secret, seed)
    else Of129To240(input, secret, seed)
  }

  // ---------- more than 240 bytes ----------

  type Eight = s: seq<nat> | |s| == 8 witness [0, 0, 0, 0, 0, 0, 0, 0]

  const START: Eight := [
    0xC2B2AE3D, 0x9E3779B185EBCA87, 0xC2B2AE3D27D4EB4F, 0x165667B19E3779F9,
    0x85EBCA77C2B2AE63, 0x85EBCA77, 0x27D4EB2F165667C5, 0x9E3779B1
  ]

  /** The other lane of the pair of lane i. */
  function Other(i: nat): nat
    requires i < 8
  {
    [1, 0, 3, 2, 5, 4, 7, 6][i]
  }

  /** Lane i takes the stripe at p, with the secret at q. */
  function LaneTakes(a: nat, data: seq<u8>, p: nat, secret: seq<u8>, q: nat, i: nat): nat
    requires i < 8 && p + 64 <= |data| && q + 64 <= |secret|
  {
    var key := Bxor(W(data, p + 8 * i), W(secret, q + 8 * i));
    Plus(Plus(a, W(data, p + 8 * Other(i))), Times(key % 0x1_0000_0000, key / 0x1_0000_0000))
  }

  function Takes(acc: Eight, data: seq<u8>, p: nat, secret: seq<u8>, q: nat): Eight
    requires p + 64 <= |data| && q + 64 <= |secret|
  {
    seq(8, i requires 0 <= i < 8 => LaneTakes(acc[i], data, p, secret, q, i))
  }

  function LaneScrambles(a: nat, key: nat): nat
  {
    Times(Bxor(Bxor(a, Down(a, 47)), key), 0x9E3779B1)
  }

  function Scrambles(acc: Eight, secret: seq<u8>, q: nat): Eight
    requires q + 64 <= |secret|
  {
    seq(8, i requires 0 <= i < 8 => LaneScrambles(acc[i], W(secret, q + 8 * i)))
  }

  /** How many stripes one pass over the secret takes, eight bytes further each. */
  function PerBlock(secret: seq<u8>): (n: nat)
    requires |secret| >= 136
    ensures n >= 9 && 8 * n + 64 <= |secret|
  {
    (|secret| - 64) / 8
  }

  /** The lanes after n stripes: stripe s is taken with the secret at 8 * (s mod PerBlock), and each block scrambled. */
  function After(data: seq<u8>, secret: seq<u8>, n: nat): Eight
    requires |secret| >= 136 && 64 * n <= |data|
  {
    if n == 0 then START
    else
      var acc := Takes(After(data, secret, n - 1), data, 64 * (n - 1), secret, 8 * ((n - 1) % PerBlock(secret)));
      if n % PerBlock(secret) == 0 then Scrambles(acc, secret, |secret| - 64) else acc
  }

  /** All four pairs of lanes, each xored with its 16 bytes of secret and folded, are added. */
  function Merged(acc: Eight, secret: seq<u8>, q: nat, start: nat): nat
    requires q + 64 <= |secret|
  {
    Mixed((start
           + Fold(Bxor(acc[0], W(secret, q)), Bxor(acc[1], W(secret, q + 8)))
           + Fold(Bxor(acc[2], W(secret, q + 16)), Bxor(acc[3], W(secret, q + 24)))
           + Fold(Bxor(acc[4], W(secret, q + 32)), Bxor(acc[5], W(secret, q + 40)))
           + Fold(Bxor(acc[6], W(secret, q + 48)), Bxor(acc[7], W(secret, q + 56)))) % 0x1_0000_0000_0000_0000)
  }

  /** Whole stripes that leave a byte, the last 64 bytes with the secret at its size minus 71, and the merge. */
  function OfLong(data: seq<u8>, secret: seq<u8>): nat
    requires |secret| >= 136 && |data| > 240
  {
    var acc := Takes(After(data, secret, (|data| - 1) / 64), data, |data| - 64, secret, |secret| - 71);
    Merged(acc, secret, 11, Times(|data| % 0x1_0000_0000_0000_0000, P1))
  }

  // ---------- the derived secret ----------

  /** Word by word the seed is added to the first and taken from the second of each 16 bytes of the base secret. */
  ghost predicate IsDerived(derived: seq<u8>, base: seq<u8>, seed: u64)
  {
    && |derived| == |base| == 192
    && (forall i | 0 <= i < 12 :: W(derived, 16 * i) == Plus(W(base, 16 * i), seed))
    && (forall i | 0 <= i < 12 :: W(derived, 16 * i + 8) == Minus(W(base, 16 * i + 8), seed))
  }
}
