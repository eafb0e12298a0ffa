/** The default secret of XXH3, and the secret derived from a seed. */
module Xxh3Secret {
  import opened Words

  type Row = s: seq<u8> | |s| == 32 witness seq(32, _ => 0)
  type DefaultSecret = s: seq<u8> | |s| == 192 witness seq(192, _ => 0)

  const ROW_0: Row := [
    0xb8, 0xfe, 0x6c, 0x39, 0x23, 0xa4, 0x4b, 0xbe, 0x7c, 0x01, 0x81, 0x2c, 0xf7, 0x21, 0xad, 0x1c,
    0xde, 0xd4, 0x6d, 0xe9, 0x83, 0x90, 0x97, 0xdb, 0x72, 0x40, 0xa4, 0xa4, 0xb7, 0xb3, 0x67, 0x1f
  ]
  const ROW_1: Row := [
    0xcb, 0x79, 0xe6, 0x4e, 0xcc, 0xc0, 0xe5, 0x78, 0x82, 0x5a, 0xd0, 0x7d, 0xcc, 0xff, 0x72, 0x21,
    0xb8, 0x08, 0x46, 0x74, 0xf7, 0x43, 0x24, 0x8e, 0xe0, 0x35, 0x90, 0xe6, 0x81, 0x3a, 0x26, 0x4c
  ]
  const ROW_2: Row := [
    0x3c, 0x28, 0x52, 0xbb, 0x91, 0xc3, 0x00, 0xcb, 0x88, 0xd0, 0x65, 0x8b, 0x1b, 0x53, 0x2e, 0xa3,
    0x71, 0x64, 0x48, 0x97, 0xa2, 0x0d, 0xf9, 0x4e, 0x38, 0x19, 0xef, 0x46, 0xa9, 0xde, 0xac, 0xd8
  ]
  const ROW_3: Row := [
    0xa8, 0xfa, 0x76, 0x3f, 0xe3, 0x9c, 0x34, 0x3f, 0xf9, 0xdc, 0xbb, 0xc7, 0xc7, 0x0b, 0x4f, 0x1d,
    0x8a, 0x51, 0xe0, 0x4b, 0xcd, 0xb4, 0x59, 0x31, 0xc8, 0x9f, 0x7e, 0xc9, 0xd9, 0x78, 0x73, 0x64
  ]
  const ROW_4: Row := [
    0xea, 0xc5, 0xac, 0x83, 0x34, 0xd3, 0xeb, 0xc3, 0xc5, 0x81, 0xa0, 0xff, 0xfa, 0x13, 0x63, 0xeb,
    0x17, 0x0d, 0xdd, 0x51, 0xb7, 0xf0, 0xda, 0x49, 0xd3, 0x16, 0x55, 0x26, 0x29, 0xd4, 0x68, 0x9e
  ]
  const ROW_5: Row := [
    0x2b, 0x16, 0xbe, 0x58, 0x7d, 0x47, 0xa1, 0xfc, 0x8f, 0xf8, 0xb8, 0xd1, 0x7a, 0xd0, 0x31, 0xce,
    0x45, 0xcb, 0x3a, 0x8f, 0x95, 0x16, 0x04, 0x28, 0xaf, 0xd7, 0xfb, 0xca, 0xbb, 0x4b, 0x40, 0x7e
  ]

  /** XXH3_kSecret, taken from FARSH. */
  const K_SECRET: DefaultSecret := ROW_0 + ROW_1 + ROW_2 + ROW_3 + ROW_4 + ROW_5

  /** The 16 bytes of the derived secret at position 16 * i: one word plus, one word minus the seed. */
  function SeededPair(i: nat, seed: u64): (s: seq<u8>)
    requires i < 12
    ensures |s| == 16
  {
    Write64(Add64(Read64(K_SECRET[16 * i..16 * i + 8]), seed))
    + Write64(Sub64(Read64(K_SECRET[16 * i + 8..16 * i + 16]), seed))
  }

  function SeededPrefix(n: nat, seed: u64): (s: seq<u8>)
    requires n <= 12
    ensures |s| == 16 * n
  {
    if n == 0 then [] else SeededPrefix(n - 1, seed) + SeededPair(n - 1, seed)
  }

  /** What XXH3_initCustomSecret derives from a seed. */
  function Derive(seed: u64): (s: seq<u8>)
    ensures |s| == 192
  {
    SeededPrefix(12, seed)
  }

  lemma RewriteWord(s: seq<u8>)
    requires |s| == 8
    ensures Write64(Add64(Read64(s), 0)) == s
    ensures Write64(Sub64(Read64(s), 0)) == s
  {
    hide LE, Bytes;
    BytesOfLE(s);
    var x := Read64(s);
    assert Add64(x, 0) == x && Sub64(x, 0) == x;
  }

  /** The seed 0 derives the default secret itself. */
  lemma {:induction false} DeriveZeroPrefix(n: nat)
    requires n <= 12
    ensures SeededPrefix(n, 0) == K_SECRET[..16 * n]
  {
    hide K_SECRET, SeededPair;
    if n > 0 {
      DeriveZeroPrefix(n - 1);
      PairOfZero(n - 1);
      LastSixteen(K_SECRET, 16 * n);
    }
  }

  lemma PairOfZero(i: nat)
    requires i < 12
    ensures SeededPair(i, 0) == K_SECRET[16 * i..16 * i + 8] + K_SECRET[16 * i + 8..16 * i + 16]
  {
    hide K_SECRET, Add64, Sub64, Read64, Write64;
    RewriteWord(K_SECRET[16 * i..16 * i + 8]);
    RewriteWord(K_SECRET[16 * i + 8..16 * i + 16]);
  }

  lemma LastSixteen(s: seq<u8>, n: nat)
    requires 16 <= n <= |s|
    ensures s[..n] == s[..n - 16] + (s[n - 16..n - 8] + s[n - 8..n])
  {
  }

  lemma DeriveZero()
    ensures Derive(0) == K_SECRET
  {
    DeriveZeroPrefix(12);
  }

  /** XXH3_initCustomSecret_scalar */
  method InitCustomSecret(customSecret: array<u8>, seed: u64)
    requires customSecret.Length == 192
    modifies customSecret
    ensures customSecret[..] == Derive(seed)
  {
    hide K_SECRET, Add64, Sub64, Read64, Write64;
    for i := 0 to 12
      invariant customSecret[..16 * i] == SeededPrefix(i, seed)
    {
      var lo := Add64(Read64(K_SECRET[16 * i..16 * i + 8]), seed);
      var hi := Sub64(Read64(K_SECRET[16 * i + 8..16 * i + 16]), seed);
      WriteTwo(customSecret, 16 * i, lo, hi);
    }
  }

  method WriteTwo(dst: array<u8>, at: nat, lo: u64, hi: u64)
    requires at + 16 <= dst.Length
    modifies dst
    ensures dst[..at + 16] == old(dst[..at]) + (Write64(lo) + Write64(hi))
  {
    hide Write64;
    WriteLE64(dst, at, lo);
    assert dst[..at] == old(dst[..at]) && dst[at..at + 8] == Write64(lo);
    WriteLE64(dst, at + 8, hi);
    assert dst[..at] == old(dst[..at]) && dst[at..at + 8] == Write64(lo) && dst[at + 8..at + 16] == Write64(hi);
  }

  method WriteLE64(dst: array<u8>, at: nat, x: u64)
    requires at + 8 <= dst.Length
    modifies dst
    ensures dst[..] == old(dst[..at]) + Write64(x) + old(dst[at + 8..])
  {
    var bytes := Write64(x);
    forall i | at <= i < at + 8 { dst[i] := bytes[i - at]; }
  }
}
