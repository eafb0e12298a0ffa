/**
 XXH64 as steps 1 to 7 of the section "XXH64 Algorithm Description" of the xxHash
 specification give it: integer arithmetic modulo 2^64 with the primes as numbers,
 lane by lane. `Xxh64.Hash`, which the loops of the C code compute, is that function.
 */
module Xxh64Published {
  import opened Words
  import opened Memory
  import Xxh64

  const P1 := 0x9E3779B185EBCA87
  const P2 := 0xC2B2AE3D27D4EB4F
  const P3 := 0x165667B19E3779F9
  const P4 := 0x85EBCA77C2B2AE63
  const P5 := 0x27D4EB2F165667C5

  function Plus(a: nat, b: nat): nat { (a + b) % 0x1_0000_0000_0000_0000 }
  function Times(a: nat, b: nat): nat { (a * b) % 0x1_0000_0000_0000_0000 }

  /** A rotation to the left by r. */
  function Turn(x: nat, r: nat): nat
    requires r <= 64
  {
    QuotientIsNat(x, Pow2(64 - r));
    x * Pow2(r) % 0x1_0000_0000_0000_0000 + x / Pow2(64 - r)
  }

  /** A shift to the right by k. */
  function Down(x: nat, k: nat): nat
  {
    QuotientIsNat(x, Pow2(k));
    x / Pow2(k)
  }

  /** The little-endian number of n bytes from position i. */
  function Number(data: seq<u8>, i: nat, n: nat): nat
    requires i + n <= |data|
    decreases n
  {
    if n == 0 then 0 else data[i] + 256 * Number(data, i + 1, n - 1)
  }

  function RoundOf(acc: nat, lane: nat): nat
  {
    Times(Turn(Plus(acc, Times(lane, P2)), 31), P1)
  }

  /** Step 1: the four accumulators. */
  function Start(seed: u64, j: nat): nat
    requires j < 4
  {
    match j
    case 0 => Plus(Plus(seed, P1), P2)
    case 1 => Plus(seed, P2)
    case 2 => seed
    case 3 => (seed - P1) % 0x1_0000_0000_0000_0000
  }

  /** Step 2: accumulator j after n stripes, a fold over the words at 32 * k + 8 * j. */
  function Accumulator(data: seq<u8>, seed: u64, j: nat, n: nat): (acc: nat)
    requires j < 4 && 32 * n <= |data|
    ensures acc < 0x1_0000_0000_0000_0000
  {
    if n == 0 then Start(seed, j)
    else RoundOf(Accumulator(data, seed, j, n - 1), Number(data, 32 * (n - 1) + 8 * j, 8))
  }

  function Merge(acc: nat, lane: nat): nat
  {
    Plus(Times(Bxor(acc, RoundOf(0, lane)), P1), P4)
  }

  /** Step 3: all four accumulators converge. */
  function Converged(a: nat, b: nat, c: nat, d: nat): nat
  {
    var sum := Plus(Plus(Plus(Turn(a, 1), Turn(b, 7)), Turn(c, 12)), Turn(d, 18));
    Merge(Merge(Merge(Merge(sum, a), b), c), d)
  }

  /** Step 4: the length is added. */
  function WithLength(data: seq<u8>, seed: u64): nat
  {
    var n := |data| / 32;
    var acc :=
      if |data| < 32 then Plus(seed, P5)
      else Converged(Accumulator(data, seed, 0, n), Accumulator(data, seed, 1, n),
                     Accumulator(data, seed, 2, n), Accumulator(data, seed, 3, n));
    Plus(acc, |data|)
  }

  /** Step 5: the remaining input from position p on. */
  function Remaining(acc: nat, data: seq<u8>, p: nat): nat
    requires p <= |data|
    decreases |data| - p
  {
    var left := |data| - p;
    if left >= 8 then
      var lane := Number(data, p, 8);
      Remaining(Plus(Times(Turn(Bxor(acc, RoundOf(0, lane)), 27), P1), P4), data, p + 8)
    else if left >= 4 then
      var lane := Number(data, p, 4);
      Remaining(Plus(Times(Turn(Bxor(acc, Times(lane, P1)), 23), P2), P3), data, p + 4)
    else if left >= 1 then
      Remaining(Times(Turn(Bxor(acc, Times(data[p], P5)), 11), P1), data, p + 1)
    else acc
  }

  /** Step 6: the final mix. */
  function FinalMix(acc: nat): nat
  {
    var a := Times(Bxor(acc, Down(acc, 33)), P2);
    var b := Times(Bxor(a, Down(a, 29)), P3);
    Bxor(b, Down(b, 32))
  }

  /** Step 7: the output. */
  function Published(data: seq<u8>, seed: u64): nat
  {
    FinalMix(Remaining(WithLength(data, seed), data, |data| / 32 * 32))
  }

  // ---------- the hash is the published one ----------

  lemma {:induction false} NumberIsLE(data: seq<u8>, i: nat, n: nat)
    requires i + n <= |data|
    ensures Number(data, i, n) == LE(data[i..i + n])
    decreases n
  {
    if n > 0 {
      NumberIsLE(data, i + 1, n - 1);
      assert data[i..i + n][1..] == data[i + 1..i + 1 + (n - 1)];
    }
  }

  lemma TurnIsRotl(x: u64, r: nat)
    requires 0 < r < 64
    ensures Turn(x, r) == Rotl64(x, r)
  {
    Pow2Values();
    RotlIsSum(x, r, 64);
    Pow2Adds(r, 64 - r);
    ShiftSplits(x, Pow2(r), Pow2(64 - r));
  }

  lemma RoundIs(acc: u64, lane: u64)
    ensures RoundOf(acc, lane) == Xxh64.Round(acc, lane)
  {
    hide Turn, Rotl64;
    TurnIsRotl(Add64(acc, Mul64(lane, P2)), 31);
  }

  lemma MergeIs(acc: u64, lane: u64)
    ensures Merge(acc, lane) == Xxh64.MergeRound(acc, lane)
  {
    hide RoundOf, Xxh64.Round, Bxor;
    RoundIs(0, lane);
  }

  lemma StartIs(seed: u64)
    ensures Xxh64.Init(seed) == Xxh64.Lanes(Start(seed, 0), Start(seed, 1), Start(seed, 2), Start(seed, 3))
  {
  }

  lemma Quarters(data: seq<u8>, p: nat)
    requires p + 32 <= |data|
    ensures var s := data[p..p + 32];
            && Read64(s[..8]) == Word64(data, p) && Read64(s[8..16]) == Word64(data, p + 8)
            && Read64(s[16..24]) == Word64(data, p + 16) && Read64(s[24..]) == Word64(data, p + 24)
  {
    hide Read64;
    SubSlice(data, p, p + 32, 0, 8);
    SubSlice(data, p, p + 32, 8, 16);
    SubSlice(data, p, p + 32, 16, 24);
    SubSlice(data, p, p + 32, 24, 32);
  }

  /** One stripe, lane by lane. */
  lemma StripeIs(data: seq<u8>, seed: u64, n: nat)
    requires 32 * n + 32 <= |data|
    ensures Xxh64.Stripe(LanesOf(data, seed, n), data[32 * n..32 * n + 32]) == LanesOf(data, seed, n + 1)
  {
    hide Accumulator, Xxh64.Round, Word64, Read64;
    Quarters(data, 32 * n);
    LaneIs(data, seed, 0, n);
    LaneIs(data, seed, 1, n);
    LaneIs(data, seed, 2, n);
    LaneIs(data, seed, 3, n);
  }

  lemma LaneIs(data: seq<u8>, seed: u64, j: nat, n: nat)
    requires j < 4 && 32 * n + 32 <= |data|
    ensures Accumulator(data, seed, j, n + 1) ==
            Xxh64.Round(Accumulator(data, seed, j, n), Word64(data, 32 * n + 8 * j))
  {
    hide RoundOf, Xxh64.Round, LE, Number;
    NumberIsLE(data, 32 * n + 8 * j, 8);
    RoundIs(Accumulator(data, seed, j, n), Word64(data, 32 * n + 8 * j));
  }

  function LanesOf(data: seq<u8>, seed: u64, n: nat): Xxh64.Lanes
    requires 32 * n <= |data|
  {
    Xxh64.Lanes(Accumulator(data, seed, 0, n), Accumulator(data, seed, 1, n),
                Accumulator(data, seed, 2, n), Accumulator(data, seed, 3, n))
  }

  lemma {:induction false} StripesAre(data: seq<u8>, seed: u64, n: nat)
    requires 32 * n <= |data|
    ensures Xxh64.Stripes(Xxh64.Init(seed), data[..32 * n]) == LanesOf(data, seed, n)
  {
    hide Xxh64.Stripe, RoundOf;
    if n == 0 {
      StartIs(seed);
    } else {
      var m := n - 1;
      StripesAre(data, seed, m);
      var last := data[32 * m..32 * m + 32];
      Xxh64.StripesAppend(Xxh64.Init(seed), data[..32 * m], last, m);
      assert data[..32 * n] == data[..32 * m] + last;
      OneStripe(LanesOf(data, seed, m), last);
      StripeIs(data, seed, m);
    }
  }

  lemma OneStripe(v: Xxh64.Lanes, s: seq<u8>)
    requires |s| == 32
    ensures Xxh64.Stripes(v, s) == Xxh64.Stripe(v, s)
  {
    hide Xxh64.Stripe;
    assert s[..32] == s && s[32..] == [];
  }

  lemma ConvergedIs(v: Xxh64.Lanes)
    ensures Converged(v.v1, v.v2, v.v3, v.v4) == Xxh64.Converge(v)
  {
    hide Turn, Rotl64, Merge, Xxh64.MergeRound;
    TurnIsRotl(v.v1, 1);
    TurnIsRotl(v.v2, 7);
    TurnIsRotl(v.v3, 12);
    TurnIsRotl(v.v4, 18);
    var h := Add64(Add64(Add64(Rotl64(v.v1, 1), Rotl64(v.v2, 7)), Rotl64(v.v3, 12)), Rotl64(v.v4, 18));
    MergeIs(h, v.v1);
    MergeIs(Xxh64.MergeRound(h, v.v1), v.v2);
    MergeIs(Xxh64.MergeRound(Xxh64.MergeRound(h, v.v1), v.v2), v.v3);
    MergeIs(Xxh64.MergeRound(Xxh64.MergeRound(Xxh64.MergeRound(h, v.v1), v.v2), v.v3), v.v4);
  }

  lemma WithLengthIs(data: seq<u8>, seed: u64)
    ensures WithLength(data, seed) == Xxh64.Start(Xxh64.Stripes(Xxh64.Init(seed), data), seed, |data|)
  {
    hide Xxh64.Stripes, Xxh64.Init, Converged, Xxh64.Converge, Accumulator;
    var n := |data| / 32;
    if n > 0 {
      StripesAre(data, seed, n);
      assert data == data[..32 * n] + data[32 * n..];
      Xxh64.StripesPart(Xxh64.Init(seed), data[..32 * n], data[32 * n..], n);
      ConvergedIs(LanesOf(data, seed, n));
    }
  }

  lemma Absorb8Is(acc: u64, lane: u64)
    ensures Plus(Times(Turn(Bxor(acc, RoundOf(0, lane)), 27), P1), P4) == Xxh64.Absorb8(acc, lane)
  {
    hide RoundOf, Xxh64.Round, Turn, Rotl64, Bxor;
    RoundIs(0, lane);
    TurnIsRotl(Xor64(acc, Xxh64.Round(0, lane)), 27);
  }

  lemma Absorb4Is(acc: u64, lane: u32)
    ensures Plus(Times(Turn(Bxor(acc, Times(lane, P1)), 23), P2), P3) == Xxh64.Absorb4(acc, lane)
  {
    hide Turn, Rotl64, Bxor;
    TurnIsRotl(Xor64(acc, Mul64(lane, P1)), 23);
  }

  lemma Absorb1Is(acc: u64, byte: u8)
    ensures Times(Turn(Bxor(acc, Times(byte, P5)), 11), P1) == Xxh64.Absorb1(acc, byte)
  {
    hide Turn, Rotl64, Bxor;
    TurnIsRotl(Xor64(acc, Mul64(byte, P5)), 11);
  }

  lemma {:induction false} RemainingIs(acc: u64, data: seq<u8>, p: nat)
    requires p <= |data|
    ensures Remaining(acc, data, p) == Xxh64.Tail(acc, data[p..])
    decreases |data| - p
  {
    hide Turn, RoundOf, Bxor, Plus, Times, LE, Number, Xxh64.Absorb8, Xxh64.Absorb4, Xxh64.Absorb1;
    var left, s := |data| - p, data[p..];
    if left >= 8 {
      NumberIsLE(data, p, 8);
      assert s[..8] == data[p..p + 8] && s[8..] == data[p + 8..];
      Absorb8Is(acc, Word64(data, p));
      RemainingIs(Xxh64.Absorb8(acc, Word64(data, p)), data, p + 8);
    } else if left >= 4 {
      NumberIsLE(data, p, 4);
      assert s[..4] == data[p..p + 4] && s[4..] == data[p + 4..];
      Absorb4Is(acc, Word32(data, p));
      RemainingIs(Xxh64.Absorb4(acc, Word32(data, p)), data, p + 4);
    } else if left >= 1 {
      assert s[0] == data[p] && s[1..] == data[p + 1..];
      Absorb1Is(acc, data[p]);
      RemainingIs(Xxh64.Absorb1(acc, data[p]), data, p + 1);
    }
  }

  lemma ShiftedIs(x: u64, k: nat)
    ensures Bxor(x, Down(x, k)) == Xorshift64(x, k)
  {
    hide Bxor, Shr, Pow2;
    ShrIsDiv(x, k);
  }

  lemma FinalMixIs(acc: u64)
    ensures FinalMix(acc) == Xxh64.Avalanche(acc)
  {
    hide Xorshift64, Bxor, Down;
    ShiftedIs(acc, 33);
    var a := Mul64(Xorshift64(acc, 33), P2);
    ShiftedIs(a, 29);
    var b := Mul64(Xorshift64(a, 29), P3);
    ShiftedIs(b, 32);
  }

  /** For all inputs and seeds the hash is the published one. */
  lemma HashIsPublished(data: seq<u8>, seed: u64)
    ensures Xxh64.Hash(data, seed) == Published(data, seed)
  {
    hide WithLength, Remaining, FinalMix, Xxh64.Start, Xxh64.Stripes, Xxh64.Init, Xxh64.Tail, Xxh64.Avalanche;
    var p := |data| / 32 * 32;
    WithLengthIs(data, seed);
    var h := Xxh64.Start(Xxh64.Stripes(Xxh64.Init(seed), data), seed, |data|);
    RemainingIs(h, data, p);
    FinalMixIs(Xxh64.Tail(h, data[p..]));
  }
}
