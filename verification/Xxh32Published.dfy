/**
 XXH32 as steps 1 to 7 of the section "XXH32 Algorithm Description" of the xxHash
 specification give it: integer arithmetic modulo 2^32 with the primes as numbers,
 lane by lane. `Xxh32.Hash`, which the loops of the C code compute, is that function.
 */
module Xxh32Published {
  import opened Words
  import opened Memory
  import Xxh32
  import Xxh64Published

  const P1 := 0x9E3779B1
  const P2 := 0x85EBCA77
  const P3 := 0xC2B2AE3D
  const P4 := 0x27D4EB2F
  const P5 := 0x165667B1

  function Plus(a: nat, b: nat): nat { (a + b) % 0x1_0000_0000 }
  function Times(a: nat, b: nat): nat { (a * b) % 0x1_0000_0000 }

  /** A rotation to the left by r. */
  function Turn(x: nat, r: nat): nat
    requires r <= 32
  {
    QuotientIsNat(x, Pow2(32 - r));
    x * Pow2(r) % 0x1_0000_0000 + x / Pow2(32 - r)
  }

  function RoundOf(acc: nat, lane: nat): nat
  {
    Times(Turn(Plus(acc, Times(lane, P2)), 13), P1)
  }

  /** Step 1: the four accumulators. */
  function Start(seed: u32, j: nat): nat
    requires j < 4
  {
    match j
    case 0 => Plus(Plus(seed, P1), P2)
    case 1 => Plus(seed, P2)
    case 2 => seed
    case 3 => (seed - P1) % 0x1_0000_0000
  }

  /** Step 2: accumulator j after n stripes, a fold over the words at 16 * k + 4 * j. */
  function Accumulator(data: seq<u8>, seed: u32, j: nat, n: nat): (acc: nat)
    requires j < 4 && 16 * n <= |data|
    ensures acc < 0x1_0000_0000
  {
    if n == 0 then Start(seed, j)
    else RoundOf(Accumulator(data, seed, j, n - 1), Xxh64Published.Number(data, 16 * (n - 1) + 4 * j, 4))
  }

  /** Step 3: the accumulators converge. */
  function Converged(a: nat, b: nat, c: nat, d: nat): nat
  {
    Plus(Plus(Plus(Turn(a, 1), Turn(b, 7)), Turn(c, 12)), Turn(d, 18))
  }

  /** Step 4: the length is added, modulo 2^32. */
  function WithLength(data: seq<u8>, seed: u32): nat
  {
    var n := |data| / 16;
    var acc :=
      if |data| < 16 then Plus(seed, P5)
      else Converged(Accumulator(data, seed, 0, n), Accumulator(data, seed, 1, n),
                     Accumulator(data, seed, 2, n), Accumulator(data, seed, 3, n));
    Plus(acc, |data| % 0x1_0000_0000)
  }

  /** Step 5: the remaining input from position p on. */
  function Remaining(acc: nat, data: seq<u8>, p: nat): nat
    requires p <= |data|
    decreases |data| - p
  {
    var left := |data| - p;
    if left >= 4 then
      var lane := Xxh64Published.Number(data, p, 4);
      Remaining(Times(Turn(Plus(acc, Times(lane, P3)), 17), P4), data, p + 4)
    else if left >= 1 then
      Remaining(Times(Turn(Plus(acc, Times(data[p], P5)), 11), P1), data, p + 1)
    else acc
  }

  /** Step 6: the final mix. */
  function FinalMix(acc: nat): nat
  {
    var a := Times(Bxor(acc, Xxh64Published.Down(acc, 15)), P2);
    var b := Times(Bxor(a, Xxh64Published.Down(a, 13)), P3);
    Bxor(b, Xxh64Published.Down(b, 16))
  }

  /** Step 7: the output. */
  function Published(data: seq<u8>, seed: u32): nat
  {
    FinalMix(Remaining(WithLength(data, seed), data, |data| / 16 * 16))
  }

  // ---------- the hash is the published one ----------

  lemma TurnIsRotl(x: u32, r: nat)
    requires 0 < r < 32
    ensures Turn(x, r) == Rotl32(x, r)
  {
    Pow2Values();
    RotlIsSum(x, r, 32);
    Pow2Adds(r, 32 - r);
    ShiftSplits(x, Pow2(r), Pow2(32 - r));
  }

  lemma RoundIs(acc: u32, lane: u32)
    ensures RoundOf(acc, lane) == Xxh32.Round(acc, lane)
  {
    hide Turn, Rotl32;
    TurnIsRotl(Add32(acc, Mul32(lane, P2)), 13);
  }

  lemma StartIs(seed: u32)
    ensures Xxh32.Init(seed) == Xxh32.Lanes(Start(seed, 0), Start(seed, 1), Start(seed, 2), Start(seed, 3))
  {
  }

  lemma Quarters(data: seq<u8>, p: nat)
    requires p + 16 <= |data|
    ensures var s := data[p..p + 16];
            && Read32(s[..4]) == Word32(data, p) && Read32(s[4..8]) == Word32(data, p + 4)
            && Read32(s[8..12]) == Word32(data, p + 8) && Read32(s[12..]) == Word32(data, p + 12)
  {
    hide Read32;
    SubSlice(data, p, p + 16, 0, 4);
    SubSlice(data, p, p + 16, 4, 8);
    SubSlice(data, p, p + 16, 8, 12);
    SubSlice(data, p, p + 16, 12, 16);
  }

  function LanesOf(data: seq<u8>, seed: u32, n: nat): Xxh32.Lanes
    requires 16 * n <= |data|
  {
    Xxh32.Lanes(Accumulator(data, seed, 0, n), Accumulator(data, seed, 1, n),
                Accumulator(data, seed, 2, n), Accumulator(data, seed, 3, n))
  }

  lemma LaneIs(data: seq<u8>, seed: u32, j: nat, n: nat)
    requires j < 4 && 16 * n + 16 <= |data|
    ensures Accumulator(data, seed, j, n + 1) ==
            Xxh32.Round(Accumulator(data, seed, j, n), Word32(data, 16 * n + 4 * j))
  {
    hide RoundOf, Xxh32.Round, LE, Xxh64Published.Number;
    Xxh64Published.NumberIsLE(data, 16 * n + 4 * j, 4);
    RoundIs(Accumulator(data, seed, j, n), Word32(data, 16 * n + 4 * j));
  }

  /** One stripe, lane by lane. */
  lemma StripeIs(data: seq<u8>, seed: u32, n: nat)
    requires 16 * n + 16 <= |data|
    ensures Xxh32.Stripe(LanesOf(data, seed, n), data[16 * n..16 * n + 16]) == LanesOf(data, seed, n + 1)
  {
    hide Accumulator, Xxh32.Round, Word32, Read32;
    Quarters(data, 16 * n);
    LaneIs(data, seed, 0, n);
    LaneIs(data, seed, 1, n);
    LaneIs(data, seed, 2, n);
    LaneIs(data, seed, 3, n);
  }

  lemma {:induction false} StripesAre(data: seq<u8>, seed: u32, n: nat)
    requires 16 * n <= |data|
    ensures Xxh32.Stripes(Xxh32.Init(seed), data[..16 * n]) == LanesOf(data, seed, n)
  {
    hide Xxh32.Stripe, RoundOf;
    if n == 0 {
      StartIs(seed);
    } else {
      var m := n - 1;
      StripesAre(data, seed, m);
      var last := data[16 * m..16 * m + 16];
      Xxh32.StripesAppend(Xxh32.Init(seed), data[..16 * m], last, m);
      assert data[..16 * n] == data[..16 * m] + last;
      OneStripe(LanesOf(data, seed, m), last);
      StripeIs(data, seed, m);
    }
  }

  lemma OneStripe(v: Xxh32.Lanes, s: seq<u8>)
    requires |s| == 16
    ensures Xxh32.Stripes(v, s) == Xxh32.Stripe(v, s)
  {
    hide Xxh32.Stripe;
    assert s[..16] == s && s[16..] == [];
  }

  lemma ConvergedIs(v: Xxh32.Lanes)
    ensures Converged(v.v1, v.v2, v.v3, v.v4) == Xxh32.Converge(v)
  {
    hide Turn, Rotl32;
    TurnIsRotl(v.v1, 1);
    TurnIsRotl(v.v2, 7);
    TurnIsRotl(v.v3, 12);
    TurnIsRotl(v.v4, 18);
  }

  lemma WithLengthIs(data: seq<u8>, seed: u32)
    ensures WithLength(data, seed) == Xxh32.Start(Xxh32.Stripes(Xxh32.Init(seed), data), seed, |data|)
  {
    hide Xxh32.Stripes, Xxh32.Init, Converged, Xxh32.Converge, Accumulator;
    var n := |data| / 16;
    if n > 0 {
      StripesAre(data, seed, n);
      assert data == data[..16 * n] + data[16 * n..];
      Xxh32.StripesPart(Xxh32.Init(seed), data[..16 * n], data[16 * n..], n);
      ConvergedIs(LanesOf(data, seed, n));
    }
  }

  lemma Absorb4Is(acc: u32, lane: u32)
    ensures Times(Turn(Plus(acc, Times(lane, P3)), 17), P4) == Xxh32.Absorb4(acc, lane)
  {
    hide Turn, Rotl32;
    TurnIsRotl(Add32(acc, Mul32(lane, P3)), 17);
  }

  lemma Absorb1Is(acc: u32, byte: u8)
    ensures Times(Turn(Plus(acc, Times(byte, P5)), 11), P1) == Xxh32.Absorb1(acc, byte)
  {
    hide Turn, Rotl32;
    TurnIsRotl(Add32(acc, Mul32(byte, P5)), 11);
  }

  lemma {:induction false} RemainingIs(acc: u32, data: seq<u8>, p: nat)
    requires p <= |data|
    ensures Remaining(acc, data, p) == Xxh32.Tail(acc, data[p..])
    decreases |data| - p
  {
    hide Turn, Plus, Times, LE, Xxh64Published.Number, Xxh32.Absorb4, Xxh32.Absorb1;
    var left, s := |data| - p, data[p..];
    if left >= 4 {
      Xxh64Published.NumberIsLE(data, p, 4);
      assert s[..4] == data[p..p + 4] && s[4..] == data[p + 4..];
      Absorb4Is(acc, Word32(data, p));
      RemainingIs(Xxh32.Absorb4(acc, Word32(data, p)), data, p + 4);
    } else if left >= 1 {
      assert s[0] == data[p] && s[1..] == data[p + 1..];
      Absorb1Is(acc, data[p]);
      RemainingIs(Xxh32.Absorb1(acc, data[p]), data, p + 1);
    }
  }

  lemma ShiftedIs(x: u32, k: nat)
    ensures Bxor(x, Xxh64Published.Down(x, k)) == Xxh32.Xorshift(x, k)
  {
    hide Bxor, Shr, Pow2;
    ShrIsDiv(x, k);
  }

  lemma FinalMixIs(acc: u32)
    ensures FinalMix(acc) == Xxh32.Avalanche(acc)
  {
    hide Xxh32.Xorshift, Bxor, Xxh64Published.Down;
    ShiftedIs(acc, 15);
    var a := Mul32(Xxh32.Xorshift(acc, 15), P2);
    ShiftedIs(a, 13);
    var b := Mul32(Xxh32.Xorshift(a, 13), P3);
    ShiftedIs(b, 16);
  }

  /** For all inputs of all lengths and all seeds the hash is the published one. */
  lemma HashIsPublished(data: seq<u8>, seed: u32)
    ensures Xxh32.Hash(data, seed) == Published(data, seed)
  {
    hide WithLength, Remaining, FinalMix, Xxh32.Start, Xxh32.Stripes, Xxh32.Init, Xxh32.Tail, Xxh32.Avalanche;
    var p := |data| / 16 * 16;
    WithLengthIs(data, seed);
    var h := Xxh32.Start(Xxh32.Stripes(Xxh32.Init(seed), data), seed, |data|);
    RemainingIs(h, data, p);
    FinalMixIs(Xxh32.Tail(h, data[p..]));
  }
}
