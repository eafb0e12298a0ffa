/**
 XXH64 loses nothing once the stripes are folded. Every mixing step has an
 inverse; so the tail and the final avalanche are one-to-one, and inputs that
 differ in one word of the tail always have different hashes.
 */
module Xxh64Bijective {
  import opened Words
  import opened Xxh64

  // ---------- inverses of the word operations ----------

  lemma ModMul(x: int, y: int, m: nat)
    requires m > 0
    ensures (x % m) * y % m == x * y % m
  {
    var q, r := x / m, x % m;
    assert x * y == r * y + m * (q * y);
    AddMultiple(r * y, q * y, m);
  }

  lemma AddMultiple(a: int, k: int, m: nat)
    requires m > 0
    ensures (a + m * k) % m == a % m
  {
    var q, r := a / m, a % m;
    assert a + m * k == m * (q + k) + r;
    var t := (a + m * k) / m - (q + k);
    assert m * t == r - (a + m * k) % m;
    if t >= 1 {
      MulLe(m, 1, t);
    } else if t <= -1 {
      MulLe(m, t, -1);
    }
  }

  /** Multiplying by an odd constant is undone by multiplying by its inverse. */
  lemma MulUndone(x: u64, p: u64, q: u64)
    requires p * q % M64 == 1
    ensures Mul64(Mul64(x, p), q) == x
  {
    hide Mul64;
    var k := p * q / M64;
    MulTwice(x, p, q);
    QuotientOfOne(p * q, M64);
    InverseProduct(x, p, q, k, M64);
    AddMultiple(x, x * k, M64);
  }

  lemma MulTwice(x: u64, p: u64, q: u64)
    ensures Mul64(Mul64(x, p), q) == x * p * q % M64
  {
    ModMul(x * p, q, M64);
  }

  lemma QuotientOfOne(n: int, m: nat)
    requires m > 1 && n % m == 1
    ensures n == m * (n / m) + 1
  {
  }

  lemma InverseProduct(x: int, p: int, q: int, k: int, m: int)
    requires p * q == m * k + 1
    ensures x * p * q == x + m * (x * k)
  {
    assert x * p * q == x * (p * q);
    assert x * (m * k) == m * (x * k);
  }

  lemma RotlUndone(x: u64, r: nat)
    requires 0 < r < 64
    ensures Rotl64(Rotl64(x, r), 64 - r) == x
  {
    var p, q := Pow2(r), Pow2(64 - r);
    var y := Rotl64(x, r);
    RotlValue(x, r);
    RotlValue(y, 64 - r);
    Recombine(x, y, p, q);
  }

  lemma RotlValue(x: u64, r: nat)
    requires 0 < r < 64
    ensures Rotl64(x, r) == x % Pow2(64 - r) * Pow2(r) + x / Pow2(64 - r)
    ensures x / Pow2(64 - r) < Pow2(r)
  {
    hide Bor, Shr, Pow2;
    Pow2Values();
    RotlIsSum(x, r, 64);
  }

  lemma Recombine(x: nat, y: nat, p: nat, q: nat)
    requires p > 0 && q > 0 && x / q < p
    requires y == x % q * p + x / q
    ensures y % p * q + y / p == x
  {
    DivUnique(y, p, x % q, x / q);
    assert x == q * (x / q) + x % q;
  }

  /** The inverse of `x ^ (x >> k)`, rebuilt from the high digits down. */
  function Unshift(y: nat, k: nat): nat
    requires k > 0
    decreases y
  {
    if y == 0 then 0
    else
      ShrDecreases(y, k);
      Bxor(y, Unshift(Shr(y, k), k))
  }

  lemma ShrDecreases(y: nat, k: nat)
    requires k > 0 && y > 0
    ensures Shr(y, k) < y
  {
    ShrBound(y / 2, k - 1);
  }

  lemma {:induction false} UnshiftBound(y: nat, k: nat, n: nat)
    requires k > 0 && y < Pow2(n)
    ensures Unshift(y, k) < Pow2(n)
    decreases y
  {
    if y > 0 {
      ShrDecreases(y, k);
      UnshiftBound(Shr(y, k), k, n);
      BxorBound(y, Unshift(Shr(y, k), k), n);
    }
  }

  lemma {:induction false} UnshiftAfterShift(x: nat, k: nat)
    requires k > 0
    ensures Unshift(Bxor(x, Shr(x, k)), k) == x
    decreases x
  {
    var h := Shr(x, k);
    var y := Bxor(x, h);
    BxorCancels(x, h);
    if x == 0 {
      ShrBound(0, k);
      BxorZero(0);
    } else {
      ShrDecreases(x, k);
      UnshiftAfterShift(h, k);
      BxorShift(x, h, k);
      if y == 0 {
        BxorZero(h);
        assert false;
      }
    }
  }

  lemma {:induction false} ShiftAfterUnshift(y: nat, k: nat)
    requires k > 0
    ensures Bxor(Unshift(y, k), Shr(Unshift(y, k), k)) == y
    decreases y
  {
    if y == 0 {
      ShrBound(0, k);
      BxorZero(0);
    } else {
      ShrDecreases(y, k);
      var h := Shr(y, k);
      var w := Unshift(h, k);
      ShiftAfterUnshift(h, k);
      BxorCancels(w, Shr(w, k));
      BxorShift(y, w, k);
      BxorCancels(y, w);
    }
  }

  function Unxorshift64(y: u64, k: nat): u64
    requires k > 0
  {
    Pow2Values();
    UnshiftBound(y, k, 64);
    Unshift(y, k)
  }

  lemma XorshiftUndone(x: u64, k: nat)
    requires k > 0
    ensures Unxorshift64(Xorshift64(x, k), k) == x
    ensures Xorshift64(Unxorshift64(x, k), k) == x
  {
    UnshiftAfterShift(x, k);
    ShiftAfterUnshift(x, k);
  }

  // ---------- Round and Avalanche are bijections ----------

  /** The inverses of the odd multipliers modulo 2^64. */
  const INVERSE_1: u64 := 0x887493432badb37
  const INVERSE_2: u64 := 0xba79078168d4baf
  const INVERSE_3: u64 := 0xe9e9f4c41d6df849
  const INVERSE_5: u64 := 0xc592c09fdfba7f0d

  lemma Inverses(x: u64)
    ensures Mul64(Mul64(x, PRIME64_1), INVERSE_1) == x && Mul64(Mul64(x, INVERSE_1), PRIME64_1) == x
    ensures Mul64(Mul64(x, PRIME64_2), INVERSE_2) == x && Mul64(Mul64(x, INVERSE_2), PRIME64_2) == x
    ensures Mul64(Mul64(x, PRIME64_3), INVERSE_3) == x && Mul64(Mul64(x, INVERSE_3), PRIME64_3) == x
    ensures Mul64(Mul64(x, PRIME64_5), INVERSE_5) == x && Mul64(Mul64(x, INVERSE_5), PRIME64_5) == x
  {
    hide Mul64;
    MulUndone(x, PRIME64_1, INVERSE_1);
    MulUndone(x, INVERSE_1, PRIME64_1);
    MulUndone(x, PRIME64_2, INVERSE_2);
    MulUndone(x, INVERSE_2, PRIME64_2);
    MulUndone(x, PRIME64_3, INVERSE_3);
    MulUndone(x, INVERSE_3, PRIME64_3);
    MulUndone(x, PRIME64_5, INVERSE_5);
    MulUndone(x, INVERSE_5, PRIME64_5);
  }

  lemma AddUndone(x: u64, c: u64)
    ensures Sub64(Add64(x, c), c) == x
    ensures Add64(Sub64(x, c), c) == x
    ensures Sub64(Add64(c, x), c) == x
    ensures Add64(c, Sub64(x, c)) == x
  {
    hide Add64, Sub64;
    SumWraps(x, c);
    SumWraps(c, x);
    DifferenceWraps(x, c);
    DifferenceWraps(Add64(x, c), c);
    DifferenceWraps(Add64(c, x), c);
    SumWraps(Sub64(x, c), c);
    SumWraps(c, Sub64(x, c));
  }

  lemma XorUndone(x: u64, c: u64)
    ensures Xor64(Xor64(x, c), c) == x
    ensures Xor64(c, Xor64(c, x)) == x
  {
    BxorCancels(x, c);
  }

  function RoundAcc(r: u64, input: u64): u64
  {
    Sub64(Rotl64(Mul64(r, INVERSE_1), 33), Mul64(input, PRIME64_2))
  }

  function RoundInput(r: u64, acc: u64): u64
  {
    Mul64(Sub64(Rotl64(Mul64(r, INVERSE_1), 33), acc), INVERSE_2)
  }

  /** XXH64_round is a bijection in the accumulator for each input word. */
  lemma RoundBijectiveInAcc(acc: u64, input: u64)
    ensures RoundAcc(Round(acc, input), input) == acc
    ensures Round(RoundAcc(acc, input), input) == acc
  {
    hide Mul64, Add64, Sub64, Rotl64;
    var m := Mul64(input, PRIME64_2);
    var t := Rotl64(Add64(acc, m), 31);
    Inverses(t);
    RotlUndone(Add64(acc, m), 31);
    AddUndone(acc, m);
    var u := Mul64(acc, INVERSE_1);
    AddUndone(Rotl64(u, 33), m);
    RotlUndone(u, 33);
    Inverses(acc);
  }

  /** ... and a bijection in the input word for each accumulator. */
  lemma RoundBijectiveInInput(acc: u64, input: u64)
    ensures RoundInput(Round(acc, input), acc) == input
    ensures Round(acc, RoundInput(input, acc)) == input
  {
    hide Mul64, Add64, Sub64, Rotl64;
    var m := Mul64(input, PRIME64_2);
    var t := Rotl64(Add64(acc, m), 31);
    Inverses(t);
    RotlUndone(Add64(acc, m), 31);
    AddUndone(m, acc);
    Inverses(input);
    var u := Mul64(input, INVERSE_1);
    var d := Sub64(Rotl64(u, 33), acc);
    Inverses(d);
    AddUndone(Rotl64(u, 33), acc);
    RotlUndone(u, 33);
  }

  function Unavalanche(h: u64): u64
  {
    Unxorshift64(Mul64(Unxorshift64(Mul64(Unxorshift64(h, 32), INVERSE_3), 29), INVERSE_2), 33)
  }

  /** XXH64_avalanche is a bijection on 64-bit words. */
  lemma AvalancheBijective(h: u64)
    ensures Unavalanche(Avalanche(h)) == h
    ensures Avalanche(Unavalanche(h)) == h
  {
    hide Mul64, Xorshift64, Unxorshift64;
    var a := Xorshift64(h, 33);
    var b := Mul64(a, PRIME64_2);
    var c := Xorshift64(b, 29);
    var d := Mul64(c, PRIME64_3);
    XorshiftUndone(h, 33);
    XorshiftUndone(b, 29);
    XorshiftUndone(d, 32);
    Inverses(a);
    Inverses(c);
    var e := Unxorshift64(h, 32);
    var f := Mul64(e, INVERSE_3);
    var g := Unxorshift64(f, 29);
    var k := Mul64(g, INVERSE_2);
    XorshiftUndone(f, 29);
    XorshiftUndone(k, 33);
    XorshiftUndone(h, 32);
    Inverses(e);
    Inverses(g);
  }

  // ---------- the tail ----------

  /** `rotl(h ^ m, r) * p + c` is one-to-one in h, and in m. */
  function Mix(h: u64, m: u64, r: nat, p: u64, c: u64): u64
    requires 0 < r < 64
  {
    Add64(Mul64(Rotl64(Xor64(h, m), r), p), c)
  }

  lemma MixInjective(h: u64, h': u64, m: u64, m': u64, r: nat, p: u64, q: u64, c: u64)
    requires 0 < r < 64 && p * q % M64 == 1
    requires Mix(h, m, r, p, c) == Mix(h', m', r, p, c)
    ensures m == m' ==> h == h'
    ensures h == h' ==> m == m'
  {
    hide Mul64, Add64, Sub64, Rotl64, Xor64;
    var x, x' := Xor64(h, m), Xor64(h', m');
    var y, y' := Rotl64(x, r), Rotl64(x', r);
    AddUndone(Mul64(y, p), c);
    AddUndone(Mul64(y', p), c);
    MulUndone(y, p, q);
    MulUndone(y', p, q);
    RotlUndone(x, r);
    RotlUndone(x', r);
    XorUndone(h, m);
    XorUndone(h', m');
    XorUndone(m, h);
    XorUndone(m', h');
  }

  lemma MulInjective(x: u64, y: u64, p: u64, q: u64)
    requires p * q % M64 == 1
    requires Mul64(x, p) == Mul64(y, p)
    ensures x == y
  {
    hide Mul64;
    MulUndone(x, p, q);
    MulUndone(y, p, q);
  }

  lemma Absorb8Injective(h: u64, h': u64, w: u64, w': u64)
    requires Absorb8(h, w) == Absorb8(h', w')
    ensures w == w' ==> h == h'
    ensures h == h' ==> w == w'
  {
    hide Mul64, Add64, Sub64, Rotl64, Xor64, Round;
    MixInjective(h, h', Round(0, w), Round(0, w'), 27, PRIME64_1, INVERSE_1, PRIME64_4);
    RoundBijectiveInInput(0, w);
    RoundBijectiveInInput(0, w');
  }

  lemma Absorb4Injective(h: u64, h': u64, w: u32, w': u32)
    requires Absorb4(h, w) == Absorb4(h', w')
    ensures w == w' ==> h == h'
    ensures h == h' ==> w == w'
  {
    hide Mul64, Add64, Sub64, Rotl64, Xor64;
    MixInjective(h, h', Mul64(w, PRIME64_1), Mul64(w', PRIME64_1), 23, PRIME64_2, INVERSE_2, PRIME64_3);
    if h == h' {
      MulInjective(w, w', PRIME64_1, INVERSE_1);
    }
  }

  lemma Absorb1Injective(h: u64, h': u64, b: u8, b': u8)
    requires Absorb1(h, b) == Absorb1(h', b')
    ensures b == b' ==> h == h'
    ensures h == h' ==> b == b'
  {
    hide Mul64, Sub64, Rotl64, Xor64;
    MixInjective(h, h', Mul64(b, PRIME64_5), Mul64(b', PRIME64_5), 11, PRIME64_1, INVERSE_1, 0);
    if h == h' {
      MulInjective(b, b', PRIME64_5, INVERSE_5);
    }
  }

  /** For a fixed tail, the finalisation is one-to-one in the running hash. */
  lemma {:induction false} TailInjectiveInHash(h: u64, h': u64, s: seq<u8>)
    requires Tail(h, s) == Tail(h', s)
    ensures h == h'
    decreases |s|
  {
    hide Absorb8, Absorb4, Absorb1, Read64, Read32;
    if |s| >= 8 {
      var w := Read64(s[..8]);
      TailInjectiveInHash(Absorb8(h, w), Absorb8(h', w), s[8..]);
      Absorb8Injective(h, h', w, w);
    } else if |s| >= 4 {
      var w := Read32(s[..4]);
      TailInjectiveInHash(Absorb4(h, w), Absorb4(h', w), s[4..]);
      Absorb4Injective(h, h', w, w);
    } else if |s| >= 1 {
      TailInjectiveInHash(Absorb1(h, s[0]), Absorb1(h', s[0]), s[1..]);
      Absorb1Injective(h, h', s[0], s[0]);
    }
  }

  /** Where the word that byte i of an n-byte tail belongs to starts. */
  function WordStart(n: nat, i: nat): nat
    requires i < n
  {
    if n >= 8 then (if i < 8 then 0 else 8 + WordStart(n - 8, i - 8))
    else if n >= 4 then (if i < 4 then 0 else i)
    else i
  }

  /** Different somewhere, and only within one word of the tail. */
  ghost predicate DifferInOneWord(s: seq<u8>, t: seq<u8>)
  {
    && |s| == |t| && s != t
    && forall i, j | 0 <= i < |s| && 0 <= j < |s| && s[i] != t[i] && s[j] != t[j] ::
         WordStart(|s|, i) == WordStart(|s|, j)
  }

  lemma {:induction false} OneWordChangesTail(h: u64, s: seq<u8>, t: seq<u8>)
    requires DifferInOneWord(s, t)
    ensures Tail(h, s) != Tail(h, t)
    decreases |s|
  {
    hide Absorb8, Absorb4, Absorb1, Read64, Read32;
    var w := if |s| >= 8 then 8 else if |s| >= 4 then 4 else 1;
    assert s == s[..w] + s[w..] && t == t[..w] + t[w..];
    if s[..w] == t[..w] {
      LaterWord(s, t, w);
      assert s[0] == s[..w][0] && t[0] == t[..w][0];
      OneWordChangesTail(if w == 8 then Absorb8(h, Read64(s[..8])) else if w == 4 then Absorb4(h, Read32(s[..4]))
                         else Absorb1(h, s[0]), s[w..], t[w..]);
    } else {
      FirstWord(s, t, w);
      if Tail(h, s) == Tail(h, t) {
        FirstWordChangesHash(h, s, t, w);
      }
    }
  }

  /** The first words are equal, so the difference is further on. */
  lemma LaterWord(s: seq<u8>, t: seq<u8>, w: nat)
    requires DifferInOneWord(s, t)
    requires w == if |s| >= 8 then 8 else if |s| >= 4 then 4 else 1
    requires s[..w] == t[..w]
    ensures DifferInOneWord(s[w..], t[w..])
  {
    var s', t' := s[w..], t[w..];
    assert s == s[..w] + s' && t == t[..w] + t';
    forall i, j | 0 <= i < |s'| && 0 <= j < |s'| && s'[i] != t'[i] && s'[j] != t'[j]
      ensures WordStart(|s'|, i) == WordStart(|s'|, j)
    {
      assert s[w + i] != t[w + i] && s[w + j] != t[w + j];
      assert WordStart(|s|, w + i) == WordStart(|s|, w + j);
    }
  }

  /** The first words differ, so all that follows is equal. */
  lemma FirstWord(s: seq<u8>, t: seq<u8>, w: nat)
    requires DifferInOneWord(s, t)
    requires w == if |s| >= 8 then 8 else if |s| >= 4 then 4 else 1
    requires s[..w] != t[..w]
    ensures s[w..] == t[w..]
  {
    var i :| 0 <= i < w && s[i] != t[i];
    forall j | w <= j < |s|
      ensures s[j] == t[j]
    {
      assert WordStart(|s|, i) == 0;
      assert WordStart(|s|, j) > 0;
    }
  }

  lemma ReadInjective(s: seq<u8>, t: seq<u8>)
    requires |s| == |t| && LE(s) == LE(t)
    ensures s == t
  {
    BytesOfLE(s);
    BytesOfLE(t);
  }

  lemma FirstWordChangesHash(h: u64, s: seq<u8>, t: seq<u8>, w: nat)
    requires |s| == |t| > 0
    requires w == if |s| >= 8 then 8 else if |s| >= 4 then 4 else 1
    requires s[w..] == t[w..] && Tail(h, s) == Tail(h, t)
    ensures s[..w] == t[..w]
  {
    hide Absorb8, Absorb4, Absorb1;
    if w == 8 {
      var a, b := Read64(s[..8]), Read64(t[..8]);
      TailInjectiveInHash(Absorb8(h, a), Absorb8(h, b), s[8..]);
      Absorb8Injective(h, h, a, b);
      ReadInjective(s[..8], t[..8]);
    } else if w == 4 {
      var a, b := Read32(s[..4]), Read32(t[..4]);
      TailInjectiveInHash(Absorb4(h, a), Absorb4(h, b), s[4..]);
      Absorb4Injective(h, h, a, b);
      ReadInjective(s[..4], t[..4]);
    } else {
      TailInjectiveInHash(Absorb1(h, s[0]), Absorb1(h, t[0]), s[1..]);
      Absorb1Injective(h, h, s[0], t[0]);
    }
  }

  // ---------- the hash ----------

  /** Inputs of one length that differ in one word of the tail never collide. */
  lemma TailWordSeparates(a: seq<u8>, b: seq<u8>, seed: u64)
    requires |a| == |b|
    requires a[..|a| / 32 * 32] == b[..|b| / 32 * 32]
    requires DifferInOneWord(Rest(a), Rest(b))
    ensures Hash(a, seed) != Hash(b, seed)
  {
    hide Avalanche, Tail, Start, Stripe, Init;
    var n := |a| / 32;
    var whole := a[..n * 32];
    assert a == whole + Rest(a) && b == whole + Rest(b);
    StripesPart(Init(seed), whole, Rest(a), n);
    StripesPart(Init(seed), whole, Rest(b), n);
    var h := Start(Stripes(Init(seed), whole), seed, |a|);
    OneWordChangesTail(h, Rest(a), Rest(b));
    AvalancheBijective(Tail(h, Rest(a)));
    AvalancheBijective(Tail(h, Rest(b)));
  }

  /** XXH64 is one-to-one on inputs of one word, for each seed. */
  lemma InjectiveOnOneWord(a: seq<u8>, b: seq<u8>, seed: u64)
    requires |a| == |b| && |a| in {1, 4, 8}
    ensures Hash(a, seed) == Hash(b, seed) <==> a == b
  {
    hide Hash;
    assert a == Rest(a) && b == Rest(b);
    if a != b {
      forall i | 0 <= i < |a|
        ensures WordStart(|a|, i) == 0
      {
      }
      TailWordSeparates(a, b, seed);
    }
  }

  /** On inputs shorter than a stripe, different seeds give different hashes. */
  lemma InjectiveInSeed(data: seq<u8>, seed: u64, seed': u64)
    requires |data| < 32
    ensures Hash(data, seed) == Hash(data, seed') <==> seed == seed'
  {
    hide Avalanche, Tail, Add64, Sub64;
    if Hash(data, seed) == Hash(data, seed') {
      var h, h' := Start(Init(seed), seed, |data|), Start(Init(seed'), seed', |data|);
      AvalancheBijective(Tail(h, Rest(data)));
      AvalancheBijective(Tail(h', Rest(data)));
      TailInjectiveInHash(h, h', Rest(data));
      AddUndone(seed, PRIME64_5);
      AddUndone(seed', PRIME64_5);
      AddUndone(Add64(seed, PRIME64_5), |data|);
      AddUndone(Add64(seed', PRIME64_5), |data|);
    }
  }
}
