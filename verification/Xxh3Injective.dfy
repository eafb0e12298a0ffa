/**
 XXH3 loses nothing on inputs of at most eight bytes: for each length, secret
 and seed the hash is one-to-one; from 9 to 16 bytes it is so in each of the two
 words where the other one cancels its key. The hard step is that xoring a word with two
 rotations of itself is one-to-one, because doing it 64 times is the identity.
 */
module Xxh3Injective {
  import opened Words
  import opened Xxh64
  import opened Xxh64Bijective
  import opened Multiply128
  import Canonical
  import opened Xxh3Long
  import opened Xxh3Short

  // ---------- rotations by any amount ----------

  /** Rotate left by one. */
  function Rot1(x: u64): u64 { 2 * (x % 0x8000_0000_0000_0000) + x / 0x8000_0000_0000_0000 }

  function Rot(x: u64, n: nat): u64 { if n == 0 then x else Rot1(Rot(x, n - 1)) }

  lemma {:induction false} RotAdds(x: u64, m: nat, n: nat)
    ensures Rot(Rot(x, m), n) == Rot(x, m + n)
  {
    hide Rot1;
    if n > 0 {
      RotAdds(x, m, n - 1);
    }
  }

  /** The low digits move up, the high digits move below them. */
  lemma {:induction false} RotValue(x: u64, n: nat)
    requires n <= 64
    ensures Rot(x, n) == x % Pow2(64 - n) * Pow2(n) + x / Pow2(64 - n)
  {
    hide Rot1, Pow2;
    Pow2Edges();
    if n > 0 {
      RotValue(x, n - 1);
      Pow2Half(n - 1, 64 - n);
      RotStep(x, Pow2(n - 1), Pow2(64 - n));
      Pow2Double(n);
    }
  }

  lemma Pow2Edges()
    ensures Pow2(0) == 1 && Pow2(64) == M64
  {
    Pow2Values();
  }

  lemma Pow2Double(n: nat)
    requires n > 0
    ensures Pow2(n) == 2 * Pow2(n - 1)
  {
  }

  lemma Pow2Half(i: nat, j: nat)
    requires i + j == 63
    ensures Pow2(i) * Pow2(j) == 0x8000_0000_0000_0000
    ensures Pow2(64 - i) == 2 * Pow2(j)
  {
    hide Pow2;
    Pow2Adds(i, j);
    Pow2Values();
    Pow2Adds(1, 63);
    Pow2Adds(1, j);
    assert Pow2(1) == 2 by { Pow2One(); }
  }

  /** x split around the digit t that moves from the top to the bottom. */
  lemma SplitAround(x: nat, q: nat) returns (hi: nat, t: nat, low: nat)
    requires q > 0
    ensures x == q * (2 * hi + t) + low && t <= 1 && low < q
    ensures x / (2 * q) == hi && x % (2 * q) == q * t + low && x / q == 2 * hi + t && x % q == low
  {
    var w := x / q;
    hi, t, low := w / 2, w % 2, x % q;
    assert x == q * w + low && w == 2 * hi + t;
    assert q * (2 * hi + t) == 2 * q * hi + q * t;
    MulLe(q, t, 1);
    MulLe(q, 0, t);
    DivUnique(x, 2 * q, hi, q * t + low);
  }

  lemma Regroup(p: nat, q: nat, t: nat, low: nat, h: nat)
    requires p * q == h && low < q
    ensures (q * t + low) * p == h * t + low * p
    ensures 0 <= low * p <= h - p
  {
    assert (q * t + low) * p == p * q * t + low * p;
    MulLe(p, low + 1, q);
    assert p * (low + 1) == low * p + p;
    MulLe(p, 0, low);
  }

  lemma TopBound(x: nat, p: nat, q: nat)
    requires q > 0 && x < 2 * (p * q)
    ensures x / (2 * q) < p
  {
    var hi := x / (2 * q);
    assert x == 2 * q * hi + x % (2 * q);
    assert 2 * q * p == 2 * (p * q);
    if hi >= p {
      MulLe(2 * q, p, hi);
    }
  }

  lemma Rot1Value(x: u64, t: nat, r: nat)
    requires t <= 1 && r < 0x8000_0000_0000_0000 && x == 0x8000_0000_0000_0000 * t + r
    ensures Rot1(x) == 2 * r + t
  {
  }

  /** One more step of the rotation. */
  lemma RotStep(x: u64, p: nat, q: nat)
    requires p > 0 && q > 0 && p * q == 0x8000_0000_0000_0000
    ensures 0 <= x % (2 * q) * p + x / (2 * q) < M64
    ensures Rot1(x % (2 * q) * p + x / (2 * q)) == x % q * (2 * p) + x / q
  {
    hide Rot1;
    var hi, t, low := SplitAround(x, q);
    TopBound(x, p, q);
    Regroup(p, q, t, low, 0x8000_0000_0000_0000);
    var v := low * p;
    assert x % (2 * q) * p + x / (2 * q) == 0x8000_0000_0000_0000 * t + (v + hi);
    Rot1Value(0x8000_0000_0000_0000 * t + (v + hi), t, v + hi);
    assert x % q * (2 * p) == 2 * v by { Doubles(low, p); }
  }

  lemma RotIsRotl(x: u64, r: nat)
    requires 0 < r < 64
    ensures Rotl64(x, r) == Rot(x, r)
  {
    hide Rotl64, Rot;
    RotlValue(x, r);
    RotValue(x, r);
  }

  lemma FullTurn(x: u64)
    ensures Rot(x, 64) == x
  {
    hide Rot;
    RotValue(x, 64);
  }

  /** A full turn is no rotation, and so are full turns. */
  lemma {:induction false} FullTurns(x: u64, k: nat)
    ensures Rot(x, 64 * k) == x
  {
    hide Rot1;
    if k > 0 {
      FullTurns(x, k - 1);
      RotAdds(x, 64 * (k - 1), 64);
      FullTurn(x);
    }
  }

  // ---------- rotation and exclusive or ----------

  /** Exclusive or works on the digits above and below position k apart. */
  lemma {:induction false} BxorConcat(a: nat, b: nat, c: nat, d: nat, k: nat)
    requires b < Pow2(k) && d < Pow2(k)
    ensures 0 <= a * Pow2(k) && 0 <= c * Pow2(k)
    ensures Bxor(a * Pow2(k) + b, c * Pow2(k) + d) == Bxor(a, c) * Pow2(k) + Bxor(b, d)
    decreases k
  {
    if k == 0 {
      BxorZero(0);
    } else {
      var p := Pow2(k - 1);
      BxorConcat(a, b / 2, c, d / 2, k - 1);
      Doubles(a, p);
      Doubles(c, p);
      Doubles(Bxor(a, c), p);
      var x, y := a * p + b / 2, c * p + d / 2;
      assert a * Pow2(k) + b == 2 * x + b % 2;
      assert c * Pow2(k) + d == 2 * y + d % 2;
      BxorAppend(x, b % 2, y, d % 2);
      BxorDigits(b, d);
    }
  }

  lemma BxorAppend(x: nat, s: nat, y: nat, t: nat)
    requires s < 2 && t < 2
    ensures Bxor(2 * x + s, 2 * y + t) == 2 * Bxor(x, y) + if s == t then 0 else 1
  {
    BxorDigits(2 * x + s, 2 * y + t);
  }

  lemma Rot1Xor(x: u64, y: u64)
    ensures Rot1(Xor64(x, y)) == Xor64(Rot1(x), Rot1(y))
  {
    hide Bxor, Pow2;
    var h := 0x8000_0000_0000_0000;
    var a, b, c, d := x / h, x % h, y / h, y % h;
    Pow2Of63();
    BxorConcat(a, b, c, d, 63);
    BxorBound(b, d, 63);
    assert Bxor(x, y) == h * Bxor(a, c) + Bxor(b, d);
    OneDigit(a, c);
    BxorAppend(b, a, d, c);
  }

  lemma OneDigit(a: nat, c: nat)
    requires a < 2 && c < 2
    ensures Bxor(a, c) == if a == c then 0 else 1
  {
  }

  lemma {:induction false} RotXor(x: u64, y: u64, n: nat)
    ensures Rot(Xor64(x, y), n) == Xor64(Rot(x, n), Rot(y, n))
  {
    hide Rot1, Xor64;
    if n > 0 {
      RotXor(x, y, n - 1);
      Rot1Xor(Rot(x, n - 1), Rot(y, n - 1));
    }
  }

  // ---------- x ^ rot(x, a) ^ rot(x, b) is one-to-one ----------

  function Spread(x: u64, a: nat, b: nat): u64 { Xor64(x, Xor64(Rot(x, a), Rot(x, b))) }

  /** (s ^ t) ^ (t ^ u) == s ^ u */
  lemma XorMiddle(s: u64, t: u64, u: u64)
    ensures Xor64(Xor64(s, t), Xor64(t, u)) == Xor64(s, u)
  {
    BxorAssociates(s, t, Bxor(t, u));
    BxorCancels(u, t);
  }

  lemma SpreadTwice(x: u64, a: nat, b: nat)
    ensures Spread(Spread(x, a, b), a, b) == Spread(x, 2 * a, 2 * b)
  {
    hide Xor64, Rot;
    var ra, rb := Rot(x, a), Rot(x, b);
    var u := Xor64(ra, rb);
    // rotating x ^ u
    RotXor(x, u, a);
    RotXor(x, u, b);
    RotXor(ra, rb, a);
    RotXor(ra, rb, b);
    RotAdds(x, a, a);
    RotAdds(x, b, b);
    RotAdds(x, a, b);
    RotAdds(x, b, a);
    var aa, ab, bb := Rot(x, 2 * a), Rot(x, a + b), Rot(x, 2 * b);
    var y := Spread(x, a, b);
    assert Rot(y, a) == Xor64(ra, Xor64(aa, ab));
    assert Rot(y, b) == Xor64(rb, Xor64(ab, bb));
    Shuffle(ra, Xor64(aa, ab), rb, Xor64(ab, bb));
    XorMiddle(aa, ab, bb);
    // (x ^ u) ^ (u ^ v) with v = aa ^ bb
    XorMiddle(x, u, Xor64(aa, bb));
  }

  /** (p ^ q) ^ (r ^ s) == (p ^ r) ^ (q ^ s) */
  lemma Shuffle(p: u64, q: u64, r: u64, s: u64)
    ensures Xor64(Xor64(p, q), Xor64(r, s)) == Xor64(Xor64(p, r), Xor64(q, s))
  {
    BxorAssociates(p, q, Bxor(r, s));
    BxorAssociates(q, r, s);
    BxorCommutes(q, r);
    BxorAssociates(r, q, s);
    BxorAssociates(p, r, Bxor(q, s));
  }

  lemma SpreadInjective(x: u64, y: u64, a: nat, b: nat)
    requires Spread(x, a, b) == Spread(y, a, b)
    ensures x == y
  {
    hide Spread;
    SpreadDoubles(x, y, a, b, 6);
    assert Spread(x, 64 * a, 64 * b) == Spread(y, 64 * a, 64 * b);
    FullSpread(x, a, b);
    FullSpread(y, a, b);
  }

  lemma {:induction false} SpreadDoubles(x: u64, y: u64, a: nat, b: nat, n: nat)
    requires Spread(x, a, b) == Spread(y, a, b)
    ensures 0 <= Pow2(n) * a && 0 <= Pow2(n) * b
    ensures Spread(x, Pow2(n) * a, Pow2(n) * b) == Spread(y, Pow2(n) * a, Pow2(n) * b)
  {
    hide Spread;
    if n > 0 {
      SpreadDoubles(x, y, a, b, n - 1);
      var c, d := Pow2(n - 1) * a, Pow2(n - 1) * b;
      SpreadTwice(x, c, d);
      SpreadTwice(y, c, d);
      assert Pow2(n) * a == 2 * c && Pow2(n) * b == 2 * d;
    }
  }

  lemma FullSpread(x: u64, a: nat, b: nat)
    ensures Spread(x, 64 * a, 64 * b) == x
  {
    hide Rot;
    FullTurns(x, a);
    FullTurns(x, b);
    BxorSelf(x);
    BxorZero(x);
  }

  // ---------- rrmxmx ----------

  const RRMXMX: u64 := 0x9FB21C651E98DF25
  const RRMXMX_INVERSE: u64 := 0x2ab9c720d1024ad

  /** `b ^ ((b >> 35) + len)` is one-to-one: the sum stays below the digits that the shift reads. */
  lemma AddShiftedInjective(b: u64, b': u64, len: nat)
    requires len <= 8
    requires Xor64(b, Add64(Shr64(b, 35), len)) == Xor64(b', Add64(Shr64(b', 35), len))
    ensures b == b'
  {
    HighDigitsStay(b, len);
    HighDigitsStay(b', len);
    XorUndone(b, Add64(Shr64(b, 35), len));
    XorUndone(b', Add64(Shr64(b', 35), len));
  }

  lemma HighDigitsStay(b: u64, len: nat)
    requires len <= 8
    ensures Shr64(Xor64(b, Add64(Shr64(b, 35), len)), 35) == Shr64(b, 35)
  {
    hide Bxor, Pow2, Shr;
    Pow2Of63();
    ShrIsDiv(b, 35);
    var m := Shr(b, 35) + len;
    BxorShift(b, m, 35);
    ShrVanishes(m, 35);
    BxorZero(Shr(b, 35));
  }

  /** XXH3_rrmxmx is one-to-one for each length. */
  lemma RrmxmxInjective(h: u64, h': u64, len: nat)
    requires len <= 8 && Rrmxmx(h, len) == Rrmxmx(h', len)
    ensures h == h'
  {
    hide Xor64, Mul64, Add64, Shr64, Rotl64, Xorshift64, Unxorshift64, Rot;
    var a, a' := Xor64(h, Xor64(Rotl64(h, 49), Rotl64(h, 24))), Xor64(h', Xor64(Rotl64(h', 49), Rotl64(h', 24)));
    var b, b' := Mul64(a, RRMXMX), Mul64(a', RRMXMX);
    var c, c' := Xor64(b, Add64(Shr64(b, 35), len)), Xor64(b', Add64(Shr64(b', 35), len));
    var d, d' := Mul64(c, RRMXMX), Mul64(c', RRMXMX);
    XorshiftUndone(d, 28);
    XorshiftUndone(d', 28);
    MulInjective(c, c', RRMXMX, RRMXMX_INVERSE);
    AddShiftedInjective(b, b', len);
    MulInjective(a, a', RRMXMX, RRMXMX_INVERSE);
    RotIsRotl(h, 49);
    RotIsRotl(h, 24);
    RotIsRotl(h', 49);
    RotIsRotl(h', 24);
    SpreadInjective(h, h', 49, 24);
  }

  // ---------- the hash of at most eight bytes ----------

  /** The first and the last four bytes determine an input of four to eight bytes. */
  lemma Input64Injective(s: seq<u8>, t: seq<u8>)
    requires 4 <= |s| == |t| <= 8 && Input64(s) == Input64(t)
    ensures s == t
  {
    hide Read32;
    var n := |s|;
    InputHalves(s);
    InputHalves(t);
    WordInjective(s[..4], t[..4]);
    WordInjective(s[n - 4..], t[n - 4..]);
    assert s == s[..4] + s[n - 4..][8 - n..] && t == t[..4] + t[n - 4..][8 - n..];
  }

  lemma InputHalves(s: seq<u8>)
    requires 4 <= |s| <= 8
    ensures Input64(s) == M32 * Read32(s[..4]) + Read32(s[|s| - 4..])
  {
    hide Read32;
    assert s[0..4] == s[..4] && s[|s| - 4..|s| - 4 + 4] == s[|s| - 4..];
  }

  lemma WordInjective(s: seq<u8>, t: seq<u8>)
    requires |s| == |t| == 4 && Read32(s) == Read32(t)
    ensures s == t
  {
    ReadInjective(s, t);
  }

  lemma Len4To8Injective(s: seq<u8>, t: seq<u8>, secret: Secret, seed: u64)
    requires 4 <= |s| == |t| <= 8 && Len4To8(s, secret, seed) == Len4To8(t, secret, seed)
    ensures s == t
  {
    hide Xor64, Sub64, Swap32, Rrmxmx, Word64, Input64;
    var seed' := Xor64(seed, Swap32(seed % M32) * M32);
    var bitflip := Sub64(Xor64(Word64(secret, 8), Word64(secret, 16)), seed');
    RrmxmxInjective(Xor64(Input64(s), bitflip), Xor64(Input64(t), bitflip), |s|);
    XorUndone(Input64(s), bitflip);
    XorUndone(Input64(t), bitflip);
    Input64Injective(s, t);
  }

  /** The 1 to 3 byte hash packs the last byte, the length, the first byte and the middle byte, lowest first. */
  lemma CombinedValue(s: seq<u8>, c1: int, c2: int, c3: int)
    requires 1 <= |s| <= 3 && c1 == s[0] && c2 == s[|s| / 2] && c3 == s[|s| - 1]
    ensures Combined(s) == c3 + 0x100 * |s| + 0x1_0000 * c1 + 0x100_0000 * c2
  {
    hide Bor, Pow2;
    OrFour(c1, c2, c3, |s|);
  }

  lemma OrFour(c1: nat, c2: nat, c3: nat, n: nat)
    requires c1 < 256 && c2 < 256 && c3 < 256 && n < 256
    ensures Bor(Bor(Bor(c1 * 0x1_0000, c2 * 0x100_0000), c3), n * 0x100) ==
            c3 + 0x100 * n + 0x1_0000 * c1 + 0x100_0000 * c2
  {
    hide Bor, Pow2;
    Pow2Values();
    BorCommutes(c1 * 0x1_0000, c2 * 0x100_0000);
    BorIsSum(c2, c1 * 0x1_0000, 24);
    var z := c2 * 0x100 + c1;
    BorIsSum(z, c3, 16);
    BorConcat(z * 0x100, c3, n, 0, 8);
    BorIsSum(z, n, 8);
    BorZero(c3);
  }

  lemma Len1To3Injective(s: seq<u8>, t: seq<u8>, secret: Secret, seed: u64)
    requires 1 <= |s| == |t| <= 3 && Len1To3(s, secret, seed) == Len1To3(t, secret, seed)
    ensures s == t
  {
    hide Xor64, Add64, Xor32, Avalanche, Combined, Word32;
    var bitflip := Add64(Xor32(Word32(secret, 0), Word32(secret, 4)), seed);
    AvalancheBijective(Xor64(Combined(s), bitflip));
    AvalancheBijective(Xor64(Combined(t), bitflip));
    XorUndone(Combined(s), bitflip);
    XorUndone(Combined(t), bitflip);
    CombinedValue(s, s[0], s[|s| / 2], s[|s| - 1]);
    CombinedValue(t, t[0], t[|t| / 2], t[|t| - 1]);
    FourBytes(s[|s| - 1], |s|, s[0], s[|s| / 2], t[|s| - 1], t[0], t[|s| / 2]);
    forall i | 0 <= i < |s|
      ensures s[i] == t[i]
    {
      assert i == 0 || i == |s| / 2 || i == |s| - 1;
    }
  }

  lemma FourBytes(a: int, n: int, b: int, c: int, a': int, b': int, c': int)
    requires 0 <= a < 256 && 0 <= b < 256 && 0 <= c < 256 && 0 <= a' < 256 && 0 <= b' < 256 && 0 <= c' < 256
    requires a + 0x100 * n + 0x1_0000 * b + 0x100_0000 * c == a' + 0x100 * n + 0x1_0000 * b' + 0x100_0000 * c'
    ensures a == a' && b == b' && c == c'
  {
  }

  /** Inputs of one length up to eight bytes collide only if they are equal, whatever the secret and the seed. */
  lemma ShortInputsNeverCollide(s: seq<u8>, t: seq<u8>, secret: Secret, seed: u64)
    requires |s| == |t| <= 8
    ensures HashShort(s, secret, seed) == HashShort(t, secret, seed) <==> s == t
  {
    hide Len1To3, Len4To8;
    if HashShort(s, secret, seed) == HashShort(t, secret, seed) {
      if |s| >= 4 {
        Len4To8Injective(s, t, secret, seed);
      } else if |s| >= 1 {
        Len1To3Injective(s, t, secret, seed);
      }
    }
  }

  // ---------- the hash of 9 to 16 bytes ----------

  /** The inverse of the multiplier in XXH3_avalanche modulo 2^64. */
  const INVERSE_AVALANCHE: u64 := 0x08DA8EE41D6DF849

  lemma Avalanche3Injective(x: u64, y: u64)
    requires Avalanche3(x) == Avalanche3(y)
    ensures x == y
  {
    hide Xorshift64, Unxorshift64, Mul64;
    var p := 0x165667919E3779F9;
    XorshiftUndone(Mul64(Xorshift64(x, 37), p), 32);
    XorshiftUndone(Mul64(Xorshift64(y, 37), p), 32);
    MulInjective(Xorshift64(x, 37), Xorshift64(y, 37), p, INVERSE_AVALANCHE);
    XorshiftUndone(x, 37);
    XorshiftUndone(y, 37);
  }

  /** The first and the last word of 9 to 16 bytes, xored with their parts of secret and seed. */
  function FirstKeyed(s: seq<u8>, secret: Secret, seed: u64): u64
    requires 9 <= |s| <= 16
  {
    Xor64(Word64(s, 0), Add64(Xor64(Word64(secret, 24), Word64(secret, 32)), seed))
  }

  function LastKeyed(s: seq<u8>, secret: Secret, seed: u64): u64
    requires 9 <= |s| <= 16
  {
    Xor64(Word64(s, |s| - 8), Sub64(Xor64(Word64(secret, 40), Word64(secret, 48)), seed))
  }

  lemma FirstCancels(s: seq<u8>, secret: Secret, seed: u64)
    requires 9 <= |s| <= 16 && FirstKeyed(s, secret, seed) == 0
    ensures HashShort(s, secret, seed) == Avalanche3(Add64(|s|, LastKeyed(s, secret, seed)))
  {
    hide Word64, Avalanche3, Xor64, Swap64, Mul128Fold64, Sub64;
    var last := LastKeyed(s, secret, seed);
    SwapZero();
    FoldSmall(0, last);
    SumWraps(Add64(|s|, last), 0);
  }

  lemma LastCancels(s: seq<u8>, secret: Secret, seed: u64)
    requires 9 <= |s| <= 16 && LastKeyed(s, secret, seed) == 0
    ensures HashShort(s, secret, seed) == Avalanche3(Add64(|s|, Swap64(FirstKeyed(s, secret, seed))))
  {
    hide Word64, Avalanche3, Xor64, Swap64, Mul128Fold64, Sub64;
    FoldSmall(FirstKeyed(s, secret, seed), 0);
  }

  lemma SwapZero()
    ensures Swap64(0) == 0
  {
    hide Bytes, Reverse, LE;
    ZeroBytes(8);
    ZerosAreZero(Reverse(Bytes(0, 8)));
  }

  lemma {:induction false} ZeroBytes(n: nat)
    ensures forall i | 0 <= i < n :: Reverse(Bytes(0, n))[i] == 0
  {
    if n > 0 {
      ZeroBytes(n - 1);
      assert Bytes(0, n)[1..] == Bytes(0, n - 1);
    }
  }

  lemma AddInjective(a: nat, x: u64, y: u64)
    requires a < M64 && Add64(a, x) == Add64(a, y)
    ensures x == y
  {
  }

  /** The first and the last word determine 9 to 16 bytes. */
  lemma KeyedInjective(s: seq<u8>, t: seq<u8>, secret: Secret, seed: u64)
    requires 9 <= |s| == |t| <= 16
    requires FirstKeyed(s, secret, seed) == FirstKeyed(t, secret, seed)
    requires LastKeyed(s, secret, seed) == LastKeyed(t, secret, seed)
    ensures s == t
  {
    hide Read64, Xor64, LE;
    var n := |s|;
    var first := Add64(Xor64(Word64(secret, 24), Word64(secret, 32)), seed);
    var last := Sub64(Xor64(Word64(secret, 40), Word64(secret, 48)), seed);
    XorUndone(Word64(s, 0), first);
    XorUndone(Word64(t, 0), first);
    XorUndone(Word64(s, n - 8), last);
    XorUndone(Word64(t, n - 8), last);
    assert s[n - 8..n - 8 + 8] == s[n - 8..] && t[n - 8..n - 8 + 8] == t[n - 8..];
    DoubleWordInjective(s[..8], t[..8]);
    DoubleWordInjective(s[n - 8..], t[n - 8..]);
    assert s == s[..8] + s[n - 8..][16 - n..] && t == t[..8] + t[n - 8..][16 - n..];
  }

  lemma DoubleWordInjective(s: seq<u8>, t: seq<u8>)
    requires |s| == |t| == 8 && Read64(s) == Read64(t)
    ensures s == t
  {
    ReadInjective(s, t);
  }

  /** Inputs of one length from 9 to 16 bytes whose first word cancels its key collide only if they are equal. */
  lemma LastWordSeparates(s: seq<u8>, t: seq<u8>, secret: Secret, seed: u64)
    requires 9 <= |s| == |t| <= 16 && FirstKeyed(s, secret, seed) == FirstKeyed(t, secret, seed) == 0
    ensures HashShort(s, secret, seed) == HashShort(t, secret, seed) <==> s == t
  {
    hide HashShort, FirstKeyed, LastKeyed, Avalanche3, Add64;
    FirstCancels(s, secret, seed);
    FirstCancels(t, secret, seed);
    if HashShort(s, secret, seed) == HashShort(t, secret, seed) {
      Avalanche3Injective(Add64(|s|, LastKeyed(s, secret, seed)), Add64(|t|, LastKeyed(t, secret, seed)));
      AddInjective(|s|, LastKeyed(s, secret, seed), LastKeyed(t, secret, seed));
      KeyedInjective(s, t, secret, seed);
    }
  }

  /** So do those whose last word cancels its key. */
  lemma FirstWordSeparates(s: seq<u8>, t: seq<u8>, secret: Secret, seed: u64)
    requires 9 <= |s| == |t| <= 16 && LastKeyed(s, secret, seed) == LastKeyed(t, secret, seed) == 0
    ensures HashShort(s, secret, seed) == HashShort(t, secret, seed) <==> s == t
  {
    hide HashShort, FirstKeyed, LastKeyed, Avalanche3, Add64, Swap64;
    LastCancels(s, secret, seed);
    LastCancels(t, secret, seed);
    if HashShort(s, secret, seed) == HashShort(t, secret, seed) {
      var x, y := FirstKeyed(s, secret, seed), FirstKeyed(t, secret, seed);
      Avalanche3Injective(Add64(|s|, Swap64(x)), Add64(|t|, Swap64(y)));
      AddInjective(|s|, Swap64(x), Swap64(y));
      Canonical.SwapIsReverse64(x);
      Canonical.SwapIsReverse64(y);
      KeyedInjective(s, t, secret, seed);
    }
  }
}
