/**
 Machine words. A word is an integer in range; wrap-around is written out with
 `% 2^n`, and the bitwise operators are defined digit by digit, so that a fact
 about a carry and a fact about an exclusive or can be used in one proof.
 */
module Words {

  const M32: nat := 0x1_0000_0000
  const M64: nat := 0x1_0000_0000_0000_0000

  type u8 = x: int | 0 <= x < 0x100
  type u32 = x: int | 0 <= x < 0x1_0000_0000
  type u64 = x: int | 0 <= x < 0x1_0000_0000_0000_0000

  function Pow2(k: nat): (p: nat)
    ensures p > 0
  {
    if k == 0 then 1 else 2 * Pow2(k - 1)
  }

  function Power(b: nat, n: nat): nat { if n == 0 then 1 else b * Power(b, n - 1) }

  // ---------- bitwise operators on unbounded naturals ----------

  function Bxor(a: nat, b: nat): nat
    decreases a + b
  {
    if a == 0 && b == 0 then 0
    else (if a % 2 == b % 2 then 0 else 1) + 2 * Bxor(a / 2, b / 2)
  }

  function Bor(a: nat, b: nat): nat
    decreases a + b
  {
    if a == 0 && b == 0 then 0
    else (if a % 2 == 0 && b % 2 == 0 then 0 else 1) + 2 * Bor(a / 2, b / 2)
  }

  function Band(a: nat, b: nat): nat
    decreases a + b
  {
    if a == 0 && b == 0 then 0
    else (if a % 2 == 1 && b % 2 == 1 then 1 else 0) + 2 * Band(a / 2, b / 2)
  }

  /** The digit-by-digit reading: last digit and the rest. */
  lemma BxorDigits(a: nat, b: nat)
    ensures Bxor(a, b) / 2 == Bxor(a / 2, b / 2)
    ensures Bxor(a, b) % 2 == if a % 2 == b % 2 then 0 else 1
  {
  }

  lemma {:induction false} BxorBound(a: nat, b: nat, k: nat)
    requires a < Pow2(k) && b < Pow2(k)
    ensures Bxor(a, b) < Pow2(k)
    decreases k
  {
    if k > 0 {
      BxorBound(a / 2, b / 2, k - 1);
    }
  }

  lemma {:induction false} BorBound(a: nat, b: nat, k: nat)
    requires a < Pow2(k) && b < Pow2(k)
    ensures Bor(a, b) < Pow2(k)
    decreases k
  {
    if k > 0 {
      BorBound(a / 2, b / 2, k - 1);
    }
  }

  lemma {:induction false} BxorCommutes(a: nat, b: nat)
    ensures Bxor(a, b) == Bxor(b, a)
    decreases a + b
  {
    if a > 0 || b > 0 {
      BxorCommutes(a / 2, b / 2);
    }
  }

  lemma {:induction false} BxorAssociates(a: nat, b: nat, c: nat)
    ensures Bxor(Bxor(a, b), c) == Bxor(a, Bxor(b, c))
    decreases a + b + c
  {
    if a > 0 || b > 0 || c > 0 {
      BxorAssociates(a / 2, b / 2, c / 2);
      var l, r := Bxor(Bxor(a, b), c), Bxor(a, Bxor(b, c));
      assert l / 2 == r / 2 by {
        BxorDigits(a, b);
        BxorDigits(b, c);
        BxorDigits(Bxor(a, b), c);
        BxorDigits(a, Bxor(b, c));
      }
      assert l % 2 == r % 2 by {
        BxorDigits(a, b);
        BxorDigits(b, c);
        BxorDigits(Bxor(a, b), c);
        BxorDigits(a, Bxor(b, c));
      }
      assert l == 2 * (l / 2) + l % 2;
      assert r == 2 * (r / 2) + r % 2;
    }
  }

  lemma {:induction false} BxorSelf(a: nat)
    ensures Bxor(a, a) == 0
  {
    if a > 0 {
      BxorSelf(a / 2);
    }
  }

  lemma {:induction false} BxorZero(a: nat)
    ensures Bxor(a, 0) == a && Bxor(0, a) == a
  {
    if a > 0 {
      BxorZero(a / 2);
    }
  }

  /** `(a ^ b) ^ b == a`: exclusive or with a fixed word undoes itself. */
  lemma BxorCancels(a: nat, b: nat)
    ensures Bxor(Bxor(a, b), b) == a
    ensures Bxor(b, Bxor(b, a)) == a
  {
    BxorAssociates(a, b, b);
    BxorAssociates(b, b, a);
    BxorSelf(b);
    BxorZero(a);
  }

  /** A right shift distributes over exclusive or. */
  lemma {:induction false} BxorShift(a: nat, b: nat, k: nat)
    ensures Shr(Bxor(a, b), k) == Bxor(Shr(a, k), Shr(b, k))
    decreases k
  {
    if k > 0 {
      BxorDigits(a, b);
      BxorShift(a / 2, b / 2, k - 1);
    }
  }

  /** `a >> k`, one digit at a time. */
  function Shr(a: nat, k: nat): (r: nat)
    decreases k
  {
    if k == 0 then a else Shr(a / 2, k - 1)
  }

  lemma {:induction false} ShrIsDiv(a: nat, k: nat)
    ensures Shr(a, k) == a / Pow2(k)
    decreases k
  {
    if k > 0 {
      ShrIsDiv(a / 2, k - 1);
      DivDiv(a, 2, Pow2(k - 1));
    }
  }

  lemma {:induction false} ShrBound(a: nat, k: nat)
    ensures Shr(a, k) <= a
    decreases k
  {
    if k > 0 {
      ShrBound(a / 2, k - 1);
    }
  }

  lemma {:induction false} ShrVanishes(a: nat, k: nat)
    requires a < Pow2(k)
    ensures Shr(a, k) == 0
    decreases k
  {
    if k > 0 {
      ShrVanishes(a / 2, k - 1);
    }
  }

  lemma DivDiv(a: nat, p: nat, q: nat)
    requires p > 0 && q > 0
    ensures p * q > 0
    ensures a / (p * q) == a / p / q
  {
    var b, r := a / p, a % p;
    var x, y := b / q, b % q;
    assert a == p * b + r && b == q * x + y;
    assert p * (q * x + y) == p * q * x + p * y;
    MulLe(p, y + 1, q);
    assert p * (y + 1) == p * y + p;
    assert 0 <= p * y;
    DivUnique(a, p * q, x, p * y + r);
  }

  lemma MulLe(p: nat, x: int, y: int)
    requires x <= y
    ensures p * x <= p * y
  {
  }

  lemma QuotientIsNat(x: nat, d: nat)
    requires d > 0
    ensures 0 <= x / d
  {
    var q := x / d;
    assert x == d * q + x % d;
    if q <= -1 {
      MulLe(d, q, -1);
    }
  }

  lemma DivUnique(a: nat, d: nat, q: nat, r: nat)
    requires d > 0 && r < d && a == d * q + r
    ensures a / d == q && a % d == r
  {
    var q', r' := a / d, a % d;
    var t := q - q';
    assert d * t == d * q - d * q';
    assert d * t == r' - r;
    if t >= 1 {
      MulLe(d, 1, t);
    } else if t <= -1 {
      MulLe(d, t, -1);
    }
  }

  /** Oring two words whose digits do not overlap is adding them. */
  lemma {:induction false} BorIsSum(a: nat, b: nat, k: nat)
    requires b < Pow2(k)
    ensures 0 <= a * Pow2(k)
    ensures Bor(a * Pow2(k), b) == a * Pow2(k) + b
    decreases k
  {
    if k == 0 {
      BorZero(a);
    } else {
      BorIsSum(a, b / 2, k - 1);
      var half := a * Pow2(k - 1);
      Doubles(a, Pow2(k - 1));
      BorEven(half, b);
      assert a * Pow2(k) == 2 * half;
    }
  }

  lemma Doubles(a: nat, p: nat)
    ensures a * (2 * p) == 2 * (a * p)
  {
  }

  lemma BorEven(a: nat, b: nat)
    ensures Bor(2 * a, b) == b % 2 + 2 * Bor(a, b / 2)
  {
  }

  lemma {:induction false} BorCommutes(a: nat, b: nat)
    ensures Bor(a, b) == Bor(b, a)
    decreases a + b
  {
    if a > 0 || b > 0 {
      BorCommutes(a / 2, b / 2);
    }
  }

  /** Or works on the digits above and below position k apart. */
  lemma {:induction false} BorConcat(a: nat, b: nat, c: nat, d: nat, k: nat)
    requires b < Pow2(k) && d < Pow2(k)
    ensures 0 <= a * Pow2(k) && 0 <= c * Pow2(k)
    ensures Bor(a * Pow2(k) + b, c * Pow2(k) + d) == Bor(a, c) * Pow2(k) + Bor(b, d)
    decreases k
  {
    if k == 0 {
      BorZero(0);
    } else {
      var p := Pow2(k - 1);
      BorConcat(a, b / 2, c, d / 2, k - 1);
      Doubles(a, p);
      Doubles(c, p);
      Doubles(Bor(a, c), p);
      var x, y := a * p + b / 2, c * p + d / 2;
      assert a * Pow2(k) + b == 2 * x + b % 2;
      assert c * Pow2(k) + d == 2 * y + d % 2;
      BorAppend(x, b % 2, y, d % 2);
      BorDigits(b, d);
    }
  }

  lemma BorDigits(a: nat, b: nat)
    ensures Bor(a, b) == 2 * Bor(a / 2, b / 2) + if a % 2 == 0 && b % 2 == 0 then 0 else 1
  {
  }

  lemma BorAppend(x: nat, s: nat, y: nat, t: nat)
    requires s < 2 && t < 2
    ensures Bor(2 * x + s, 2 * y + t) == 2 * Bor(x, y) + if s == 0 && t == 0 then 0 else 1
  {
    BorDigits(2 * x + s, 2 * y + t);
  }

  lemma {:induction false} BorZero(a: nat)
    ensures Bor(a, 0) == a
  {
    if a > 0 {
      BorZero(a / 2);
    }
  }

  /** Masking with `2^k - 1` keeps the low k digits. */
  lemma {:induction false} BandMask(a: nat, k: nat)
    ensures Band(a, Pow2(k) - 1) == a % Pow2(k)
    decreases k
  {
    if k == 0 {
      BandZero(a);
    } else {
      BandMask(a / 2, k - 1);
      ModDigits(a, Pow2(k - 1));
    }
  }

  lemma ModDigits(a: nat, p: nat)
    requires p > 0
    ensures a % (2 * p) == 2 * (a / 2 % p) + a % 2
  {
    var q, r := a / 2 / p, a / 2 % p;
    assert a / 2 == p * q + r;
    assert 2 * (p * q) == (2 * p) * q;
    DivUnique(a, 2 * p, q, 2 * r + a % 2);
  }

  lemma {:induction false} BandZero(a: nat)
    ensures Band(a, 0) == 0
  {
    if a > 0 {
      BandZero(a / 2);
    }
  }

  lemma Pow2Values()
    ensures Pow2(8) == 0x100
    ensures Pow2(16) == 0x1_0000
    ensures Pow2(24) == 0x100_0000
    ensures Pow2(30) == 0x4000_0000
    ensures Pow2(32) == 0x1_0000_0000
    ensures Pow2(64) == 0x1_0000_0000_0000_0000
  {
    assert Pow2(8) == 0x100;
    assert Pow2(6) == 0x40;
    Pow2Adds(8, 8);
    Pow2Adds(16, 8);
    Pow2Adds(24, 6);
    Pow2Adds(16, 16);
    Pow2Adds(32, 32);
  }

  lemma {:induction false} Pow2Adds(i: nat, j: nat)
    ensures Pow2(i + j) == Pow2(i) * Pow2(j)
  {
    if i > 0 {
      Pow2Adds(i - 1, j);
      Doubles(Pow2(j), Pow2(i - 1));
      assert Pow2(i + j) == 2 * Pow2(i - 1 + j);
    }
  }

  lemma Pow2One()
    ensures Pow2(1) == 2
  {
  }

  lemma Pow2Of63()
    ensures Pow2(63) == 0x8000_0000_0000_0000
    ensures Pow2(35) == 0x8_0000_0000
  {
    hide Pow2;
    Pow2Values();
    Pow2One();
    Pow2Adds(1, 63);
    Pow2Three();
    Pow2Adds(32, 3);
  }

  lemma Pow2Three()
    ensures Pow2(3) == 8
  {
  }

  // ---------- 64-bit and 32-bit words ----------

  function Add64(a: int, b: int): u64 { (a + b) % M64 }
  function Sub64(a: int, b: int): u64 { (a - b) % M64 }
  function Mul64(a: u64, b: u64): u64 { (a * b) % M64 }

  lemma ModPlus(x: nat, y: nat)
    ensures (x % M64 + y) % M64 == (x + y) % M64
  {
    var q, r := (x % M64 + y) / M64, (x % M64 + y) % M64;
    DivUnique(x + y, M64, x / M64 + q, r);
  }

  lemma SumWraps(x: u64, y: u64)
    ensures Add64(x, y) == if x + y < M64 then x + y else x + y - M64
  {
  }

  lemma DifferenceWraps(x: u64, y: u64)
    ensures Sub64(x, y) == if x >= y then x - y else x - y + M64
  {
  }

  /** A count kept in a 64-bit field. */
  function Wrap64(n: nat): u64 { n % M64 }

  lemma Wrap64Adds(a: nat, b: nat)
    ensures Add64(Wrap64(a), b) == Wrap64(a + b)
  {
  }

  function Xor64(a: u64, b: u64): u64
  {
    Pow2Values();
    BxorBound(a, b, 64);
    Bxor(a, b)
  }

  /** `x >> k` of a word is a word. */
  function Shr64(x: u64, k: nat): u64
  {
    ShrBound(x, k);
    Shr(x, k)
  }

  /** XXH_xorshift64: `x ^ (x >> k)` */
  function Xorshift64(x: u64, k: nat): u64 { Xor64(x, Shr64(x, k)) }

  /** `(x << r) | (x >> (64 - r))` */
  function Rotl64(x: u64, r: nat): u64
    requires 0 < r < 64
  {
    Pow2Values();
    RotlIsSum(x, r, 64);
    Bor(x * Pow2(r) % M64, Shr(x, 64 - r))
  }

  function Add32(a: int, b: int): u32 { (a + b) % M32 }
  function Sub32(a: int, b: int): u32 { (a - b) % M32 }
  function Mul32(a: u32, b: u32): u32 { (a * b) % M32 }

  /** A count kept in a 32-bit field. */
  function Wrap32(n: nat): u32 { n % M32 }

  lemma Wrap32Adds(a: nat, b: nat)
    ensures Add32(Wrap32(a), Wrap32(b)) == Wrap32(a + b)
  {
  }

  function Xor32(a: u32, b: u32): u32
  {
    Pow2Values();
    BxorBound(a, b, 32);
    Bxor(a, b)
  }

  function Or32(a: u32, b: u32): u32
  {
    Pow2Values();
    BorBound(a, b, 32);
    Bor(a, b)
  }

  /** `x >> k` of a word is a word. */
  function Shr32(x: u32, k: nat): u32
  {
    ShrBound(x, k);
    Shr(x, k)
  }

  /** `(x << r) | (x >> (32 - r))` */
  function Rotl32(x: u32, r: nat): u32
    requires 0 < r < 32
  {
    Pow2Values();
    RotlIsSum(x, r, 32);
    Bor(x * Pow2(r) % M32, Shr(x, 32 - r))
  }

  /** A rotation of a w-digit word moves its top r digits below the others. */
  lemma RotlIsSum(x: nat, r: nat, w: nat)
    requires r <= w && x < Pow2(w)
    ensures Bor(x * Pow2(r) % Pow2(w), Shr(x, w - r)) == x % Pow2(w - r) * Pow2(r) + x / Pow2(w - r)
    ensures x / Pow2(w - r) < Pow2(r)
    ensures 0 <= x % Pow2(w - r) * Pow2(r) + x / Pow2(w - r) < Pow2(w)
  {
    var p, q := Pow2(r), Pow2(w - r);
    var hi, lo := x / q, x % q;
    Pow2Adds(r, w - r);
    ShiftSplits(x, p, q);
    ShrIsDiv(x, w - r);
    BorIsSum(lo, hi, r);
  }

  lemma ShiftSplits(x: nat, p: nat, q: nat)
    requires p > 0 && q > 0 && x < p * q
    ensures x / q < p
    ensures x * p % (p * q) == x % q * p
    ensures 0 <= x % q * p <= p * q - p
  {
    var hi, lo := x / q, x % q;
    assert x == q * hi + lo;
    if hi >= p {
      MulLe(q, p, hi);
    }
    assert (q * hi + lo) * p == p * q * hi + lo * p;
    MulLe(p, lo + 1, q);
    assert p * (lo + 1) == lo * p + p;
    MulLe(p, 0, lo);
    DivUnique(x * p, p * q, hi, lo * p);
  }

  // ---------- bytes ----------

  /** The value of a byte string, least significant byte first. */
  function LE(s: seq<u8>): nat
  {
    if s == [] then 0 else s[0] + 256 * LE(s[1..])
  }

  lemma {:induction false} ZerosAreZero(s: seq<u8>)
    requires forall i | 0 <= i < |s| :: s[i] == 0
    ensures LE(s) == 0
  {
    if s != [] {
      ZerosAreZero(s[1..]);
    }
  }

  lemma {:induction false} LEBound(s: seq<u8>)
    ensures LE(s) < Pow2(8 * |s|)
  {
    if s != [] {
      LEBound(s[1..]);
      Pow2Values();
      Pow2Adds(8, 8 * |s[1..]|);
    }
  }

  /** XXH_readLE64 */
  function Read64(s: seq<u8>): (r: u64)
    requires |s| == 8
  {
    Pow2Values();
    LEBound(s);
    LE(s)
  }

  /** XXH_readLE32 */
  function Read32(s: seq<u8>): (r: u32)
    requires |s| == 4
  {
    Pow2Values();
    LEBound(s);
    LE(s)
  }

  /** XXH_readLE64 of the bytes from position i */
  function Word64(s: seq<u8>, i: nat): u64
    requires i + 8 <= |s|
  {
    Read64(s[i..i + 8])
  }

  /** XXH_readLE32 of the bytes from position i */
  function Word32(s: seq<u8>, i: nat): u32
    requires i + 4 <= |s|
  {
    Read32(s[i..i + 4])
  }

  /** The n low bytes of x, least significant first. */
  function Bytes(x: nat, n: nat): (s: seq<u8>)
    ensures |s| == n
  {
    if n == 0 then [] else [x % 256] + Bytes(x / 256, n - 1)
  }

  lemma {:induction false} LEOfBytes(x: nat, n: nat)
    requires x < Pow2(8 * n)
    ensures LE(Bytes(x, n)) == x
    decreases n
  {
    if n > 0 {
      Pow2Values();
      Pow2Adds(8, 8 * (n - 1));
      LEOfBytes(x / 256, n - 1);
      assert Bytes(x, n)[1..] == Bytes(x / 256, n - 1);
    }
  }

  lemma {:induction false} BytesOfLE(s: seq<u8>)
    ensures Bytes(LE(s), |s|) == s
  {
    if s != [] {
      var rest := LE(s[1..]);
      BytesOfLE(s[1..]);
      DivUnique(LE(s), 256, rest, s[0]);
      assert Bytes(LE(s), |s|) == [s[0]] + Bytes(rest, |s| - 1);
    }
  }

  /** XXH_writeLE64 */
  function Write64(x: u64): (s: seq<u8>)
    ensures |s| == 8 && Read64(s) == x
  {
    Pow2Values();
    LEOfBytes(x, 8);
    Bytes(x, 8)
  }

  function Reverse(s: seq<u8>): (r: seq<u8>)
    ensures |r| == |s|
  {
    if s == [] then [] else Reverse(s[1..]) + [s[0]]
  }

  /** XXH_swap64: the eight bytes in the other order. */
  function Swap64(x: u64): u64 { Read64(Reverse(Bytes(x, 8))) }

  /** XXH_swap32 */
  function Swap32(x: u32): u32 { Read32(Reverse(Bytes(x, 4))) }
}
