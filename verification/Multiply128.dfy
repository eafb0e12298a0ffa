/**
 The portable 64 x 64 -> 128 bit multiplication of XXH3, built from four 32-bit
 products. Every sum is a wrapping 64-bit sum in the code; none of them wraps,
 and the two halves are exactly the product.
 */
module Multiply128 {
  import opened Words

  datatype Hash128 = Hash128(low64: u64, high64: u64)

  /** `x & 0xFFFFFFFF` */
  function Low32(x: u64): (r: u32)
    ensures r == x % M32
  {
    Pow2Values();
    BandMask(x, 32);
    Band(x, 0xFFFF_FFFF)
  }

  /** `x >> 32` */
  function High32(x: u64): (r: u32)
    ensures r == x / M32
  {
    Pow2Values();
    ShrIsDiv(x, 32);
    Shr(x, 32)
  }

  /** XXH_mult32to64 */
  function Mult32to64(x: u32, y: u32): u64 { Mul64(x, y) }

  lemma Product32Bound(x: u32, y: u32)
    ensures 0 <= x * y <= 0xFFFF_FFFE_0000_0001
    ensures Mult32to64(x, y) == x * y
  {
    MulLe(x, y, 0xFFFF_FFFF);
    MulLe(0xFFFF_FFFF, x, 0xFFFF_FFFF);
    MulLe(x, 0, y);
  }

  function Cross(loLo: u64, hiLo: u64, loHi: u64): u64
  {
    Add64(Add64(High32(loLo), Low32(hiLo)), loHi)
  }

  function Upper(hiLo: u64, cross: u64, hiHi: u64): u64
  {
    Add64(Add64(High32(hiLo), High32(cross)), hiHi)
  }

  /** `(cross << 32) | (lo_lo & 0xFFFFFFFF)` */
  function Lower(cross: u64, loLo: u64): (r: u64)
    ensures r == cross % M32 * M32 + loLo % M32
  {
    Pow2Values();
    assert cross * M32 % M64 == cross % M32 * M32;
    BorIsSum(cross % M32, Low32(loLo), 32);
    Bor(cross * M32 % M64, Low32(loLo))
  }

  /** XXH_mult64to128, the portable branch. */
  function Mult64to128(lhs: u64, rhs: u64): Hash128
  {
    var loLo := Mult32to64(Low32(lhs), Low32(rhs));
    var hiLo := Mult32to64(High32(lhs), Low32(rhs));
    var loHi := Mult32to64(Low32(lhs), High32(rhs));
    var hiHi := Mult32to64(High32(lhs), High32(rhs));
    var cross := Cross(loLo, hiLo, loHi);
    Hash128(Lower(cross, loLo), Upper(hiLo, cross, hiHi))
  }

  /** None of the sums wraps around. */
  lemma NoOverflow(b: u32, d: u32, a: u32, c: u32)
    ensures 0 <= b * d && 0 <= a * d && 0 <= b * c && 0 <= a * c
    ensures b * d / M32 + a * d % M32 + b * c < M64
    ensures a * d / M32 + (b * d / M32 + a * d % M32 + b * c) / M32 + a * c < M64
  {
    Product32Bound(b, d);
    Product32Bound(a, d);
    Product32Bound(b, c);
    Product32Bound(a, c);
  }

  /** Long multiplication in base 2^32. */
  lemma Schoolbook(lhs: nat, rhs: nat, a: nat, b: nat, c: nat, d: nat)
    requires lhs == M32 * a + b && rhs == M32 * c + d
    ensures lhs * rhs == M64 * (a * c) + M32 * (a * d) + M32 * (b * c) + b * d
  {
    assert (M32 * a + b) * (M32 * c + d) == (M32 * a) * (M32 * c) + (M32 * a) * d + b * (M32 * c) + b * d;
    assert (M32 * a) * (M32 * c) == M64 * (a * c);
    assert (M32 * a) * d == M32 * (a * d);
    assert b * (M32 * c) == M32 * (b * c);
  }

  /** The two halves are the exact product. */
  lemma MultiplyIsExact(lhs: u64, rhs: u64)
    ensures var p := Mult64to128(lhs, rhs); p.low64 + M64 * p.high64 == lhs * rhs
  {
    hide Low32, High32, Lower, Mult32to64;
    var a: int, b: int, c: int, d: int := High32(lhs), Low32(lhs), High32(rhs), Low32(rhs);
    Product32Bound(b, d);
    Product32Bound(a, d);
    Product32Bound(b, c);
    Product32Bound(a, c);
    NoOverflow(b, d, a, c);
    Schoolbook(lhs, rhs, a, b, c, d);
    Halves(a * c, a * d, b * c, b * d);
  }

  lemma Halves(ac: nat, ad: nat, bc: nat, bd: nat)
    requires ac < M64 && ad < M64 && bc < M64 && bd < M64
    requires bd / M32 + ad % M32 + bc < M64
    requires ad / M32 + (bd / M32 + ad % M32 + bc) / M32 + ac < M64
    ensures var cross := Cross(bd, ad, bc);
            Lower(cross, bd) + M64 * Upper(ad, cross, ac) == M64 * ac + M32 * ad + M32 * bc + bd
  {
    hide Low32, High32, Lower, Add64;
    NoWrap(bd / M32, ad % M32);
    NoWrap(bd / M32 + ad % M32, bc);
    var cross := Cross(bd, ad, bc);
    assert cross == bd / M32 + ad % M32 + bc;
    NoWrap(ad / M32, cross / M32);
    NoWrap(ad / M32 + cross / M32, ac);
    assert M32 * (bd / M32) + bd % M32 == bd;
    assert M32 * (ad / M32) + ad % M32 == ad;
    assert M32 * (cross / M32) + cross % M32 == cross;
  }

  lemma NoWrap(x: nat, y: nat)
    requires x + y < M64
    ensures Add64(x, y) == x + y
  {
  }

  /** XXH3_mul128_fold64 */
  function Mul128Fold64(lhs: u64, rhs: u64): u64
  {
    var product := Mult64to128(lhs, rhs);
    Xor64(product.low64, product.high64)
  }

  /** The fold is the exclusive or of the two halves of the exact product, for all operands. */
  lemma FoldIsHalves(x: u64, y: u64)
    ensures 0 <= x * y && 0 <= x * y / M64
    ensures Mul128Fold64(x, y) == Bxor(x * y % M64, x * y / M64)
  {
    hide Mult64to128, Bxor;
    MultiplyIsExact(x, y);
    var p := Mult64to128(x, y);
    DivUnique(x * y, M64, p.high64, p.low64);
  }

  lemma FoldSmall(x: u64, y: u64)
    requires x * y < M64
    ensures Mul128Fold64(x, y) == x * y
  {
    hide Mult64to128, Bxor;
    MultiplyIsExact(x, y);
    var p := Mult64to128(x, y);
    assert p.high64 == 0;
    BxorZero(p.low64);
  }
}
