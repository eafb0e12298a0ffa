/**
 One published value of XXH64, derived step by step from the integer arithmetic of
 module Xxh64Published: it fixes the primes, the rotations and the order of the steps.
 */
module KnownHashes {
  import opened Words
  import opened Xxh64Published
  import Xxh64
  import Xxh3Injective

  // ---------- exclusive or, by digits of base 4 ----------

  lemma Table()
    ensures Bxor(0, 0) == 0 && Bxor(0, 1) == 1 && Bxor(0, 2) == 2 && Bxor(0, 3) == 3
    ensures Bxor(1, 0) == 1 && Bxor(1, 1) == 0 && Bxor(1, 2) == 3 && Bxor(1, 3) == 2
    ensures Bxor(2, 0) == 2 && Bxor(2, 1) == 3 && Bxor(2, 2) == 0 && Bxor(2, 3) == 1
    ensures Bxor(3, 0) == 3 && Bxor(3, 1) == 2 && Bxor(3, 2) == 1 && Bxor(3, 3) == 0
  {
  }

  lemma XorByte(a: nat, b: nat, c: nat, d: nat, a': nat, b': nat, c': nat, d': nat)
    requires a < 4 && b < 4 && c < 4 && d < 4 && a' < 4 && b' < 4 && c' < 4 && d' < 4
    ensures Bxor(0x40 * a + 0x10 * b + 4 * c + d, 0x40 * a' + 0x10 * b' + 4 * c' + d') ==
            0x40 * Bxor(a, a') + 0x10 * Bxor(b, b') + 4 * Bxor(c, c') + Bxor(d, d')
  {
    hide Bxor, Pow2;
    Powers();
    BxorBound(b, b', 2);
    BxorBound(d, d', 2);
    Xxh3Injective.BxorConcat(a, b, a', b', 2);
    Xxh3Injective.BxorConcat(c, d, c', d', 2);
    Xxh3Injective.BxorConcat(4 * a + b, 4 * c + d, 4 * a' + b', 4 * c' + d', 4);
  }

  function Half(a: nat, b: nat, c: nat, d: nat): nat { 0x1_0000 * (0x100 * a + b) + (0x100 * c + d) }

  lemma XorHalf(a: nat, b: nat, c: nat, d: nat, a': nat, b': nat, c': nat, d': nat)
    requires a < 0x100 && b < 0x100 && c < 0x100 && d < 0x100
    requires a' < 0x100 && b' < 0x100 && c' < 0x100 && d' < 0x100
    ensures Bxor(Half(a, b, c, d), Half(a', b', c', d')) ==
            Half(Bxor(a, a'), Bxor(b, b'), Bxor(c, c'), Bxor(d, d'))
  {
    hide Bxor, Pow2;
    Powers();
    Xxh3Injective.BxorConcat(a, b, a', b', 8);
    Xxh3Injective.BxorConcat(c, d, c', d', 8);
    Xxh3Injective.BxorConcat(0x100 * a + b, 0x100 * c + d, 0x100 * a' + b', 0x100 * c' + d', 16);
  }

  lemma XorWord(h: nat, l: nat, h': nat, l': nat)
    requires h < M32 && l < M32 && h' < M32 && l' < M32
    ensures Bxor(M32 * h + l, M32 * h' + l') == M32 * Bxor(h, h') + Bxor(l, l')
  {
    hide Bxor, Pow2;
    Powers();
    Xxh3Injective.BxorConcat(h, l, h', l', 32);
  }

  lemma Powers()
    ensures Pow2(1) == 2 && Pow2(2) == 4 && Pow2(4) == 0x10 && Pow2(7) == 0x80 && Pow2(8) == 0x100
    ensures Pow2(11) == 0x800
    ensures Pow2(12) == 0x1000 && Pow2(16) == 0x1_0000 && Pow2(18) == 0x4_0000 && Pow2(23) == 0x80_0000
    ensures Pow2(29) == 0x2000_0000 && Pow2(31) == 0x8000_0000 && Pow2(32) == 0x1_0000_0000
    ensures Pow2(33) == 0x2_0000_0000 && Pow2(41) == 0x200_0000_0000 && Pow2(46) == 0x4000_0000_0000
    ensures Pow2(52) == 0x10_0000_0000_0000 && Pow2(53) == 0x20_0000_0000_0000
    ensures Pow2(57) == 0x200_0000_0000_0000 && Pow2(63) == 0x8000_0000_0000_0000
  {
    SmallPowers();
    Pow2Of63();
    hide Pow2;
    Pow2Adds(11, 1);
    Pow2Adds(8, 8);
    Pow2Adds(11, 7);
    Pow2Adds(12, 11);
    Pow2Adds(18, 11);
    Pow2Adds(23, 8);
    Pow2Adds(16, 16);
    Pow2Adds(32, 1);
    Pow2Adds(23, 18);
    Pow2Adds(23, 23);
    Pow2Adds(41, 11);
    Pow2Adds(52, 1);
    Pow2Adds(46, 11);
  }

  lemma SmallPowers()
    ensures Pow2(1) == 2 && Pow2(2) == 4 && Pow2(4) == 0x10 && Pow2(7) == 0x80 && Pow2(8) == 0x100
    ensures Pow2(11) == 0x800
  {
    assert Pow2(2) == 4;
    assert Pow2(4) == 0x10;
    assert Pow2(8) == 0x100;
  }

  // ---------- single steps: quotients and remainders given ----------

  /** A word split at the digit that the rotation moves to the bottom. */
  lemma TurnBy(r: nat, p: nat, q: nat, y: nat, z: nat)
    requires r <= 64 && Pow2(r) == p && Pow2(64 - r) == q && z < q && p * q == M64
    ensures Turn(y * q + z, r) == z * p + y
  {
    hide Pow2;
    DivUnique(y * q + z, q, y, z);
    assert (y * q + z) * p == y * (p * q) + z * p;
    MulLe(p, z + 1, q);
    assert p * (z + 1) == z * p + p;
    DivUnique((y * q + z) * p, M64, y, z * p);
  }

  lemma RoundBy(acc: nat, lane: nat, a: nat, y: nat, z: nat, b: nat, r: nat)
    requires acc + lane * 0xC2B2AE3D27D4EB4F == a * M64 + (y * 0x2_0000_0000 + z) && y < 0x8000_0000
    requires z < 0x2_0000_0000
    requires (z * 0x8000_0000 + y) * 0x9E3779B185EBCA87 == b * M64 + r && r < M64
    ensures RoundOf(acc, lane) == r
  {
    hide Turn, Pow2;
    Powers();
    TurnBy(31, 0x8000_0000, 0x2_0000_0000, y, z);
    ModPlus(lane * 0xC2B2AE3D27D4EB4F, acc);
    DivUnique(acc + lane * 0xC2B2AE3D27D4EB4F, M64, a, y * 0x2_0000_0000 + z);
    DivUnique((z * 0x8000_0000 + y) * 0x9E3779B185EBCA87, M64, b, r);
  }

  lemma OneStripe(data: seq<u8>, j: nat, acc: nat, lane: nat, r: nat)
    requires 32 <= |data| && j < 4 && Start(0, j) == acc && Number(data, 8 * j, 8) == lane && RoundOf(acc, lane) == r
    ensures Accumulator(data, 0, j, 1) == r
  {
    hide RoundOf, Number, Start;
    assert Accumulator(data, 0, j, 0) == acc;
  }

  lemma MergeBy(acc: nat, x: nat, lane: nat, b: nat, r: nat)
    requires RoundOf(0, lane) == x
    requires Bxor(acc, x) * 0x9E3779B185EBCA87 + 0x85EBCA77C2B2AE63 == b * M64 + r && r < M64
    ensures Merge(acc, lane) == r
  {
    hide RoundOf, Bxor;
    var y := Bxor(acc, x);
    ModPlus(y * 0x9E3779B185EBCA87, 0x85EBCA77C2B2AE63);
    DivUnique(y * 0x9E3779B185EBCA87 + 0x85EBCA77C2B2AE63, M64, b, r);
  }

  lemma WordBy(acc: nat, lane: nat, a: nat, x: nat, y: nat, z: nat, b: nat, r: nat)
    requires lane * 0x9E3779B185EBCA87 == a * M64 + x && x < M64
    requires Bxor(acc, x) == y * 0x200_0000_0000 + z && z < 0x200_0000_0000
    requires (z * 0x80_0000 + y) * 0xC2B2AE3D27D4EB4F + 0x165667B19E3779F9 == b * M64 + r && r < M64
    ensures Plus(Times(Turn(Bxor(acc, Times(lane, P1)), 23), P2), P3) == r
  {
    hide Turn, Bxor, Pow2;
    Powers();
    DivUnique(lane * 0x9E3779B185EBCA87, M64, a, x);
    TurnBy(23, 0x80_0000, 0x200_0000_0000, y, z);
    var t := z * 0x80_0000 + y;
    ModPlus(t * 0xC2B2AE3D27D4EB4F, 0x165667B19E3779F9);
    DivUnique(t * 0xC2B2AE3D27D4EB4F + 0x165667B19E3779F9, M64, b, r);
  }

  lemma ByteBy(acc: nat, byte: nat, a: nat, x: nat, y: nat, z: nat, b: nat, r: nat)
    requires byte * 0x27D4EB2F165667C5 == a * M64 + x && x < M64
    requires Bxor(acc, x) == y * 0x20_0000_0000_0000 + z && z < 0x20_0000_0000_0000
    requires (z * 0x800 + y) * 0x9E3779B185EBCA87 == b * M64 + r && r < M64
    ensures Times(Turn(Bxor(acc, Times(byte, P5)), 11), P1) == r
  {
    hide Turn, Bxor, Pow2;
    Powers();
    DivUnique(byte * 0x27D4EB2F165667C5, M64, a, x);
    TurnBy(11, 0x800, 0x20_0000_0000_0000, y, z);
    DivUnique((z * 0x800 + y) * 0x9E3779B185EBCA87, M64, b, r);
  }

  lemma MixBy(acc: nat, d: nat, e: nat, q: nat, a: nat, d': nat, e': nat, q': nat, b: nat, d'': nat, e'': nat)
    requires acc == d * 0x2_0000_0000 + e && e < 0x2_0000_0000 && Bxor(acc, d) * 0xC2B2AE3D27D4EB4F == q * M64 + a
    requires a == d' * 0x2000_0000 + e' && e' < 0x2000_0000 && Bxor(a, d') * 0x165667B19E3779F9 == q' * M64 + b
    requires b == d'' * M32 + e'' && e'' < M32 && a < M64 && b < M64
    ensures FinalMix(acc) == Bxor(b, d'')
  {
    hide Bxor, Pow2;
    Powers();
    DivUnique(acc, 0x2_0000_0000, d, e);
    DivUnique(Bxor(acc, d) * 0xC2B2AE3D27D4EB4F, M64, q, a);
    DivUnique(a, 0x2000_0000, d', e');
    DivUnique(Bxor(a, d') * 0x165667B19E3779F9, M64, q', b);
    DivUnique(b, M32, d'', e'');
  }

  lemma Number4(s: seq<u8>, i: nat, a: int, b: int, c: int, d: int)
    requires i + 4 <= |s| && s[i] == a && s[i + 1] == b && s[i + 2] == c && s[i + 3] == d
    ensures Number(s, i, 4) == a + 0x100 * b + 0x1_0000 * c + 0x100_0000 * d
  {
    assert Number(s, i + 4, 0) == 0;
    assert Number(s, i + 3, 1) == d;
    assert Number(s, i + 2, 2) == c + 0x100 * d;
    assert Number(s, i + 1, 3) == b + 0x100 * (c + 0x100 * d);
  }

  lemma Number8(s: seq<u8>, i: nat)
    requires i + 8 <= |s|
    ensures Number(s, i, 8) == Number(s, i, 4) + 0x1_0000_0000 * Number(s, i + 4, 4)
  {
    var a: int, b: int, c: int, d: int, high := s[i], s[i + 1], s[i + 2], s[i + 3], Number(s, i + 4, 4);
    Number4(s, i, a, b, c, d);
    assert Number(s, i + 3, 5) == d + 0x100 * high;
    assert Number(s, i + 2, 6) == c + 0x100 * (d + 0x100 * high);
    assert Number(s, i + 1, 7) == b + 0x100 * (c + 0x100 * (d + 0x100 * high));
    assert Number(s, i, 8) == a + 0x100 * (b + 0x100 * (c + 0x100 * (d + 0x100 * high)));
  }

  // ---------- the value ----------

  /** Accumulator 1 after the stripe of 32 bytes. */
  lemma Lane1()
    ensures RoundOf(0x60EA27EEADC0B5D6, 0x692079646F626F4E) == 0x37245127A4067E4B
  {
    hide Bxor, Plus, Times, Turn, RoundOf, Merge, Pow2, Remaining, FinalMix;
    RoundBy(0x60EA27EEADC0B5D6, 0x692079646F626F4E, 0x4FF3FC1FB3D89D72, 0x33ED4B1D, 0x177E5A8E8,
            0x742899A378A5B234, 0x37245127A4067E4B);
  }

  /** Accumulator 2 after the stripe of 32 bytes. */
  lemma Lane2()
    ensures RoundOf(0xC2B2AE3D27D4EB4F, 0x207374636570736E) == 0x1B302B0A818F92CF
  {
    hide Bxor, Plus, Times, Turn, RoundOf, Merge, Pow2, Remaining, FinalMix;
    RoundBy(0xC2B2AE3D27D4EB4F, 0x207374636570736E, 0x18AE249079A69E77, 0x40D59F79, 0x108968441,
            0x51C31DDEBB8C6D36, 0x1B302B0A818F92CF);
  }

  /** Accumulator 3 after the stripe of 32 bytes. */
  lemma Lane3()
    ensures RoundOf(0, 0x6D61707320656874) == 0xCD62D843D0580FCA
  {
    hide Bxor, Plus, Times, Turn, RoundOf, Merge, Pow2, Remaining, FinalMix;
    RoundBy(0, 0x6D61707320656874, 0x53302F69CA443C7B, 0x5313266, 0x423DB7CC, 0x14783917C338C6F0, 0xCD62D843D0580FCA);
  }

  /** Accumulator 4 after the stripe of 32 bytes. */
  lemma Lane4()
    ensures RoundOf(0x61C8864E7A143579, 0x706572206873696D) == 0x1C16E43EF2142A4A
  {
    hide Bxor, Plus, Times, Turn, RoundOf, Merge, Pow2, Remaining, FinalMix;
    RoundBy(0x61C8864E7A143579, 0x706572206873696D, 0x557B5385B6EB3E90, 0x704663E6, 0x90BCCD1C,
            0x2CB9F1FABF7F7F85, 0x1C16E43EF2142A4A);
  }

  lemma Xor1()
    ensures Bxor(0xC4DE2CE639FB8154, 0x7790FF1F7A9A2803) == 0xB34ED3F94361A957
  {
    hide Bxor;
    Table();
    XorHalf(0xC4, 0xDE, 0x2C, 0xE6, 0x77, 0x90, 0xFF, 0x1F);
    XorByte(3, 0, 1, 0, 1, 3, 1, 3);
    XorByte(3, 1, 3, 2, 2, 1, 0, 0);
    XorByte(0, 2, 3, 0, 3, 3, 3, 3);
    XorByte(3, 2, 1, 2, 0, 1, 3, 3);
    XorHalf(0x39, 0xFB, 0x81, 0x54, 0x7A, 0x9A, 0x28, 3);
    XorByte(0, 3, 2, 1, 1, 3, 2, 2);
    XorByte(3, 3, 2, 3, 2, 1, 2, 2);
    XorByte(2, 0, 0, 1, 0, 2, 2, 0);
    XorByte(1, 1, 1, 0, 0, 0, 0, 3);
    XorWord(0xC4DE2CE6, 0x39FB8154, 0x7790FF1F, 0x7A9A2803);
  }

  lemma MergedLane1()
    ensures RoundOf(0, 0x37245127A4067E4B) == 0x7790FF1F7A9A2803
  {
    hide Bxor, Plus, Times, Turn, RoundOf, Merge, Pow2, Remaining, FinalMix;
    RoundBy(0, 0x37245127A4067E4B, 0x29F002485341A546, 0x5F8729A5, 0x970BD225, 0x2EAD03856345A534,
            0x7790FF1F7A9A2803);
  }

  lemma Merge1()
    ensures Merge(0xC4DE2CE639FB8154, 0x37245127A4067E4B) == 0x30D40DDD00AEA144
  {
    hide Bxor, Plus, Times, Turn, RoundOf, Merge, Pow2, Remaining, FinalMix;
    MergedLane1();
    Xor1();
    MergeBy(0xC4DE2CE639FB8154, 0x7790FF1F7A9A2803, 0x37245127A4067E4B, 0x6ED181FFFBA23C08, 0x30D40DDD00AEA144);
  }

  lemma Xor2()
    ensures Bxor(0x30D40DDD00AEA144, 0xDECED6C0BF716B27) == 0xEE1ADB1DBFDFCA63
  {
    hide Bxor;
    Table();
    XorHalf(0x30, 0xD4, 0xD, 0xDD, 0xDE, 0xCE, 0xD6, 0xC0);
    XorByte(0, 3, 0, 0, 3, 1, 3, 2);
    XorByte(3, 1, 1, 0, 3, 0, 3, 2);
    XorByte(0, 0, 3, 1, 3, 1, 1, 2);
    XorByte(3, 1, 3, 1, 3, 0, 0, 0);
    XorHalf(0, 0xAE, 0xA1, 0x44, 0xBF, 0x71, 0x6B, 0x27);
    XorByte(0, 0, 0, 0, 2, 3, 3, 3);
    XorByte(2, 2, 3, 2, 1, 3, 0, 1);
    XorByte(2, 2, 0, 1, 1, 2, 2, 3);
    XorByte(1, 0, 1, 0, 0, 2, 1, 3);
    XorWord(0x30D40DDD, 0xAEA144, 0xDECED6C0, 0xBF716B27);
  }

  lemma MergedLane2()
    ensures RoundOf(0, 0x1B302B0A818F92CF) == 0xDECED6C0BF716B27
  {
    hide Bxor, Plus, Times, Turn, RoundOf, Merge, Pow2, Remaining, FinalMix;
    RoundBy(0, 0x1B302B0A818F92CF, 0x14AD7A9D1F733C15, 0x205E6261, 0xE37E52E1, 0x464CA1B7A56FACA9,
            0xDECED6C0BF716B27);
  }

  lemma Merge2()
    ensures Merge(0x30D40DDD00AEA144, 0x1B302B0A818F92CF) == 0xE5A1F095BF498698
  {
    hide Bxor, Plus, Times, Turn, RoundOf, Merge, Pow2, Remaining, FinalMix;
    MergedLane2();
    Xor2();
    MergeBy(0x30D40DDD00AEA144, 0xDECED6C0BF716B27, 0x1B302B0A818F92CF, 0x93282C313E822A1C, 0xE5A1F095BF498698);
  }

  lemma Xor3()
    ensures Bxor(0xE5A1F095BF498698, 0x70073EB805759BBE) == 0x95A6CE2DBA3C1D26
  {
    hide Bxor;
    Table();
    XorHalf(0xE5, 0xA1, 0xF0, 0x95, 0x70, 7, 0x3E, 0xB8);
    XorByte(3, 2, 1, 1, 1, 3, 0, 0);
    XorByte(2, 2, 0, 1, 0, 0, 1, 3);
    XorByte(3, 3, 0, 0, 0, 3, 3, 2);
    XorByte(2, 1, 1, 1, 2, 3, 2, 0);
    XorHalf(0xBF, 0x49, 0x86, 0x98, 5, 0x75, 0x9B, 0xBE);
    XorByte(2, 3, 3, 3, 0, 0, 1, 1);
    XorByte(1, 0, 2, 1, 1, 3, 1, 1);
    XorByte(2, 0, 1, 2, 2, 1, 2, 3);
    XorByte(2, 1, 2, 0, 2, 3, 3, 2);
    XorWord(0xE5A1F095, 0xBF498698, 0x70073EB8, 0x5759BBE);
  }

  lemma MergedLane3()
    ensures RoundOf(0, 0xCD62D843D0580FCA) == 0x70073EB805759BBE
  {
    hide Bxor, Plus, Times, Turn, RoundOf, Merge, Pow2, Remaining, FinalMix;
    RoundBy(0, 0xCD62D843D0580FCA, 0x9C344268028A1A8D, 0xC8BFFD2, 0xFAF34D56, 0x4D8C45A5E304F4B0, 0x70073EB805759BBE);
  }

  lemma Merge3()
    ensures Merge(0xE5A1F095BF498698, 0xCD62D843D0580FCA) == 0xF9CEE721E748096D
  {
    hide Bxor, Plus, Times, Turn, RoundOf, Merge, Pow2, Remaining, FinalMix;
    MergedLane3();
    Xor3();
    MergeBy(0xE5A1F095BF498698, 0x70073EB805759BBE, 0xCD62D843D0580FCA, 0x5C7D613A22D5C72D, 0xF9CEE721E748096D);
  }

  lemma Xor4()
    ensures Bxor(0xF9CEE721E748096D, 0xC1CBBAE50E57E4F3) == 0x38055DC4E91FED9E
  {
    hide Bxor;
    Table();
    XorHalf(0xF9, 0xCE, 0xE7, 0x21, 0xC1, 0xCB, 0xBA, 0xE5);
    XorByte(3, 3, 2, 1, 3, 0, 0, 1);
    XorByte(3, 0, 3, 2, 3, 0, 2, 3);
    XorByte(3, 2, 1, 3, 2, 3, 2, 2);
    XorByte(0, 2, 0, 1, 3, 2, 1, 1);
    XorHalf(0xE7, 0x48, 9, 0x6D, 0xE, 0x57, 0xE4, 0xF3);
    XorByte(3, 2, 1, 3, 0, 0, 3, 2);
    XorByte(1, 0, 2, 0, 1, 1, 1, 3);
    XorByte(0, 0, 2, 1, 3, 2, 1, 0);
    XorByte(1, 2, 3, 1, 3, 3, 0, 3);
    XorWord(0xF9CEE721, 0xE748096D, 0xC1CBBAE5, 0xE57E4F3);
  }

  lemma MergedLane4()
    ensures RoundOf(0, 0x1C16E43EF2142A4A) == 0xC1CBBAE50E57E4F3
  {
    hide Bxor, Plus, Times, Turn, RoundOf, Merge, Pow2, Remaining, FinalMix;
    RoundBy(0, 0x1C16E43EF2142A4A, 0x155CF400AC2D9F27, 0x144C1135, 0x18252FAD6, 0x77617724978C1AA6,
            0xC1CBBAE50E57E4F3);
  }

  lemma Merge4()
    ensures Merge(0xF9CEE721E748096D, 0x1C16E43EF2142A4A) == 0x84F22C421A11A8B5
  {
    hide Bxor, Plus, Times, Turn, RoundOf, Merge, Pow2, Remaining, FinalMix;
    MergedLane4();
    Xor4();
    MergeBy(0xF9CEE721E748096D, 0xC1CBBAE50E57E4F3, 0x1C16E43EF2142A4A, 0x229F73A80F8614CF, 0x84F22C421A11A8B5);
  }

  /** The accumulators converge. */
  lemma Convergence()
    ensures Converged(0x37245127A4067E4B, 0x1B302B0A818F92CF, 0xCD62D843D0580FCA,
                      0x1C16E43EF2142A4A) == 0x84F22C421A11A8B5
  {
    hide Bxor, Turn, RoundOf, Merge, Pow2;
    Powers();
    TurnBy(1, 2, 0x8000000000000000, 0, 0x37245127A4067E4B);
    TurnBy(7, 0x80, 0x200000000000000, 0xD, 0x1302B0A818F92CF);
    TurnBy(12, 0x1000, 0x10000000000000, 0xCD6, 0x2D843D0580FCA);
    TurnBy(18, 0x40000, 0x400000000000, 0x705B, 0x243EF2142A4A);
    Merge1();
    Merge2();
    Merge3();
    Merge4();
  }

  lemma Xor5()
    ensures Bxor(0x84F22C421A11A8DC, 0xE9863933EB2B1343) == 0x6D741571F13ABB9F
  {
    hide Bxor;
    Table();
    XorHalf(0x84, 0xF2, 0x2C, 0x42, 0xE9, 0x86, 0x39, 0x33);
    XorByte(2, 0, 1, 0, 3, 2, 2, 1);
    XorByte(3, 3, 0, 2, 2, 0, 1, 2);
    XorByte(0, 2, 3, 0, 0, 3, 2, 1);
    XorByte(1, 0, 0, 2, 0, 3, 0, 3);
    XorHalf(0x1A, 0x11, 0xA8, 0xDC, 0xEB, 0x2B, 0x13, 0x43);
    XorByte(0, 1, 2, 2, 3, 2, 2, 3);
    XorByte(0, 1, 0, 1, 0, 2, 2, 3);
    XorByte(2, 2, 2, 0, 0, 1, 0, 3);
    XorByte(3, 1, 3, 0, 1, 0, 0, 3);
    XorWord(0x84F22C42, 0x1A11A8DC, 0xE9863933, 0xEB2B1343);
  }

  lemma Word()
    ensures Plus(Times(Turn(Bxor(0x84F22C421A11A8DC, Times(0x74697465, P1)), 23), P2), P3) == 0x9FCA0F5D0AAA110F
  {
    hide Bxor, Plus, Times, Turn, RoundOf, Merge, Pow2, Remaining, FinalMix;
    Xor5();
    WordBy(0x84F22C421A11A8DC, 0x74697465, 0x47F24FD4, 0xE9863933EB2B1343, 0x36BA0A, 0x171F13ABB9F,
           0x8CAD8203AD9DE072, 0x9FCA0F5D0AAA110F);
  }

  lemma Xor6()
    ensures Bxor(0x9FCA0F5D0AAA110F, 0x5654765029708FCD) == 0xC99E790D23DA9EC2
  {
    hide Bxor;
    Table();
    XorHalf(0x9F, 0xCA, 0xF, 0x5D, 0x56, 0x54, 0x76, 0x50);
    XorByte(2, 1, 3, 3, 1, 1, 1, 2);
    XorByte(3, 0, 2, 2, 1, 1, 1, 0);
    XorByte(0, 0, 3, 3, 1, 3, 1, 2);
    XorByte(1, 1, 3, 1, 1, 1, 0, 0);
    XorHalf(0xA, 0xAA, 0x11, 0xF, 0x29, 0x70, 0x8F, 0xCD);
    XorByte(0, 0, 2, 2, 0, 2, 2, 1);
    XorByte(2, 2, 2, 2, 1, 3, 0, 0);
    XorByte(0, 1, 0, 1, 2, 0, 3, 3);
    XorByte(0, 0, 3, 3, 3, 0, 3, 1);
    XorWord(0x9FCA0F5D, 0xAAA110F, 0x56547650, 0x29708FCD);
  }

  lemma Byte1()
    ensures Times(Turn(Bxor(0x9FCA0F5D0AAA110F, Times(105, P5)), 11), P1) == 0x769671546F21BA14
  {
    hide Bxor, Plus, Times, Turn, RoundOf, Merge, Pow2, Remaining, FinalMix;
    Xor6();
    ByteBy(0x9FCA0F5D0AAA110F, 105, 0x10, 0x5654765029708FCD, 0x64C, 0x1E790D23DA9EC2, 0x96AA84D263D78C0D,
           0x769671546F21BA14);
  }

  lemma Xor7()
    ensures Bxor(0x769671546F21BA14, 0x4551F96AAF76FE6B) == 0x33C7883EC057447F
  {
    hide Bxor;
    Table();
    XorHalf(0x76, 0x96, 0x71, 0x54, 0x45, 0x51, 0xF9, 0x6A);
    XorByte(1, 3, 1, 2, 1, 0, 1, 1);
    XorByte(2, 1, 1, 2, 1, 1, 0, 1);
    XorByte(1, 3, 0, 1, 3, 3, 2, 1);
    XorByte(1, 1, 1, 0, 1, 2, 2, 2);
    XorHalf(0x6F, 0x21, 0xBA, 0x14, 0xAF, 0x76, 0xFE, 0x6B);
    XorByte(1, 2, 3, 3, 2, 2, 3, 3);
    XorByte(0, 2, 0, 1, 1, 3, 1, 2);
    XorByte(2, 3, 2, 2, 3, 3, 3, 2);
    XorByte(0, 1, 1, 0, 1, 2, 2, 3);
    XorWord(0x76967154, 0x6F21BA14, 0x4551F96A, 0xAF76FE6B);
  }

  lemma Byte2()
    ensures Times(Turn(Bxor(0x769671546F21BA14, Times(111, P5)), 11), P1) == 0xEAE9B643C5F94E52
  {
    hide Bxor, Plus, Times, Turn, RoundOf, Merge, Pow2, Remaining, FinalMix;
    Xor7();
    ByteBy(0x769671546F21BA14, 111, 0x11, 0x4551F96AAF76FE6B, 0x19E, 0x7883EC057447F, 0x253DC4A67FE058AF,
           0xEAE9B643C5F94E52);
  }

  lemma Xor8()
    ensures Bxor(0xEAE9B643C5F94E52, 0x1D7D0E3B992096A6) == 0xF794B8785CD9D8F4
  {
    hide Bxor;
    Table();
    XorHalf(0xEA, 0xE9, 0xB6, 0x43, 0x1D, 0x7D, 0xE, 0x3B);
    XorByte(3, 2, 2, 2, 0, 1, 3, 1);
    XorByte(3, 2, 2, 1, 1, 3, 3, 1);
    XorByte(2, 3, 1, 2, 0, 0, 3, 2);
    XorByte(1, 0, 0, 3, 0, 3, 2, 3);
    XorHalf(0xC5, 0xF9, 0x4E, 0x52, 0x99, 0x20, 0x96, 0xA6);
    XorByte(3, 0, 1, 1, 2, 1, 2, 1);
    XorByte(3, 3, 2, 1, 0, 2, 0, 0);
    XorByte(1, 0, 3, 2, 2, 1, 1, 2);
    XorByte(1, 1, 0, 2, 2, 2, 1, 2);
    XorWord(0xEAE9B643, 0xC5F94E52, 0x1D7D0E3B, 0x992096A6);
  }

  lemma Byte3()
    ensures Times(Turn(Bxor(0xEAE9B643C5F94E52, Times(110, P5)), 11), P1) == 0x1D0A47483B37CC24
  {
    hide Bxor, Plus, Times, Turn, RoundOf, Merge, Pow2, Remaining, FinalMix;
    Xor8();
    ByteBy(0xEAE9B643C5F94E52, 110, 0x11, 0x1D7D0E3B992096A6, 0x7BC, 0x14B8785CD9D8F4, 0x6672BE25CD65E1D6,
           0x1D0A47483B37CC24);
  }

  lemma Xor9()
    ensures Bxor(0x1D0A47483B37CC24, 0xE8523A4) == 0x1D0A474835B2EF80
  {
    hide Bxor;
    Table();
    BxorZero(0x1D0A4748);
    XorHalf(0x3B, 0x37, 0xCC, 0x24, 0xE, 0x85, 0x23, 0xA4);
    XorByte(0, 3, 2, 3, 0, 0, 3, 2);
    XorByte(0, 3, 1, 3, 2, 0, 1, 1);
    XorByte(3, 0, 3, 0, 0, 2, 0, 3);
    XorByte(0, 2, 1, 0, 2, 2, 1, 0);
    XorWord(0x1D0A4748, 0x3B37CC24, 0, 0xE8523A4);
  }

  lemma Xor10()
    ensures Bxor(0x5F0214BEAA126880, 0x2F810A5F5) == 0x5F0214BC5202CD75
  {
    hide Bxor;
    Table();
    XorHalf(0x5F, 2, 0x14, 0xBE, 0, 0, 0, 2);
    XorByte(1, 1, 3, 3, 0, 0, 0, 0);
    XorByte(0, 0, 0, 2, 0, 0, 0, 0);
    XorByte(0, 1, 1, 0, 0, 0, 0, 0);
    XorByte(2, 3, 3, 2, 0, 0, 0, 2);
    XorHalf(0xAA, 0x12, 0x68, 0x80, 0xF8, 0x10, 0xA5, 0xF5);
    XorByte(2, 2, 2, 2, 3, 3, 2, 0);
    XorByte(0, 1, 0, 2, 0, 1, 0, 0);
    XorByte(1, 2, 2, 0, 2, 2, 1, 1);
    XorByte(2, 0, 0, 0, 3, 3, 1, 1);
    XorWord(0x5F0214BE, 0xAA126880, 2, 0xF810A5F5);
  }

  lemma Xor11()
    ensures Bxor(0xFBCEA83C71F923CD, 0xFBCEA83C) == 0xFBCEA83C8A378BF1
  {
    hide Bxor;
    Table();
    BxorZero(0xFBCEA83C);
    XorHalf(0x71, 0xF9, 0x23, 0xCD, 0xFB, 0xCE, 0xA8, 0x3C);
    XorByte(1, 3, 0, 1, 3, 3, 2, 3);
    XorByte(3, 3, 2, 1, 3, 0, 3, 2);
    XorByte(0, 2, 0, 3, 2, 2, 2, 0);
    XorByte(3, 0, 3, 1, 0, 3, 3, 0);
    XorWord(0xFBCEA83C, 0x71F923CD, 0, 0xFBCEA83C);
  }

  lemma Mix()
    ensures FinalMix(0x1D0A47483B37CC24) == 0xFBCEA83C8A378BF1
  {
    hide Bxor, Plus, Times, Turn, RoundOf, Merge, Pow2, Remaining, FinalMix;
    Xor9();
    Xor10();
    Xor11();
    MixBy(0x1D0A47483B37CC24, 0xE8523A4, 0x3B37CC24, 0x16160EEE3551B8AE, 0x5F0214BEAA126880, 0x2F810A5F5,
          0xA126880, 0x84A3EF6E7CFC54F, 0xFBCEA83C71F923CD, 0xFBCEA83C, 0x71F923CD);
  }

  const TEXT: seq<u8> := [
    78, 111, 98, 111, 100, 121, 32, 105, 110, 115, 112, 101, 99,
    116, 115, 32, 116, 104, 101, 32, 115, 112, 97, 109, 109, 105,
    115, 104, 32, 114, 101, 112, 101, 116, 105, 116, 105, 111, 110
  ]

  lemma TextWord1()
    ensures |TEXT| == 39 && Number(TEXT, 0, 8) == 0x692079646F626F4E
  {
    hide Number;
    assert TEXT[0] == 78 && TEXT[1] == 111 && TEXT[2] == 98 && TEXT[3] == 111;
    Number4(TEXT, 0, 78, 111, 98, 111);
    Number4(TEXT, 4, 100, 121, 32, 105);
    Number8(TEXT, 0);
  }

  lemma TextWord2()
    ensures |TEXT| == 39 && Number(TEXT, 8, 8) == 0x207374636570736E
  {
    hide Number;
    Number4(TEXT, 8, 110, 115, 112, 101);
    Number4(TEXT, 12, 99, 116, 115, 32);
    Number8(TEXT, 8);
  }

  lemma TextWord3()
    ensures |TEXT| == 39 && Number(TEXT, 16, 8) == 0x6D61707320656874
  {
    hide Number;
    Number4(TEXT, 16, 116, 104, 101, 32);
    Number4(TEXT, 20, 115, 112, 97, 109);
    Number8(TEXT, 16);
  }

  lemma TextWord4()
    ensures |TEXT| == 39 && Number(TEXT, 24, 8) == 0x706572206873696D
  {
    hide Number;
    Number4(TEXT, 24, 109, 105, 115, 104);
    Number4(TEXT, 28, 32, 114, 101, 112);
    Number8(TEXT, 24);
  }

  lemma TextRest()
    ensures |TEXT| == 39 && Number(TEXT, 32, 4) == 0x74697465
    ensures TEXT[36] == 105 && TEXT[37] == 111 && TEXT[38] == 110
  {
    hide Number;
    Number4(TEXT, 32, 101, 116, 105, 116);
  }

  /** Step 5 on the last seven bytes. */
  lemma Tail()
    ensures |TEXT| == 39 && Remaining(0x84F22C421A11A8DC, TEXT, 32) == 0x1D0A47483B37CC24
  {
    TextRest();
    hide Bxor, Turn, Number, RoundOf, Plus, Times, TEXT;
    Word();
    Byte1();
    Byte2();
    Byte3();
    assert Remaining(0x1D0A47483B37CC24, TEXT, 39) == 0x1D0A47483B37CC24;
    assert Remaining(0xEAE9B643C5F94E52, TEXT, 38) == 0x1D0A47483B37CC24;
    assert Remaining(0x769671546F21BA14, TEXT, 37) == 0x1D0A47483B37CC24;
    assert Remaining(0x9FCA0F5D0AAA110F, TEXT, 36) == 0x1D0A47483B37CC24;
  }

  lemma Accumulators()
    ensures |TEXT| == 39
    ensures Accumulator(TEXT, 0, 0, 1) == 0x37245127A4067E4B && Accumulator(TEXT, 0, 1, 1) == 0x1B302B0A818F92CF
    ensures Accumulator(TEXT, 0, 2, 1) == 0xCD62D843D0580FCA && Accumulator(TEXT, 0, 3, 1) == 0x1C16E43EF2142A4A
  {
    TextWord1();
    TextWord2();
    TextWord3();
    TextWord4();
    hide Number, RoundOf, TEXT, Accumulator;
    Lane1();
    Lane2();
    Lane3();
    Lane4();
    OneStripe(TEXT, 0, 0x60EA27EEADC0B5D6, 0x692079646F626F4E, 0x37245127A4067E4B);
    OneStripe(TEXT, 1, 0xC2B2AE3D27D4EB4F, 0x207374636570736E, 0x1B302B0A818F92CF);
    OneStripe(TEXT, 2, 0, 0x6D61707320656874, 0xCD62D843D0580FCA);
    OneStripe(TEXT, 3, 0x61C8864E7A143579, 0x706572206873696D, 0x1C16E43EF2142A4A);
  }

  /** Steps 1 to 4. */
  lemma Front()
    ensures |TEXT| == 39 && WithLength(TEXT, 0) == 0x84F22C421A11A8DC
  {
    Accumulators();
    hide TEXT, Converged, Accumulator;
    Convergence();
  }

  /** The published value of "Nobody inspects the spammish repetition" with seed 0. */
  lemma KnownXxh64()
    ensures Xxh64.Hash(TEXT, 0) == 0xFBCEA83C8A378BF1
  {
    hide Xxh64.Hash, WithLength, Remaining, FinalMix, TEXT;
    HashIsPublished(TEXT, 0);
    Front();
    Tail();
    Mix();
  }
}
