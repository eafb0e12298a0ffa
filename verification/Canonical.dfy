/**
 Canonical forms of hash values: the big-endian bytes on every machine, readable
 back on every machine, and ordered byte by byte as the values are.
 */
module Canonical {
  import opened Words
  import opened Multiply128

  // ---------- the memory of a machine ----------

  /** The n bytes of a word in memory. */
  function Stored(x: nat, n: nat, littleEndian: bool): (s: seq<u8>)
    ensures |s| == n
  {
    if littleEndian then Bytes(x, n) else Reverse(Bytes(x, n))
  }

  // ---------- the code ----------

  /** XXH32_canonicalFromHash */
  function FromHash32(h: u32, littleEndian: bool): (s: seq<u8>)
    ensures |s| == 4
  {
    Stored(if littleEndian then Swap32(h) else h, 4, littleEndian)
  }

  /** XXH64_canonicalFromHash */
  function FromHash64(h: u64, littleEndian: bool): (s: seq<u8>)
    ensures |s| == 8
  {
    Stored(if littleEndian then Swap64(h) else h, 8, littleEndian)
  }

  /** XXH128_canonicalFromHash: the high word first. */
  function FromHash128(h: Hash128, littleEndian: bool): (s: seq<u8>)
    ensures |s| == 16
  {
    FromHash64(h.high64, littleEndian) + FromHash64(h.low64, littleEndian)
  }

  function Loaded32(s: seq<u8>, littleEndian: bool): u32
    requires |s| == 4
  {
    Read32(if littleEndian then s else Reverse(s))
  }

  function Loaded64(s: seq<u8>, littleEndian: bool): u64
    requires |s| == 8
  {
    Read64(if littleEndian then s else Reverse(s))
  }

  /** XXH32_hashFromCanonical, by XXH_readBE32 */
  function ToHash32(s: seq<u8>, littleEndian: bool): u32
    requires |s| == 4
  {
    if littleEndian then Swap32(Loaded32(s, littleEndian)) else Loaded32(s, littleEndian)
  }

  /** XXH64_hashFromCanonical, by XXH_readBE64 */
  function ToHash64(s: seq<u8>, littleEndian: bool): u64
    requires |s| == 8
  {
    if littleEndian then Swap64(Loaded64(s, littleEndian)) else Loaded64(s, littleEndian)
  }

  /** XXH128_hashFromCanonical */
  function ToHash128(s: seq<u8>, littleEndian: bool): Hash128
    requires |s| == 16
  {
    Hash128(ToHash64(s[8..], littleEndian), ToHash64(s[..8], littleEndian))
  }

  /** XXH128_cmp */
  function Cmp128(h1: Hash128, h2: Hash128): int
  {
    var hcmp := (if h1.high64 > h2.high64 then 1 else 0) - (if h2.high64 > h1.high64 then 1 else 0);
    if hcmp != 0 then hcmp
    else (if h1.low64 > h2.low64 then 1 else 0) - (if h2.low64 > h1.low64 then 1 else 0)
  }

  // ---------- big-endian values ----------

  /** The value of a byte string, most significant byte first. */
  function BE(s: seq<u8>): nat
  {
    if s == [] then 0 else s[0] * Pow2(8 * |s[1..]|) + BE(s[1..])
  }

  lemma {:induction false} LEAppend(a: seq<u8>, b: u8)
    ensures LE(a + [b]) == LE(a) + b * Pow2(8 * |a|)
  {
    if a == [] {
      assert a + [b] == [b];
      assert [b][1..] == [];
    } else {
      LEAppend(a[1..], b);
      assert (a + [b])[1..] == a[1..] + [b];
      Pow2Values();
      Pow2Adds(8, 8 * |a[1..]|);
      assert b * Pow2(8 * |a|) == 256 * (b * Pow2(8 * |a[1..]|)) by {
        Scale(b, Pow2(8 * |a[1..]|));
      }
    }
  }

  lemma Scale(b: nat, p: nat)
    ensures b * (256 * p) == 256 * (b * p)
  {
  }

  /** Big-endian is little-endian backwards. */
  lemma {:induction false} BEIsReversed(s: seq<u8>)
    ensures LE(Reverse(s)) == BE(s)
  {
    hide Pow2;
    if s != [] {
      BEIsReversed(s[1..]);
      LEAppend(Reverse(s[1..]), s[0]);
    }
  }

  lemma {:induction false} ReverseAppend(a: seq<u8>, b: u8)
    ensures Reverse(a + [b]) == [b] + Reverse(a)
  {
    if a == [] {
      assert a + [b] == [b];
      assert [b][1..] == [];
    } else {
      ReverseAppend(a[1..], b);
      assert (a + [b])[1..] == a[1..] + [b];
    }
  }

  lemma {:induction false} ReverseTwice(s: seq<u8>)
    ensures Reverse(Reverse(s)) == s
  {
    if s != [] {
      ReverseTwice(s[1..]);
      ReverseAppend(Reverse(s[1..]), s[0]);
    }
  }

  // ---------- the same bytes everywhere, and back ----------

  /** Swapping bytes and storing them little-endian is storing them big-endian. */
  lemma SwapIsReverse64(h: u64)
    ensures Bytes(Swap64(h), 8) == Reverse(Bytes(h, 8))
    ensures Swap64(Swap64(h)) == h
  {
    hide Bytes, Reverse;
    Pow2Values();
    BytesOfLE(Reverse(Bytes(h, 8)));
    ReverseTwice(Bytes(h, 8));
    LEOfBytes(h, 8);
  }

  lemma SwapIsReverse32(h: u32)
    ensures Bytes(Swap32(h), 4) == Reverse(Bytes(h, 4))
    ensures Swap32(Swap32(h)) == h
  {
    hide Bytes, Reverse;
    Pow2Values();
    BytesOfLE(Reverse(Bytes(h, 4)));
    ReverseTwice(Bytes(h, 4));
    LEOfBytes(h, 4);
  }

  /** The canonical bytes are the big-endian digits of the value, on machines of both kinds. */
  lemma CanonicalIsBigEndian64(h: u64, littleEndian: bool)
    ensures FromHash64(h, littleEndian) == Reverse(Bytes(h, 8))
    ensures BE(FromHash64(h, littleEndian)) == h
  {
    hide Bytes, Reverse, Swap64, BE;
    SwapIsReverse64(h);
    BEIsReversed(Reverse(Bytes(h, 8)));
    ReverseTwice(Bytes(h, 8));
    Pow2Values();
    LEOfBytes(h, 8);
  }

  lemma CanonicalIsBigEndian32(h: u32, littleEndian: bool)
    ensures FromHash32(h, littleEndian) == Reverse(Bytes(h, 4))
    ensures BE(FromHash32(h, littleEndian)) == h
  {
    hide Bytes, Reverse, Swap32, BE;
    SwapIsReverse32(h);
    BEIsReversed(Reverse(Bytes(h, 4)));
    ReverseTwice(Bytes(h, 4));
    Pow2Values();
    LEOfBytes(h, 4);
  }

  /** Reading gives the big-endian value, on machines of both kinds. */
  lemma ReadingIsBigEndian64(s: seq<u8>, littleEndian: bool)
    requires |s| == 8
    ensures ToHash64(s, littleEndian) == BE(s)
  {
    hide Bytes, Reverse, BE;
    BEIsReversed(s);
    if littleEndian {
      BytesOfLE(s);
    }
  }

  lemma ReadingIsBigEndian32(s: seq<u8>, littleEndian: bool)
    requires |s| == 4
    ensures ToHash32(s, littleEndian) == BE(s)
  {
    hide Bytes, Reverse, BE;
    BEIsReversed(s);
    if littleEndian {
      BytesOfLE(s);
    }
  }

  /** Written on one machine and read on another, every hash comes back. */
  lemma RoundTrips(h32: u32, h64: u64, h128: Hash128, writer: bool, reader: bool)
    ensures ToHash32(FromHash32(h32, writer), reader) == h32
    ensures ToHash64(FromHash64(h64, writer), reader) == h64
    ensures ToHash128(FromHash128(h128, writer), reader) == h128
  {
    hide FromHash32, FromHash64, ToHash32, ToHash64, BE;
    CanonicalIsBigEndian32(h32, writer);
    ReadingIsBigEndian32(FromHash32(h32, writer), reader);
    RoundTrip64(h64, writer, reader);
    RoundTrip64(h128.high64, writer, reader);
    RoundTrip64(h128.low64, writer, reader);
    var s := FromHash128(h128, writer);
    assert s[..8] == FromHash64(h128.high64, writer) && s[8..] == FromHash64(h128.low64, writer);
  }

  lemma RoundTrip64(h: u64, writer: bool, reader: bool)
    ensures ToHash64(FromHash64(h, writer), reader) == h
  {
    hide FromHash64, ToHash64, BE;
    CanonicalIsBigEndian64(h, writer);
    ReadingIsBigEndian64(FromHash64(h, writer), reader);
  }

  // ---------- order ----------

  /** memcmp on byte strings of one length: the first difference decides. */
  function Lexicographic(s: seq<u8>, t: seq<u8>): int
    requires |s| == |t|
  {
    if s == [] then 0
    else if s[0] != t[0] then (if s[0] > t[0] then 1 else -1)
    else Lexicographic(s[1..], t[1..])
  }

  function Sign(x: int): int { if x > 0 then 1 else if x < 0 then -1 else 0 }

  lemma {:induction false} BEBound(s: seq<u8>)
    ensures BE(s) < Pow2(8 * |s|)
  {
    if s == [] {
    } else {
      hide Pow2;
      BEBound(s[1..]);
      Pow2Values();
      Pow2Adds(8, 8 * |s[1..]|);
      var p := Pow2(8 * |s[1..]|);
      MulLe(p, s[0], 255);
      assert s[0] * p == p * s[0];
    }
  }

  /** The byte order of big-endian strings is the order of their values. */
  lemma {:induction false} LexicographicIsNumeric(s: seq<u8>, t: seq<u8>)
    requires |s| == |t|
    ensures Lexicographic(s, t) == Sign(BE(s) - BE(t))
  {
    hide Pow2;
    if s != [] {
      LexicographicIsNumeric(s[1..], t[1..]);
      BEBound(s[1..]);
      BEBound(t[1..]);
      LeadingDigit(s[0], t[0], BE(s[1..]), BE(t[1..]), Pow2(8 * |s[1..]|));
    }
  }

  lemma LeadingDigit(a: nat, b: nat, x: nat, y: nat, p: nat)
    requires x < p && y < p
    ensures a > b ==> a * p + x > b * p + y
    ensures a < b ==> a * p + x < b * p + y
  {
    if a > b {
      MulLe(p, b + 1, a);
    } else if a < b {
      MulLe(p, a + 1, b);
    }
  }

  lemma {:induction false} LexicographicConcat(a: seq<u8>, b: seq<u8>, c: seq<u8>, d: seq<u8>)
    requires |a| == |c| && |b| == |d|
    ensures Lexicographic(a + b, c + d) == if Lexicographic(a, c) != 0 then Lexicographic(a, c) else Lexicographic(b, d)
  {
    if a == [] {
      assert a + b == b && c + d == d;
    } else {
      assert (a + b)[1..] == a[1..] + b && (c + d)[1..] == c[1..] + d;
      LexicographicConcat(a[1..], b, c[1..], d);
    }
  }

  /** XXH128_cmp orders hashes as their canonical bytes are ordered. */
  lemma CmpIsCanonicalOrder(h1: Hash128, h2: Hash128, littleEndian: bool)
    ensures Cmp128(h1, h2) == Lexicographic(FromHash128(h1, littleEndian), FromHash128(h2, littleEndian))
  {
    hide FromHash64, BE, Lexicographic;
    var a, b := FromHash64(h1.high64, littleEndian), FromHash64(h1.low64, littleEndian);
    var c, d := FromHash64(h2.high64, littleEndian), FromHash64(h2.low64, littleEndian);
    CanonicalIsBigEndian64(h1.high64, littleEndian);
    CanonicalIsBigEndian64(h1.low64, littleEndian);
    CanonicalIsBigEndian64(h2.high64, littleEndian);
    CanonicalIsBigEndian64(h2.low64, littleEndian);
    LexicographicIsNumeric(a, c);
    LexicographicIsNumeric(b, d);
    LexicographicConcat(a, b, c, d);
  }
}
