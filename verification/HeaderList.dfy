/**
 The header list of a request and the cache key computed from it: unique
 prefixed keys, a bounded buffer filled greedily in list order, and the decimal
 XXH64 of that buffer.
 */
module HeaderList {
  import opened Words
  import opened Memory
  import Xxh64

  /** A C string: its bytes before the terminating NUL. */
  type CString = s: seq<u8> | 0 !in s

  const BUFFER_SIZE: nat := 1024

  /** "X-DA-" */
  const PREFIX: CString := [0x58, 0x2d, 0x44, 0x41, 0x2d]

  datatype Header = Header(origKey: CString, key: CString, value: CString)

  // ---------- the list ----------

  ghost predicate HasKey(list: seq<Header>, key: CString)
  {
    exists i :: 0 <= i < |list| && list[i].key == key
  }

  function Prefixed(key: CString): (k: CString)
    ensures |k| == 5 + |key| && k[5..] == key
  {
    PREFIX + key
  }

  /** The list after an add: a key already there is rejected, a new one becomes the head. */
  ghost function Insert(list: seq<Header>, key: CString, value: CString): seq<Header>
  {
    if HasKey(list, Prefixed(key)) then list else [Header(key, Prefixed(key), value)] + list
  }

  ghost function InsertAll(adds: seq<(CString, CString)>): seq<Header>
  {
    if adds == [] then []
    else
      var last := adds[|adds| - 1];
      Insert(InsertAll(adds[..|adds| - 1]), last.0, last.1)
  }

  ghost predicate UniqueKeys(list: seq<Header>)
  {
    forall i, j | 0 <= i < j < |list| :: list[i].key != list[j].key
  }

  ghost predicate WellKeyed(list: seq<Header>)
  {
    UniqueKeys(list) && forall i | 0 <= i < |list| :: list[i].key == Prefixed(list[i].origKey)
  }

  /** Over any run of adds the prefixed keys stay pairwise distinct. */
  lemma {:induction false} RunIsWellKeyed(adds: seq<(CString, CString)>)
    ensures WellKeyed(InsertAll(adds))
  {
    if adds != [] {
      RunIsWellKeyed(adds[..|adds| - 1]);
    }
  }

  lemma PrefixedInjective(a: CString, b: CString)
    ensures Prefixed(a) == Prefixed(b) ==> a == b
  {
    assert Prefixed(a)[5..] == a && Prefixed(b)[5..] == b;
  }

  lemma {:induction false} FreshKey(adds: seq<(CString, CString)>, key: CString)
    requires forall j | 0 <= j < |adds| :: adds[j].0 != key
    ensures !HasKey(InsertAll(adds), Prefixed(key))
  {
    if adds != [] {
      FreshKey(adds[..|adds| - 1], key);
      PrefixedInjective(adds[|adds| - 1].0, key);
    }
  }

  /** The first value added under a key is the one that stays. */
  lemma {:induction false} FirstAddWins(adds: seq<(CString, CString)>, i: nat)
    requires i < |adds| && forall j | 0 <= j < i :: adds[j].0 != adds[i].0
    ensures Header(adds[i].0, Prefixed(adds[i].0), adds[i].1) in InsertAll(adds)
  {
    var front, last := adds[..|adds| - 1], adds[|adds| - 1];
    if i < |front| {
      FirstAddWins(front, i);
    } else {
      FreshKey(front, last.0);
      assert InsertAll(adds)[0] == Header(last.0, Prefixed(last.0), last.1);
    }
  }

  // ---------- the cache key ----------

  function Pair(h: Header): CString { h.key + h.value }

  function Concatenated(list: seq<Header>): CString
  {
    if list == [] then [] else Pair(list[0]) + Concatenated(list[1..])
  }

  lemma {:induction false} ConcatenatedAppend(a: seq<Header>, b: seq<Header>)
    ensures Concatenated(a + b) == Concatenated(a) + Concatenated(b)
  {
    hide Pair;
    if a == [] {
      assert a + b == b;
    } else {
      ConcatenatedAppend(a[1..], b);
      assert (a + b)[1..] == a[1..] + b;
      Associates(Pair(a[0]), Concatenated(a[1..]), Concatenated(b));
    }
  }

  lemma OneHeader(h: Header)
    ensures Concatenated([h]) == Pair(h)
  {
    assert [h][1..] == [];
  }

  lemma TwoHeaders(h: Header, g: Header)
    ensures Concatenated([h, g]) == Pair(h) + Pair(g)
  {
    OneHeader(g);
    assert [h, g][1..] == [g];
  }

  /** Pairs in list order; one that would not leave room for the NUL is skipped. */
  function Greedy(acc: CString, list: seq<Header>): (r: CString)
    requires |acc| < BUFFER_SIZE
    ensures |r| < BUFFER_SIZE && acc <= r
    decreases |list|
  {
    if list == [] then acc
    else Greedy(if BUFFER_SIZE - |acc| > |Pair(list[0])| then acc + Pair(list[0]) else acc, list[1..])
  }

  /** The first pair is taken if it leaves room for the NUL. */
  lemma GreedyFirst(acc: CString, list: seq<Header>)
    requires |acc| < BUFFER_SIZE && list != []
    ensures var p := Pair(list[0]);
            Greedy(acc, list) == Greedy(if BUFFER_SIZE - |acc| > |p| then acc + p else acc, list[1..])
    ensures Concatenated(list) == Pair(list[0]) + Concatenated(list[1..])
  {
  }

  lemma NoHeaders(acc: CString, list: seq<Header>)
    requires |acc| < BUFFER_SIZE && list == []
    ensures Greedy(acc, list) == acc == acc + Concatenated(list) && Concatenated(list) == []
  {
  }

  lemma {:induction false} GreedyBound(acc: CString, list: seq<Header>)
    requires |acc| < BUFFER_SIZE
    ensures |Greedy(acc, list)| <= |acc| + |Concatenated(list)|
    ensures |acc| + |Concatenated(list)| < BUFFER_SIZE ==> Greedy(acc, list) == acc + Concatenated(list)
    decreases |list|
  {
    hide Pair, Greedy, Concatenated;
    if list == [] {
      NoHeaders(acc, list);
    } else {
      var p, rest := Pair(list[0]), Concatenated(list[1..]);
      GreedyFirst(acc, list);
      if BUFFER_SIZE - |acc| > |p| {
        GreedyBound(acc + p, list[1..]);
        Associates(acc, p, rest);
      } else {
        GreedyBound(acc, list[1..]);
      }
    }
  }

  /** Nothing is skipped exactly when all pairs together leave room for the NUL. */
  lemma NothingSkippedIff(list: seq<Header>)
    ensures Greedy([], list) == Concatenated(list) <==> |Concatenated(list)| < BUFFER_SIZE
  {
    GreedyBound([], list);
  }

  /** The 1024 bytes that are hashed: the string and the zeros behind it. */
  function Padded(s: CString): (b: seq<u8>)
    requires |s| < BUFFER_SIZE
    ensures |b| == BUFFER_SIZE
  {
    s + Zeros(BUFFER_SIZE - |s|)
  }

  lemma ShorterPadsDifferently(s: CString, t: CString)
    requires |s| < BUFFER_SIZE && |t| < BUFFER_SIZE
    ensures |s| < |t| ==> Padded(s) != Padded(t)
  {
    if |s| < |t| {
      assert Padded(s)[|s|] == 0 && Padded(t)[|s|] == t[|s|] != 0;
    }
  }

  /** No information is lost by the padding: different strings fill the buffer differently. */
  lemma PaddedInjective(s: CString, t: CString)
    requires |s| < BUFFER_SIZE && |t| < BUFFER_SIZE
    ensures Padded(s) == Padded(t) <==> s == t
  {
    ShorterPadsDifferently(s, t);
    ShorterPadsDifferently(t, s);
    assert s == Padded(s)[..|s|] && t == Padded(t)[..|t|];
  }

  function Digit(d: nat): u8
    requires d < 10
  {
    0x30 + d
  }

  /** snprintf "%lu" */
  function Decimal(n: nat): (s: CString)
    ensures |s| >= 1 && forall i | 0 <= i < |s| :: 0x30 <= s[i] <= 0x39
  {
    if n < 10 then [Digit(n)] else Decimal(n / 10) + [Digit(n % 10)]
  }

  function Value(s: seq<u8>): int
  {
    if s == [] then 0 else 10 * Value(s[..|s| - 1]) + (s[|s| - 1] as int - 0x30)
  }

  lemma {:induction false} DecimalReadsBack(n: nat)
    ensures Value(Decimal(n)) == n
  {
    if n < 10 {
      assert [Digit(n)][..0] == [];
    } else {
      DecimalReadsBack(n / 10);
      assert Decimal(n)[..|Decimal(n)| - 1] == Decimal(n / 10);
    }
  }

  /** Digits without a leading zero. */
  predicate IsNumeral(s: seq<u8>)
  {
    |s| >= 1 && (forall i | 0 <= i < |s| :: 0x30 <= s[i] <= 0x39) && (|s| > 1 ==> s[0] != 0x30)
  }

  lemma {:induction false} DecimalIsNumeral(n: nat)
    ensures IsNumeral(Decimal(n)) && (n > 0 ==> Decimal(n)[0] != 0x30)
  {
    if n >= 10 {
      DecimalIsNumeral(n / 10);
    }
  }

  lemma {:induction false} NumeralIsDecimal(s: seq<u8>)
    requires IsNumeral(s)
    ensures 0 <= Value(s) && s == Decimal(Value(s))
    ensures s[0] != 0x30 ==> Value(s) > 0
    decreases |s|
  {
    hide Decimal, Value, IsNumeral;
    var front, d := NumeralParts(s);
    if front == [] {
      OneDigit(d);
    } else {
      NumeralIsDecimal(front);
      LastDigit(Value(front), d);
    }
  }

  lemma NumeralParts(s: seq<u8>) returns (front: seq<u8>, d: nat)
    requires IsNumeral(s)
    ensures d < 10 && |front| < |s| && s == front + [Digit(d)] && Value(s) == 10 * Value(front) + d
    ensures front == [] || (IsNumeral(front) && front[0] == s[0] != 0x30)
    ensures front == [] && s[0] != 0x30 ==> d > 0
  {
    front, d := s[..|s| - 1], s[|s| - 1] as int - 0x30;
    assert s == front + [s[|s| - 1]];
  }

  lemma OneDigit(d: nat)
    requires d < 10
    ensures Value([]) == 0 && Decimal(d) == [] + [Digit(d)]
  {
  }

  lemma LastDigit(n: nat, d: nat)
    requires n > 0 && d < 10
    ensures Decimal(10 * n + d) == Decimal(n) + [Digit(d)]
  {
    assert (10 * n + d) / 10 == n;
  }

  /** The decimal form is the only numeral of its value. */
  lemma DecimalIff(s: seq<u8>, n: nat)
    ensures s == Decimal(n) <==> IsNumeral(s) && Value(s) == n
  {
    DecimalIsNumeral(n);
    DecimalReadsBack(n);
    if IsNumeral(s) {
      NumeralIsDecimal(s);
    }
  }

  /** A 64-bit value has at most 20 digits, so it fits the 65-byte cache key field. */
  lemma DecimalFits(h: u64)
    ensures |Decimal(h)| <= 20
  {
    Power10Values();
    DigitCount(h, 20, M64);
  }

  lemma {:induction false} DigitCount(n: nat, k: nat, bound: nat)
    requires k >= 1 && n < bound && bound <= Power(10, k)
    ensures |Decimal(n)| <= k
  {
    if n >= 10 {
      assert k >= 2;
      DigitCount(n / 10, k - 1, Power(10, k - 1));
    }
  }

  lemma Power10Values()
    ensures Power(10, 20) == 1_0000_0000_0000_0000_0000
  {
    assert Power(10, 5) == 1_0000_0;
    assert Power(10, 10) == 1_0000_0000_00;
    assert Power(10, 15) == 1_0000_0000_0000_000;
  }

  function HashOf(list: seq<Header>): u64 { Xxh64.Hash(Padded(Greedy([], list)), 0) }

  /** The cache key is the same exactly when the 64-bit hash is. */
  lemma KeyIsHash(a: seq<Header>, b: seq<Header>)
    ensures Decimal(HashOf(a)) == Decimal(HashOf(b)) <==> HashOf(a) == HashOf(b)
  {
    hide HashOf, Decimal, Value;
    DecimalReadsBack(HashOf(a));
    DecimalReadsBack(HashOf(b));
  }

  // ---------- the code ----------

  class HeaderHead {
    var list: seq<Header>
    var hash: u64
    var cachekey: CString

    /** After init the key is empty; after the first add it is the decimal hash of the list. */
    ghost predicate Valid()
      reads this
    {
      && WellKeyed(list)
      && (list == [] ==> hash == 0 && cachekey == [])
      && (list != [] ==> hash == HashOf(list) && cachekey == Decimal(HashOf(list)))
    }

    /** da_cloud_header_init */
    constructor ()
      ensures Valid() && list == []
    {
      list, hash, cachekey := [], 0, [];
    }

    /** da_cloud_header_add; poolOk is whether the arena gives the memory for the header. */
    method Add(key: CString, value: CString, poolOk: bool) returns (ok: bool)
      requires Valid()
      modifies this
      ensures Valid()
      ensures ok <==> poolOk && !HasKey(old(list), Prefixed(key))
      ensures ok ==> list == [Header(key, Prefixed(key), value)] + old(list)
      ensures !ok ==> list == old(list) && hash == old(hash) && cachekey == old(cachekey)
    {
      hide Decimal, HashOf;
      if !poolOk {
        return false;
      }
      var dh := Header(key, Prefixed(key), value);
      for i := 0 to |list|
        invariant forall j | 0 <= j < i :: list[j].key != dh.key
      {
        if list[i].key == dh.key {
          return false;
        }
      }
      list := [dh] + list;
      hash := HashList(list);
      cachekey := Decimal(hash);
      return true;
    }
  }

  /** The string in the buffer, and zeros up to its end. */
  ghost predicate Filled(buf: array<u8>, s: CString)
    reads buf
  {
    buf.Length == BUFFER_SIZE && |s| < BUFFER_SIZE && buf[..] == Padded(s)
  }

  /** The second loop of da_cloud_header_add and the hash of its buffer, with `used` for strlen. */
  method HashList(list: seq<Header>) returns (hash: u64)
    ensures hash == HashOf(list)
  {
    hide Xxh64.Hash, Greedy, Padded, Pair, Filled;
    var buf := new u8[BUFFER_SIZE](_ => 0);
    var used := 0;
    ghost var s: CString := [];
    StartGreedy(list);
    EmptyBuffer(buf);
    for i := 0 to |list|
      invariant Filled(buf, s) && used == |s| < BUFFER_SIZE
      invariant Greedy(s, list[i..]) == Greedy([], list)
    {
      var h := list[i];
      GreedyStep(s, list, i);
      PairParts(h);
      if BUFFER_SIZE - used > |h.key| + |h.value| {
        AppendPair(buf, used, h, s);
        used := used + |h.key| + |h.value|;
        s := s + Pair(h);
      }
    }
    AllTaken(s, list);
    FilledBytes(buf, s);
    hash := Xxh64.OneShot(buf[..], 0);
  }

  lemma PairParts(h: Header)
    ensures Pair(h) == h.key + h.value && |Pair(h)| == |h.key| + |h.value|
  {
  }

  lemma EmptyBuffer(buf: array<u8>)
    requires buf.Length == BUFFER_SIZE && forall i | 0 <= i < BUFFER_SIZE :: buf[i] == 0
    ensures Filled(buf, [])
  {
  }

  lemma FilledBytes(buf: array<u8>, s: CString)
    requires Filled(buf, s)
    ensures |s| < BUFFER_SIZE && buf[..] == Padded(s)
  {
  }

  lemma StartGreedy(list: seq<Header>)
    ensures Greedy([], list[0..]) == Greedy([], list)
  {
    assert list[0..] == list;
  }

  lemma EndGreedy(s: CString)
    requires |s| < BUFFER_SIZE
    ensures Greedy(s, []) == s
  {
  }

  lemma AllTaken(s: CString, list: seq<Header>)
    requires |s| < BUFFER_SIZE
    ensures Greedy(s, list[|list|..]) == s
  {
    EndGreedy(s);
    assert list[|list|..] == [];
  }

  lemma GreedyStep(s: CString, list: seq<Header>, i: nat)
    requires |s| < BUFFER_SIZE && i < |list|
    ensures var p := Pair(list[i]);
            Greedy(s, list[i..]) == Greedy(if BUFFER_SIZE - |s| > |p| then s + p else s, list[i + 1..])
  {
    assert list[i..][1..] == list[i + 1..];
  }

  /** The key, then the value. */
  method AppendPair(buf: array<u8>, at: nat, h: Header, ghost s: CString)
    requires Filled(buf, s) && at == |s| && at + |h.key| + |h.value| < BUFFER_SIZE
    modifies buf
    ensures Filled(buf, s + Pair(h))
  {
    hide Filled;
    AppendTo(buf, at, h.key, s);
    AppendTo(buf, at + |h.key|, h.value, s + h.key);
    Associates(s, h.key, h.value);
  }

  /** strncat into the zeros behind the string. */
  method AppendTo(buf: array<u8>, at: nat, more: CString, ghost s: CString)
    requires Filled(buf, s) && at == |s| && at + |more| < BUFFER_SIZE
    modifies buf
    ensures Filled(buf, s + more)
  {
    CopyInto(buf, at, more);
    assert Padded(s)[..at] == s && Padded(s)[at + |more|..] == Zeros(BUFFER_SIZE - at - |more|);
  }
}
