/**
 Which header lists share a cache key. The key is a hash of the pairs that fit, one
 behind the other without separators. Lists that differ can fill the buffer with
 the same bytes in three ways: by a pair that is skipped, by bytes moved between
 a key and its value, and by a value that contains the next key. For lists with
 the same keys it is shown exactly when that happens.
 */
module CacheKeys {
  import opened Memory
  import opened HeaderList
  import Xxh64
  import Xxh64Published

  // ---------- pairs that are skipped ----------

  lemma {:induction false} GreedyAppend(acc: CString, a: seq<Header>, b: seq<Header>)
    requires |acc| < BUFFER_SIZE
    ensures Greedy(acc, a + b) == Greedy(Greedy(acc, a), b)
    decreases |a|
  {
    hide Pair, Greedy, Concatenated;
    if a == [] {
      assert a + b == b;
      EndGreedy(acc);
    } else {
      GreedyFirst(acc, a);
      GreedyFirst(acc, a + b);
      assert (a + b)[1..] == a[1..] + b;
      if BUFFER_SIZE - |acc| > |Pair(a[0])| {
        GreedyAppend(acc + Pair(a[0]), a[1..], b);
      } else {
        GreedyAppend(acc, a[1..], b);
      }
    }
  }

  lemma GreedyOne(acc: CString, h: Header)
    requires |acc| < BUFFER_SIZE
    ensures Greedy(acc, [h]) == if BUFFER_SIZE - |acc| > |Pair(h)| then acc + Pair(h) else acc
  {
    assert [h][1..] == [];
  }

  /** The buffer, pair by pair: the key and then the value, if both fit into the 1023 bytes with what is there. */
  lemma PairByPair(list: seq<Header>, i: nat)
    requires i < |list|
    ensures Greedy([], []) == []
    ensures var s, h := Greedy([], list[..i]), list[i];
            Greedy([], list[..i + 1]) ==
            if |s| + |h.key| + |h.value| <= 1023 then s + h.key + h.value else s
  {
    hide Greedy, Pair;
    var s, h := Greedy([], list[..i]), list[i];
    GreedyStart();
    GreedyAppend([], list[..i], [h]);
    assert list[..i + 1] == list[..i] + [h];
    GreedyOne(s, h);
    PairParts(h);
    Associates(s, h.key, h.value);
  }

  /** The buffer after the headers around h, one of which comes first. */
  lemma GreedyAround(front: seq<Header>, h: Header, back: seq<Header>)
    ensures Greedy([], front + [h] + back) == Greedy(Greedy(Greedy([], front), [h]), back)
    ensures Greedy([], front + back) == Greedy(Greedy([], front), back)
  {
    GreedyAppend([], front + [h], back);
    GreedyAppend([], front, [h]);
    GreedyAppend([], front, back);
  }

  /** The pair does not fit behind what the headers in front of it leave in the buffer. */
  predicate Skipped(front: seq<Header>, h: Header)
  {
    BUFFER_SIZE - |Greedy([], front)| <= |Pair(h)|
  }

  /** A skipped header, wherever it stands, leaves no trace in the cache key. */
  lemma SkippedLeavesNoTrace(front: seq<Header>, h: Header, back: seq<Header>)
    requires Skipped(front, h)
    ensures Greedy([], front + [h] + back) == Greedy([], front + back)
    ensures HashOf(front + [h] + back) == HashOf(front + back)
  {
    hide Greedy, Pair;
    GreedyAround(front, h, back);
    GreedyOne(Greedy([], front), h);
  }

  /** A pair of 1024 bytes or more is skipped in every list. */
  lemma LongIsSkipped(front: seq<Header>, h: Header)
    requires |Pair(h)| >= BUFFER_SIZE
    ensures Skipped(front, h)
  {
  }

  /** Lists that differ in a skipped header only have one cache key, whatever its two values are. */
  lemma SkippedValuesShareKey(front: seq<Header>, h: Header, g: Header, back: seq<Header>)
    requires Skipped(front, h) && Skipped(front, g)
    ensures Greedy([], front + [h] + back) == Greedy([], front + [g] + back)
    ensures HashOf(front + [h] + back) == HashOf(front + [g] + back)
  {
    hide Greedy, Pair, Skipped;
    SkippedLeavesNoTrace(front, h, back);
    SkippedLeavesNoTrace(front, g, back);
  }

  // ---------- bytes moved between neighbours ----------

  /** A header replaced by headers under new keys. */
  lemma ReplacedIsWellKeyed(front: seq<Header>, h: Header, put: seq<Header>, back: seq<Header>)
    requires WellKeyed(front + [h] + back) && WellKeyed(put)
    requires forall g | g in put :: g.key == h.key || !HasKey(front + [h] + back, g.key)
    ensures WellKeyed(front + put + back)
  {
    var a, b := front + [h] + back, front + put + back;
    var n, d := |front|, |put| - 1;
    assert forall i | 0 <= i < n :: b[i] == a[i];
    assert forall i | n <= i <= n + d :: b[i] == put[i - n] && b[i] in put;
    assert forall i | n + d < i < |b| :: b[i] == a[i - d];
    assert a[n] == h;
  }

  /** The boundary between a key and its value is lost, in every list and for every value. */
  lemma MovedIntoKey(front: seq<Header>, key: CString, moved: CString, value: CString, back: seq<Header>)
    ensures var a := front + [Header(key, Prefixed(key), moved + value)] + back;
            var b := front + [Header(key + moved, Prefixed(key + moved), value)] + back;
            WellKeyed(a) && !HasKey(a, Prefixed(key + moved)) ==> WellKeyed(b) && a != b
    ensures HashOf(front + [Header(key, Prefixed(key), moved + value)] + back) ==
            HashOf(front + [Header(key + moved, Prefixed(key + moved), value)] + back)
  {
    hide Greedy;
    var h := Header(key, Prefixed(key), moved + value);
    var g := Header(key + moved, Prefixed(key + moved), value);
    MovedIsWellKeyed(front, h, g, back);
    assert Pair(h) == Pair(g);
    GreedyOne(Greedy([], front), h);
    GreedyOne(Greedy([], front), g);
    GreedyAround(front, h, back);
    GreedyAround(front, g, back);
  }

  lemma MovedIsWellKeyed(front: seq<Header>, h: Header, g: Header, back: seq<Header>)
    requires g.key == Prefixed(g.origKey)
    ensures WellKeyed(front + [h] + back) && !HasKey(front + [h] + back, g.key) ==>
              WellKeyed(front + [g] + back) && front + [h] + back != front + [g] + back
  {
    var a := front + [h] + back;
    assert a[|front|] == h && (front + [g] + back)[|front|] == g;
    if WellKeyed(a) && !HasKey(a, g.key) {
      ReplacedIsWellKeyed(front, h, [g], back);
    }
  }

  /** A value that contains the prefix spells another header: wherever the pair fits, splitting it keeps the key. */
  lemma PrefixInValueSplits(front: seq<Header>, key: CString, u: CString, key2: CString, value2: CString,
                            back: seq<Header>)
    requires !Skipped(front, Header(key, Prefixed(key), u + PREFIX + key2 + value2))
    ensures var a := front + [Header(key, Prefixed(key), u + PREFIX + key2 + value2)] + back;
            var b := front + [Header(key, Prefixed(key), u), Header(key2, Prefixed(key2), value2)] + back;
            |a| < |b| && (WellKeyed(a) && !HasKey(a, Prefixed(key2)) ==> WellKeyed(b))
    ensures HashOf(front + [Header(key, Prefixed(key), u + PREFIX + key2 + value2)] + back) ==
            HashOf(front + [Header(key, Prefixed(key), u), Header(key2, Prefixed(key2), value2)] + back)
  {
    hide Greedy, Pair;
    var h := Header(key, Prefixed(key), u + PREFIX + key2 + value2);
    var g1, g2 := Header(key, Prefixed(key), u), Header(key2, Prefixed(key2), value2);
    SplitPair(key, u, key2, value2);
    var a := front + [h] + back;
    assert a[|front|] == h;
    if WellKeyed(a) && !HasKey(a, g2.key) {
      ReplacedIsWellKeyed(front, h, [g1, g2], back);
    }
    hide WellKeyed, HasKey;
    GreedyPair(Greedy([], front), h, g1, g2);
    GreedyAppend([], front, [h]);
    GreedyAppend([], front, [g1, g2]);
    SameFront(front + [h], front + [g1, g2], back);
  }

  lemma SplitPair(key: CString, u: CString, key2: CString, value2: CString)
    ensures Pair(Header(key, Prefixed(key), u + PREFIX + key2 + value2)) ==
            Pair(Header(key, Prefixed(key), u)) + Pair(Header(key2, Prefixed(key2), value2))
  {
  }

  /** A pair that fits and the same bytes as two pairs. */
  lemma GreedyPair(acc: CString, h: Header, g1: Header, g2: Header)
    requires |acc| + |Pair(h)| < BUFFER_SIZE && Pair(h) == Pair(g1) + Pair(g2)
    ensures Greedy(acc, [h]) == Greedy(acc, [g1, g2]) == acc + Pair(h)
  {
    hide Greedy, Pair;
    GreedyOne(acc, h);
    GreedyOne(acc, g1);
    GreedyAppend(acc, [g1], [g2]);
    assert [g1] + [g2] == [g1, g2];
    GreedyOne(acc + Pair(g1), g2);
    Associates(acc, Pair(g1), Pair(g2));
  }

  /** What follows equal beginnings is taken alike. */
  lemma SameFront(x: seq<Header>, y: seq<Header>, back: seq<Header>)
    requires Greedy([], x) == Greedy([], y)
    ensures Greedy([], x + back) == Greedy([], y + back)
    ensures HashOf(x + back) == HashOf(y + back)
  {
    hide Greedy;
    GreedyAppend([], x, back);
    GreedyAppend([], y, back);
  }

  // ---------- lists with the same keys ----------

  ghost predicate SameKeys(a: seq<Header>, b: seq<Header>)
  {
    && |a| == |b|
    && forall i | 0 <= i < |a| :: a[i].origKey == b[i].origKey && a[i].key == b[i].key
  }

  lemma SameKeysWellKeyed(a: seq<Header>, b: seq<Header>)
    requires SameKeys(a, b) && WellKeyed(a)
    ensures WellKeyed(b)
  {
  }

  lemma SameKeysAround(front: seq<Header>, x: seq<Header>, y: seq<Header>, back: seq<Header>)
    requires SameKeys(x, y)
    ensures SameKeys(front + x + back, front + y + back)
    ensures x != y ==> front + x + back != front + y + back
  {
    var a, b := front + x + back, front + y + back;
    assert a[|front|..|front| + |x|] == x && b[|front|..|front| + |x|] == y;
  }

  predicate Fits(a: seq<Header>)
  {
    |Concatenated(a)| < BUFFER_SIZE
  }

  predicate OccursAt(s: CString, p: nat, t: CString)
  {
    p + |t| <= |s| && s[p..p + |t|] == t
  }

  /** In `v + k` the key k stands at the end only. */
  ghost predicate OnlyAtEnd(v: CString, k: CString)
  {
    forall p: nat | p < |v| :: !OccursAt(v + k, p, k)
  }

  /** In `k + v` the key k stands at the start only. */
  ghost predicate OnlyAtStart(k: CString, v: CString)
  {
    forall p: nat | 0 < p <= |v| :: !OccursAt(k + v, p, k)
  }

  /** An occurrence in a longer string that ends inside the front part. */
  lemma OccursInFront(x: CString, rest: CString, p: nat, k: CString, tail: CString)
    requires p + |k| <= |x| && (x + rest)[p..] == k + tail
    ensures OccursAt(x, p, k)
  {
    assert x[p..p + |k|] == (x + rest)[p..][..|k|];
  }

  ghost predicate EndsClear(a: seq<Header>)
  {
    forall i | 0 < i < |a| :: OnlyAtEnd(a[i - 1].value, a[i].key)
  }

  ghost predicate StartsClear(a: seq<Header>)
  {
    forall i | 0 <= i < |a| :: OnlyAtStart(a[i].key, a[i].value)
  }

  /** No key but the first can be found a few bytes earlier or later. */
  ghost predicate Unambiguous(a: seq<Header>)
  {
    EndsClear(a) && (a != [] ==> StartsClear(a[1..]))
  }

  /** Two readings of one string that part in the value before key k: the longer value hides the key. */
  lemma KeyInLonger(v: CString, v': CString, k: CString, rest: CString, rest': CString)
    requires v + (k + rest) == v' + (k + rest') && |v'| < |v|
    ensures !OnlyAtEnd(v, k)
  {
    assert (v + k) + rest == v + (k + rest);
    assert (v + (k + rest))[|v'|..] == k + rest';
    OccursInFront(v + k, rest, |v'|, k, rest');
  }

  lemma StartsWithKey(a: seq<Header>)
    requires a != []
    ensures Concatenated(a) == a[0].key + (a[0].value + Concatenated(a[1..]))
  {
  }

  /** The part of two readings behind their common first key. */
  lemma BehindFirst(a: seq<Header>, b: seq<Header>)
    requires a != [] && SameKeys(a, b) && Concatenated(a) == Concatenated(b)
    ensures a[0].value + Concatenated(a[1..]) == b[0].value + Concatenated(b[1..])
  {
    StartsWithKey(a);
    StartsWithKey(b);
    var n := |a[0].key|;
    assert Concatenated(a)[n..] == a[0].value + Concatenated(a[1..]);
    assert Concatenated(b)[n..] == b[0].value + Concatenated(b[1..]);
  }

  lemma NoHeaders(a: seq<Header>)
    requires a == []
    ensures Concatenated(a) == []
  {
  }

  lemma NothingBehind(a: seq<Header>)
    requires a != []
    ensures |a| == 1 ==> Concatenated(a[1..]) == []
  {
  }

  /** A value that is longer in one reading than in the other contains the next key, or runs into it. */
  lemma LongerValue(a: seq<Header>, b: seq<Header>)
    requires a != [] && SameKeys(a, b)
    requires a[0].value + Concatenated(a[1..]) == b[0].value + Concatenated(b[1..])
    requires |b[0].value| < |a[0].value|
    ensures !EndsClear(a)
  {
    hide Concatenated;
    NothingBehind(a);
    NothingBehind(b);
    StartsWithKey(a[1..]);
    StartsWithKey(b[1..]);
    var ra, rb := a[1].value + Concatenated(a[1..][1..]), b[1].value + Concatenated(b[1..][1..]);
    KeyInLonger(a[0].value, b[0].value, a[1].key, ra, rb);
  }

  lemma EqualValue(a: seq<Header>, b: seq<Header>)
    requires a != [] && SameKeys(a, b) && |b[0].value| == |a[0].value|
    requires a[0].value + Concatenated(a[1..]) == b[0].value + Concatenated(b[1..])
    ensures a[0] == b[0] && Concatenated(a[1..]) == Concatenated(b[1..])
  {
    var n := |a[0].value|;
    assert (a[0].value + Concatenated(a[1..]))[..n] == a[0].value;
    assert (b[0].value + Concatenated(b[1..]))[..n] == b[0].value;
    assert (a[0].value + Concatenated(a[1..]))[n..] == Concatenated(a[1..]);
    assert (b[0].value + Concatenated(b[1..]))[n..] == Concatenated(b[1..]);
  }

  lemma {:induction false} ClearEndsSeparate(a: seq<Header>, b: seq<Header>)
    requires SameKeys(a, b) && EndsClear(a) && EndsClear(b) && Concatenated(a) == Concatenated(b)
    ensures a == b
  {
    hide Concatenated, OnlyAtEnd;
    if a != [] {
      BehindFirst(a, b);
      if |b[0].value| < |a[0].value| {
        LongerValue(a, b);
      } else if |a[0].value| < |b[0].value| {
        LongerValue(b, a);
      } else {
        EqualValue(a, b);
        ClearEndsSeparate(a[1..], b[1..]);
        assert a == [a[0]] + a[1..] && b == [b[0]] + b[1..];
      }
    }
  }

  // ---------- a condition on each value by itself ----------

  ghost predicate Contains(s: CString, t: CString)
  {
    exists p: nat :: OccursAt(s, p, t)
  }

  /** No value contains the prefix. */
  ghost predicate PrefixFree(a: seq<Header>)
  {
    forall i | 0 <= i < |a| :: !Contains(a[i].value, PREFIX)
  }

  /** The prefix does not overlap itself, so a value without it cannot run into the next key either. */
  lemma PrefixFreeIsClear(v: CString, key: CString)
    requires !Contains(v, PREFIX)
    ensures OnlyAtEnd(v, Prefixed(key))
  {
    var k := Prefixed(key);
    forall p: nat | p < |v|
      ensures !OccursAt(v + k, p, k)
    {
      if p + 5 <= |v| {
        assert !OccursAt(v, p, PREFIX);
        assert (v + k)[p..p + |k|][..5] == v[p..p + 5];
      } else {
        // the next key starts inside this occurrence, where the prefix has no second X
        assert (v + k)[p..p + |k|][|v| - p] == k[0] == PREFIX[0] != k[|v| - p];
      }
    }
  }

  /**
   Header lists with the same keys in the same order, whose pairs all fit and whose values are free of
   the prefix, fill the buffer with the same bytes only if they are equal.
   */
  lemma KeysTellHeadersApart(a: seq<Header>, b: seq<Header>)
    requires WellKeyed(a) && SameKeys(a, b) && Fits(a) && Fits(b) && PrefixFree(a) && PrefixFree(b)
    ensures Padded(Greedy([], a)) == Padded(Greedy([], b)) <==> a == b
  {
    hide Concatenated, OnlyAtEnd, Contains, Padded;
    NothingSkippedIff(a);
    NothingSkippedIff(b);
    PaddedInjective(Greedy([], a), Greedy([], b));
    forall i | 0 < i < |a|
      ensures OnlyAtEnd(a[i - 1].value, a[i].key) && OnlyAtEnd(b[i - 1].value, b[i].key)
    {
      PrefixFreeIsClear(a[i - 1].value, a[i].origKey);
      PrefixFreeIsClear(b[i - 1].value, b[i].origKey);
    }
    if Concatenated(a) == Concatenated(b) {
      ClearEndsSeparate(a, b);
    }
  }

  // ---------- the exact condition on one list ----------

  /** Another list with the same keys, all of whose pairs fit too, that fills the buffer with the same bytes. */
  ghost predicate FittingTwin(a: seq<Header>, b: seq<Header>)
  {
    SameKeys(a, b) && a != b && Fits(b) && Greedy([], a) == Greedy([], b)
  }

  /** A reading whose keys all come later than in the other finds some key in its own place and later. */
  lemma {:induction false} NoLaterReading(a: seq<Header>, b: seq<Header>, shift: CString)
    requires SameKeys(a, b) && StartsClear(a) && shift != [] && Concatenated(a) == shift + Concatenated(b)
    ensures false
  {
    hide OnlyAtStart, Concatenated;
    if a == [] {
      NoHeaders(a);
    } else {
      var k, v, v', ra, rb := a[0].key, a[0].value, b[0].value, Concatenated(a[1..]), Concatenated(b[1..]);
      StartsWithKey(a);
      StartsWithKey(b);
      LaterKey(k, v, v', ra, rb, shift);
      var shift' := ra[..|shift| + |v'| - |v|];
      NoLaterReading(a[1..], b[1..], shift');
    }
  }

  lemma BothRests(k: CString, v: CString, v': CString, ra: CString, rb: CString, shift: CString)
    requires k + (v + ra) == shift + (k + (v' + rb)) && |shift| > |v|
    ensures |ra| == |shift| + |v'| - |v| + |rb|
    ensures ra == ra[..|shift| + |v'| - |v|] + rb
  {
    var s, e := k + (v + ra), |shift| + |v'| - |v|;
    Associates(k, v, ra);
    Associates(shift, k, v' + rb);
    Associates(shift + k, v', rb);
    assert s == (k + v) + ra == ((shift + k) + v') + rb;
    assert s[|k| + |v|..] == ra;
    assert s[|k| + |v| + e..] == rb;
    assert ra[e..] == rb;
  }

  lemma LaterKey(k: CString, v: CString, v': CString, ra: CString, rb: CString, shift: CString)
    requires k + (v + ra) == shift + (k + (v' + rb)) && shift != [] && OnlyAtStart(k, v)
    ensures |shift| > |v| && |ra| == |shift| + |v'| - |v| + |rb|
    ensures ra == ra[..|shift| + |v'| - |v|] + rb
  {
    var s, d := k + (v + ra), |shift|;
    assert s[d..] == k + (v' + rb);
    if d <= |v| {
      assert s == (k + v) + ra;
      OccursInFront(k + v, ra, d, k, v' + rb);
    }
    BothRests(k, v, v', ra, rb, shift);
  }

  lemma {:induction false} UnambiguousIsUnique(a: seq<Header>, b: seq<Header>)
    requires SameKeys(a, b) && Unambiguous(a) && Concatenated(a) == Concatenated(b)
    ensures a == b
  {
    hide Concatenated, OnlyAtEnd, OnlyAtStart;
    if a != [] {
      BehindFirst(a, b);
      var v, v' := a[0].value, b[0].value;
      if |v'| < |v| {
        LongerValue(a, b);
      } else if |v| < |v'| {
        var ra, rb := Concatenated(a[1..]), Concatenated(b[1..]);
        LaterRest(v, v', ra, rb);
        NoLaterReading(a[1..], b[1..], ra[..|v'| - |v|]);
      } else {
        EqualValue(a, b);
        UnambiguousIsUnique(a[1..], b[1..]);
        assert a == [a[0]] + a[1..] && b == [b[0]] + b[1..];
      }
    }
  }

  lemma LaterRest(v: CString, v': CString, ra: CString, rb: CString)
    requires v + ra == v' + rb && |v| < |v'|
    ensures |ra| == |v'| - |v| + |rb| && ra == ra[..|v'| - |v|] + rb
  {
    assert ra == (v + ra)[|v|..];
    assert rb == (v' + rb)[|v'|..];
  }

  /** Two neighbours replaced by two with the same keys and the same bytes. */
  lemma ReplaceTwo(a: seq<Header>, i: nat, v: CString, w: CString) returns (b: seq<Header>)
    requires 0 < i < |a| && Fits(a)
    requires a[i - 1].value + (a[i].key + a[i].value) == v + (a[i].key + w) && |v| != |a[i - 1].value|
    ensures FittingTwin(a, b)
  {
    hide Greedy, Concatenated;
    var h, g := a[i - 1], a[i];
    var h', g' := h.(value := v), g.(value := w);
    Associates(h.key, h.value, Pair(g));
    Associates(h.key, v, Pair(g'));
    TwoHeaders(h, g);
    TwoHeaders(h', g');
    var front, back := a[..i - 1], a[i + 1..];
    b := front + [h', g'] + back;
    ConcatenatedAppend(front + [h, g], back);
    ConcatenatedAppend(front, [h, g]);
    ConcatenatedAppend(front + [h', g'], back);
    ConcatenatedAppend(front, [h', g']);
    assert a == front + [h, g] + back;
    NothingSkippedIff(a);
    NothingSkippedIff(b);
    assert [h, g][0] != [h', g'][0];
    SameKeysAround(front, [h, g], [h', g'], back);
    hide SameKeys;
  }

  lemma EarlierReading(a: seq<Header>, i: nat) returns (b: seq<Header>)
    requires 0 < i < |a| && Fits(a) && !OnlyAtEnd(a[i - 1].value, a[i].key)
    ensures FittingTwin(a, b)
  {
    hide Fits;
    var v, k := a[i - 1].value, a[i].key;
    var p: nat :| p < |v| && OccursAt(v + k, p, k);
    var w: CString := (v + k)[p + |k|..];
    assert v + k == v[..p] + (k + w);
    Associates(v, k, a[i].value);
    Associates(v[..p], k + w, a[i].value);
    Associates(k, w, a[i].value);
    b := ReplaceTwo(a, i, v[..p], w + a[i].value);
  }

  lemma LaterReading(a: seq<Header>, i: nat) returns (b: seq<Header>)
    requires 0 < i < |a| && Fits(a) && !OnlyAtStart(a[i].key, a[i].value)
    ensures FittingTwin(a, b)
  {
    hide Fits;
    var k, v := a[i].key, a[i].value;
    var p: nat :| 0 < p <= |v| && OccursAt(k + v, p, k);
    var e: CString, w: CString := (k + v)[..p], (k + v)[p + |k|..];
    assert k + v == e + (k + w);
    Associates(a[i - 1].value, e, k + w);
    b := ReplaceTwo(a, i, a[i - 1].value + e, w);
  }

  /**
   A list whose pairs all fit fills the buffer in a way no other such list with its keys does, exactly
   when none of its keys but the first can be read a few bytes earlier or later.
   */
  lemma OwnStringIff(a: seq<Header>)
    requires Fits(a)
    ensures (forall b :: !FittingTwin(a, b)) <==> Unambiguous(a)
  {
    hide Concatenated, OnlyAtEnd, OnlyAtStart, Greedy;
    if i :| 0 < i < |a| && !OnlyAtEnd(a[i - 1].value, a[i].key) {
      var b := EarlierReading(a, i);
    } else if i :| 0 < i < |a| && !OnlyAtStart(a[i].key, a[i].value) {
      var b := LaterReading(a, i);
      assert a[1..][i - 1] == a[i];
    } else {
      forall b
        ensures !FittingTwin(a, b)
      {
        if FittingTwin(a, b) {
          NothingSkippedIff(a);
          NothingSkippedIff(b);
          UnambiguousIsUnique(a, b);
        }
      }
    }
  }

  // ---------- without the condition that all pairs fit ----------

  /** Another list with the same keys that fills the buffer with the same bytes. */
  ghost predicate Twin(a: seq<Header>, b: seq<Header>)
  {
    SameKeys(a, b) && a != b && Greedy([], a) == Greedy([], b)
  }

  function Ones(n: nat): (s: CString)
    ensures |s| == n
  {
    if n == 0 then [] else [1] + Ones(n - 1)
  }

  lemma FitsIff(a: seq<Header>)
    ensures Fits(a) <==> Greedy([], a) == Concatenated(a)
  {
    NothingSkippedIff(a);
  }

  lemma NotSkipped(front: seq<Header>, h: Header)
    requires Greedy([], front) == Concatenated(front) && !Skipped(front, h)
    ensures Greedy([], front + [h]) == Concatenated(front + [h])
  {
    hide Greedy, Concatenated, Pair;
    GreedyAppend([], front, [h]);
    GreedyOne(Greedy([], front), h);
    ConcatenatedAppend(front, [h]);
    OneHeader(h);
  }

  /** If not all pairs fit, one is skipped. */
  lemma {:induction false} SomeSkipped(a: seq<Header>, front: nat) returns (i: nat)
    requires front <= |a| && Greedy([], a[..front]) == Concatenated(a[..front]) && !Fits(a)
    ensures i < |a| && Skipped(a[..i], a[i])
    decreases |a| - front
  {
    hide Greedy, Concatenated, Pair, Skipped, Fits;
    i := front;
    if front == |a| {
      assert a[..front] == a;
      FitsIff(a);
    } else if !Skipped(a[..front], a[front]) {
      NotSkipped(a[..front], a[front]);
      assert a[..front + 1] == a[..front] + [a[front]];
      i := SomeSkipped(a, front + 1);
    }
  }

  /** The value of a skipped header may be any longer one. */
  lemma TwinOfSkipped(a: seq<Header>, i: nat) returns (b: seq<Header>)
    requires i < |a| && Skipped(a[..i], a[i])
    ensures Twin(a, b)
  {
    hide Greedy;
    var h := a[i].(value := a[i].value + Ones(1));
    var front, back := a[..i], a[i + 1..];
    b := front + [h] + back;
    assert |Pair(h)| >= |Pair(a[i])|;
    assert [a[i]][0] != [h][0];
    SameKeysAround(front, [a[i]], [h], back);
    hide Pair, HashOf, SameKeys;
    assert a == front + [a[i]] + back;
    SkippedValuesShareKey(front, a[i], h, back);
  }

  /** The first header takes the bytes of the second, and the second does not fit any more. */
  lemma FirstTakesSecond(h: Header, g: Header, h': Header, g': Header)
    requires Pair(h') == Pair(h) + Pair(g) && |Pair(h')| < BUFFER_SIZE <= |Pair(g')|
    ensures Greedy([], [h, g]) == Greedy([], [h', g'])
  {
    hide Greedy, Pair;
    GreedyPair([], h', h, g);
    GreedyAppend([], [h'], [g']);
    assert [h'] + [g'] == [h', g'];
    GreedyOne(Greedy([], [h']), g');
  }

  lemma TwinOfFitting(a: seq<Header>) returns (b: seq<Header>)
    requires |a| >= 2 && Fits(a) && a[1].key != []
    ensures Twin(a, b)
  {
    hide Greedy, Concatenated;
    var h, g, back := a[0], a[1], a[2..];
    var h', g' := h.(value := h.value + Pair(g)), g.(value := Ones(BUFFER_SIZE));
    b := [] + [h', g'] + back;
    assert a == [h, g] + back == [] + [h, g] + back;
    assert [h, g][0] != [h', g'][0];
    SameKeysAround([], [h, g], [h', g'], back);
    TwoHeaders(h, g);
    ConcatenatedAppend([h, g], back);
    Associates(h.key, h.value, Pair(g));
    FirstTakesSecond(h, g, h', g');
    hide Pair, SameKeys;
    assert [] + [h, g] == [h, g] && [] + [h', g'] == [h', g'];
    SameFront([h, g], [h', g'], back);
  }

  lemma GreedyStart()
    ensures Greedy([], []) == []
  {
  }

  /** One header whose pair fits has a string of its own. */
  lemma OneFittingHeader(a: seq<Header>, b: seq<Header>)
    requires |a| == 1 && |Pair(a[0])| < BUFFER_SIZE && a[0].key != [] && SameKeys(a, b)
    ensures Greedy([], a) == Greedy([], b) ==> a == b
  {
    hide Greedy;
    assert a == [a[0]] && b == [b[0]];
    GreedyOne([], a[0]);
    GreedyOne([], b[0]);
    assert [] + Pair(a[0]) == Pair(a[0]) && [] + Pair(b[0]) == Pair(b[0]);
    if Greedy([], a) == Greedy([], b) {
      assert |Pair(a[0])| > 0;
      assert Pair(a[0]) == Pair(b[0]);
      assert Pair(a[0])[|a[0].key|..] == a[0].value && Pair(b[0])[|b[0].key|..] == b[0].value;
    }
  }

  /**
   Without the condition that all pairs fit, every list of two headers or more shares its string with
   another list that has the same keys, and so does a single header whose pair does not fit; no other does.
   */
  lemma SharedStringIff(a: seq<Header>)
    requires WellKeyed(a)
    ensures (exists b :: Twin(a, b)) <==> |a| >= 2 || (|a| == 1 && |Pair(a[0])| >= BUFFER_SIZE)
  {
    hide Greedy, Pair;
    if |a| >= 2 || (|a| == 1 && |Pair(a[0])| >= BUFFER_SIZE) {
      var b := MakeTwin(a);
    } else {
      forall b
        ensures !Twin(a, b)
      {
        if SameKeys(a, b) && |a| == 1 {
          OneFittingHeader(a, b);
        }
      }
    }
  }

  lemma MakeTwin(a: seq<Header>) returns (b: seq<Header>)
    requires WellKeyed(a) && (|a| >= 2 || (|a| == 1 && |Pair(a[0])| >= BUFFER_SIZE))
    ensures Twin(a, b)
  {
    hide Greedy, Twin;
    if |a| >= 2 && Fits(a) {
      b := TwinOfFitting(a);
    } else {
      if |a| == 1 {
        OneHeader(a[0]);
        assert a == [a[0]];
      }
      GreedyStart();
      assert a[..0] == [];
      var i := SomeSkipped(a, 0);
      b := TwinOfSkipped(a, i);
    }
  }

  /** So for every list of two headers or more there are other headers, under the same keys, with the same cache key. */
  lemma DifferentHeadersOneKey(a: seq<Header>) returns (b: seq<Header>)
    requires WellKeyed(a) && |a| >= 2
    ensures WellKeyed(b) && SameKeys(a, b) && a != b
    ensures Decimal(HashOf(a)) == Decimal(HashOf(b))
  {
    hide Greedy;
    b := MakeTwin(a);
    SameKeysWellKeyed(a, b);
  }

  // ---------- the key in integer arithmetic ----------

  /** If all pairs fit, the key is the published hash of keys and values in list order and zeros up to 1024 bytes. */
  lemma KeyIsPublished(list: seq<Header>)
    ensures var s := Concatenated(list);
            |s| <= 1023 ==> HashOf(list) == Xxh64Published.Published(s + Zeros(1024 - |s|), 0)
  {
    hide Greedy, Concatenated, Xxh64Published.Published, Xxh64.Hash;
    var s := Concatenated(list);
    if |s| <= 1023 {
      NothingSkippedIff(list);
      Xxh64Published.HashIsPublished(s + Zeros(1024 - |s|), 0);
    }
  }
}
