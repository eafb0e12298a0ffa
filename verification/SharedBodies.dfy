/**
 Which headers are given each other's bodies: the cache looks at the cache key
 alone, so what was stored for one list is returned for every list with its key.
 */
module SharedBodies {
  import opened Wrappers
  import opened Words
  import opened MemoryCache
  import opened Detect
  import opened HeaderList
  import opened CacheKeys
  import Xxh64

  /** The cache key of a head: empty after init, the decimal hash after the first add. */
  function KeyOf(list: seq<Header>): Text
  {
    if list == [] then [] else Decimal(HashOf(list))
  }

  predicate OneKey(a: seq<Header>, b: seq<Header>)
  {
    if a == [] || b == [] then a == b else HashOf(a) == HashOf(b)
  }

  lemma KeyOfIff(a: seq<Header>, b: seq<Header>)
    ensures KeyOf(a) == KeyOf(b) <==> OneKey(a, b)
  {
    hide Decimal, HashOf;
    KeyIsHash(a, b);
  }

  /** A call for each of two lists, in this order. */
  function Calls(a: seq<Header>, b: seq<Header>, first: seq<Reply>, second: seq<Reply>): (calls: seq<Call>)
    ensures |calls| == 2
  {
    [Call(KeyOf(a), first), Call(KeyOf(b), second)]
  }

  /** The counter after the first body stored: below the threshold, so that the second lookup is answered. */
  predicate Answers(c0: u64) { Wrap64(c0 + 1) < HASH_THRESHOLD }

  lemma AnswersIff(c0: u64)
    ensures Answers(c0) <==> c0 < 4095 || c0 == M64 - 1
  {
  }

  /**
   For all two heads: what the servers offer for the first is what the second is given exactly when the two
   have one key and the counter of the cache is below the threshold.
   */
  lemma OtherHeadersBody(c0: u64, a: seq<Header>, b: seq<Header>, first: seq<Reply>, second: seq<Reply>)
    requires Fresh(first).Cloud?
    ensures OutcomeOf(c0, Calls(a, b, first, second), 1) ==
            if OneKey(a, b) && Answers(c0) then Cached(Fresh(first).body) else Fresh(second)
  {
    hide KeyOf, HashOf, RunCalls, OutcomeOf, Fresh, Stores, FirstOffered, OneKey, Wrap64, Gives;
    KeyOfIff(a, b);
    var calls := Calls(a, b, first, second);
    StoresOne(c0, calls[0], KeyOf(b));
    assert calls[..1] == [calls[0]];
    CacheIsTransparent(c0, calls, 1);
    assert [calls[0]][0..] == [calls[0]];
  }

  lemma StoresOne(c0: u64, c: Call, key: Text)
    requires Fresh(c.replies).Cloud?
    ensures Stores(c0, [c]) == 1 && LastFlushCall(c0, [c]) == 0
    ensures FirstOffered([c], key) == if key == c.key then Some(Fresh(c.replies).body) else None
  {
    hide Fresh;
    assert [c][..0] == [] && [] + [c] == [c];
    RunCallsStep(c0, [], c);
    LastFlushCallStep(c0, [], c);
    OfferedAppend([], c, key);
  }

  /** Requests that differ in a skipped header only are given one body. */
  lemma SkippedHeaderSharesBody(c0: u64, front: seq<Header>, h: Header, g: Header, back: seq<Header>,
                                first: seq<Reply>, second: seq<Reply>)
    requires Skipped(front, h) && Skipped(front, g) && Fresh(first).Cloud?
    ensures OutcomeOf(c0, Calls(front + [h] + back, front + [g] + back, first, second), 1) ==
            if Answers(c0) then Cached(Fresh(first).body) else Fresh(second)
  {
    hide KeyOf, HashOf, OutcomeOf, Fresh, Skipped, Answers;
    SkippedValuesShareKey(front, h, g, back);
    OtherHeadersBody(c0, front + [h] + back, front + [g] + back, first, second);
  }

  /** So it is, in every list, for a header whose pair has 1024 bytes or more and for all its values that long. */
  lemma LongHeaderSharesBody(c0: u64, front: seq<Header>, h: Header, g: Header, back: seq<Header>,
                             first: seq<Reply>, second: seq<Reply>)
    requires |Pair(h)| >= BUFFER_SIZE && |Pair(g)| >= BUFFER_SIZE && Fresh(first).Cloud?
    ensures OutcomeOf(c0, Calls(front + [h] + back, front + [g] + back, first, second), 1) ==
            if Answers(c0) then Cached(Fresh(first).body) else Fresh(second)
  {
    hide KeyOf, HashOf, OutcomeOf, Fresh, Skipped, Answers, Pair;
    LongIsSkipped(front, h);
    LongIsSkipped(front, g);
    SkippedHeaderSharesBody(c0, front, h, g, back, first, second);
  }

  /** For every list of two headers or more there are other values, under the same keys, that are given its body. */
  lemma EveryListSharesBody(c0: u64, a: seq<Header>, first: seq<Reply>, second: seq<Reply>)
    returns (b: seq<Header>)
    requires WellKeyed(a) && |a| >= 2 && Fresh(first).Cloud?
    ensures WellKeyed(b) && SameKeys(a, b) && a != b
    ensures OutcomeOf(c0, Calls(a, b, first, second), 1) ==
            if Answers(c0) then Cached(Fresh(first).body) else Fresh(second)
  {
    hide KeyOf, HashOf, Decimal, OutcomeOf, Fresh, WellKeyed, Answers;
    b := DifferentHeadersOneKey(a);
    KeyIsHash(a, b);
    OtherHeadersBody(c0, a, b, first, second);
  }

  /**
   Headers under the same keys, all of whose pairs fit and whose values are free of the prefix, are given
   each other's bodies only if two different buffers collide under XXH64.
   */
  lemma SharedOnlyByCollision(c0: u64, a: seq<Header>, b: seq<Header>, first: seq<Reply>, second: seq<Reply>)
    requires WellKeyed(a) && SameKeys(a, b) && a != b && Fresh(first).Cloud?
    requires Fits(a) && Fits(b) && PrefixFree(a) && PrefixFree(b)
    ensures var s, t := Padded(Greedy([], a)), Padded(Greedy([], b));
            && s != t
            && OutcomeOf(c0, Calls(a, b, first, second), 1) ==
               if Xxh64.Hash(s, 0) == Xxh64.Hash(t, 0) && Answers(c0) then Cached(Fresh(first).body) else Fresh(second)
  {
    hide KeyOf, OutcomeOf, Fresh, Greedy, Padded, Xxh64.Hash, Answers, WellKeyed, Fits, PrefixFree;
    KeysTellHeadersApart(a, b);
    OtherHeadersBody(c0, a, b, first, second);
  }
}
