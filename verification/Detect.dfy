/**
 The detection step: look the cache up, else ask the servers in order, store the
 first reply and return it. Servers and the transfer library are an oracle here:
 each call comes with what every server would answer.
 */
module Detect {
  import opened Wrappers
  import opened Words
  import opened Memory
  import opened MemoryCache
  import opened Response

  // ---------- replies ----------

  /** What a transfer from one server gives: an error, or the pieces of a body. */
  datatype Reply = Unreachable | Body(pieces: seq<seq<u8>>)

  /** The C string in a NUL-terminated buffer. */
  function UpToNul(s: seq<u8>): (r: seq<u8>)
    ensures 0 !in r && r <= s
    ensures |r| < |s| ==> s[|r|] == 0
  {
    if s == [] || s[0] == 0 then [] else [s[0]] + UpToNul(s[1..])
  }

  const BRACE: u8 := 0x7b

  function Text0(r: Reply): Text
    requires r.Body?
  {
    UpToNul(Concat(r.pieces))
  }

  function FirstReachable(replies: seq<Reply>): Option<Text>
  {
    if replies == [] then None
    else if replies[0].Body? then Some(Text0(replies[0]))
    else FirstReachable(replies[1..])
  }

  /** The first server that completes a transfer sends nothing in it. */
  predicate SendsNothing(replies: seq<Reply>)
  {
    replies != [] && if replies[0].Body? then replies[0].pieces == [] else SendsNothing(replies[1..])
  }

  ghost predicate IsObject(t: Text) { t != [] && t[0] == BRACE }

  // ---------- one detection ----------

  /** Fault: nothing was received and the NUL behind it is written through a null pointer. */
  datatype Outcome = Cached(body: Text) | Cloud(body: Text) | Failed | Fault

  /** What asking the servers gives. */
  function Fresh(replies: seq<Reply>): Outcome
  {
    var body := FirstReachable(replies);
    if SendsNothing(replies) then Fault
    else if body.Some? && body.value != [] && body.value[0] == BRACE then Cloud(body.value)
    else Failed
  }

  /** The first server that completes a transfer; all before it fail. */
  predicate FirstToAnswer(replies: seq<Reply>, i: nat)
  {
    i < |replies| && replies[i].Body? && forall j | 0 <= j < i :: replies[j].Unreachable?
  }

  /**
   What one call to the servers gives, by the pieces of the first that answers: a fault if there are none,
   their C string if it is an object, a failure if it is not and if no server answers.
   */
  ghost predicate Gives(replies: seq<Reply>, out: Outcome)
  {
    && (forall i: nat | FirstToAnswer(replies, i) ::
          var pieces := replies[i].pieces;
          var body := UpToNul(Concat(pieces));
          out == if pieces == [] then Fault else if IsObject(body) then Cloud(body) else Failed)
    && ((forall i | 0 <= i < |replies| :: replies[i].Unreachable?) ==> out == Failed)
  }

  lemma {:induction false} FreshIs(replies: seq<Reply>, i: nat)
    requires FirstToAnswer(replies, i)
    ensures var pieces := replies[i].pieces;
            var body := UpToNul(Concat(pieces));
            Fresh(replies) == if pieces == [] then Fault else if IsObject(body) then Cloud(body) else Failed
  {
    hide UpToNul, Concat;
    if i > 0 {
      FreshIs(replies[1..], i - 1);
    }
  }

  lemma {:induction false} FreshFails(replies: seq<Reply>)
    requires forall i | 0 <= i < |replies| :: replies[i].Unreachable?
    ensures Fresh(replies) == Failed
  {
    if replies != [] {
      FreshFails(replies[1..]);
    }
  }

  lemma {:induction false} SomeAnswers(replies: seq<Reply>) returns (i: nat)
    requires exists j | 0 <= j < |replies| :: replies[j].Body?
    ensures FirstToAnswer(replies, i)
  {
    if replies[0].Body? {
      i := 0;
    } else {
      i := SomeAnswers(replies[1..]);
      i := i + 1;
    }
  }

  /** Failover: the servers give one outcome, that of the first to answer. */
  lemma FreshIff(replies: seq<Reply>, out: Outcome)
    ensures Gives(replies, out) <==> out == Fresh(replies)
  {
    hide Fresh, UpToNul, Concat, IsObject;
    forall i: nat | FirstToAnswer(replies, i)
      ensures var pieces := replies[i].pieces;
              var body := UpToNul(Concat(pieces));
              Fresh(replies) == if pieces == [] then Fault else if IsObject(body) then Cloud(body) else Failed
    {
      FreshIs(replies, i);
    }
    if forall i | 0 <= i < |replies| :: replies[i].Unreachable? {
      FreshFails(replies);
    } else {
      var i := SomeAnswers(replies);
    }
  }

  /** The outcome and the cache afterwards, when no allocation fails. */
  function Detection(q: Queue, key: Text, replies: seq<Reply>): (Outcome, Queue)
  {
    var hit := Answer(q, key);
    var q' := AfterGet(q);
    if hit.Some? then (Cached(hit.value), q')
    else
      match Fresh(replies)
      case Cloud(body) => (Cloud(body), AfterSet(q', key, body))
      case out => (out, q')
  }

  /** da_cloud_detect up to the parsing of the body, when no allocation fails. */
  method DetectBody(cache: Cache, key: Text, replies: seq<Reply>) returns (out: Outcome)
    modifies cache
    ensures (out, cache.View()) == Detection(old(cache.View()), key, replies)
    ensures match Answer(old(cache.View()), key)
            case Some(body) => out == Cached(body)
            case None => Gives(replies, out)
  {
    FreshIff(replies, Fresh(replies));
    var hit := cache.Get(key, true);
    if hit.Some? {
      return Cached(hit.value);
    }
    assert replies[0..] == replies;
    for i := 0 to |replies|
      invariant Fresh(replies[i..]) == Fresh(replies)
      invariant cache.View() == AfterGet(old(cache.View()))
    {
      assert replies[i..][1..] == replies[i + 1..];
      if replies[i].Body? {
        var body := Receive(replies[i].pieces);
        if body.None? {
          return Fault;
        }
        var text := UpToNul(body.value);
        if text == [] || text[0] != BRACE {
          return Failed;
        }
        var stored := cache.Set(key, text, true);
        return Cloud(text);
      }
    }
    return Failed;
  }

  // ---------- whole runs ----------

  /** One call: the key of its headers, and what the servers would answer. */
  datatype Call = Call(key: Text, replies: seq<Reply>)

  /** A run of calls on a new cache whose counter starts at c0, whatever that is. */
  function RunCalls(c0: u64, calls: seq<Call>): Queue
  {
    if calls == [] then Queue([], c0)
    else
      var last := calls[|calls| - 1];
      Detection(RunCalls(c0, calls[..|calls| - 1]), last.key, last.replies).1
  }

  /** What call i of a run returned. */
  function OutcomeOf(c0: u64, calls: seq<Call>, i: nat): Outcome
    requires i < |calls|
  {
    Detection(RunCalls(c0, calls[..i]), calls[i].key, calls[i].replies).0
  }

  /** How many calls of a run stored a body. */
  function Stores(c0: u64, calls: seq<Call>): nat
  {
    if calls == [] then 0
    else Stores(c0, calls[..|calls| - 1]) + if OutcomeOf(c0, calls, |calls| - 1).Cloud? then 1 else 0
  }

  lemma RunCallsStep(c0: u64, calls: seq<Call>, c: Call)
    ensures var d := Detection(RunCalls(c0, calls), c.key, c.replies);
            && RunCalls(c0, calls + [c]) == d.1 && OutcomeOf(c0, calls + [c], |calls|) == d.0
            && Stores(c0, calls + [c]) == Stores(c0, calls) + if d.0.Cloud? then 1 else 0
  {
    hide Detection;
    assert (calls + [c])[..|calls|] == calls;
  }

  lemma {:induction false} CounterIsStores(c0: u64, calls: seq<Call>)
    ensures RunCalls(c0, calls).cnt == Wrap64(c0 + Stores(c0, calls))
  {
    hide Wrap64, Add64, Fresh, RunCalls, Stores, OutcomeOf, Detection;
    if calls == [] {
      NoCalls(c0);
    } else {
      var front, c := calls[..|calls| - 1], calls[|calls| - 1];
      assert calls == front + [c];
      CounterIsStores(c0, front);
      RunCallsStep(c0, front, c);
      CountStep(RunCalls(c0, front), c, c0 + Stores(c0, front));
    }
  }

  lemma NoCalls(c0: u64)
    ensures RunCalls(c0, []) == Queue([], c0) && Stores(c0, []) == 0 && Wrap64(c0) == c0
  {
  }

  lemma CountStep(q: Queue, c: Call, n: nat)
    requires q.cnt == Wrap64(n)
    ensures var d := Detection(q, c.key, c.replies); d.1.cnt == Wrap64(n + if d.0.Cloud? then 1 else 0)
  {
    hide Wrap64, Add64, Fresh;
    Wrap64Adds(n, 1);
  }

  ghost predicate DistinctKeys(entries: seq<Entry>)
  {
    forall i, j | 0 <= i < j < |entries| :: entries[i].key != entries[j].key
  }

  ghost predicate StoredByCall(c0: u64, calls: seq<Call>, e: Entry, i: nat)
  {
    i < |calls| && calls[i].key == e.key && OutcomeOf(c0, calls, i) == Cloud(e.value)
    && FirstReachable(calls[i].replies) == Some(e.value)
  }

  ghost predicate Stored(c0: u64, calls: seq<Call>, e: Entry)
  {
    exists i: nat :: StoredByCall(c0, calls, e, i)
  }

  lemma {:induction false} MatchIsEntry(entries: seq<Entry>, key: Text)
    ensures FirstMatch(entries, key).Some? ==> Entry(key, FirstMatch(entries, key).value) in entries
    ensures FirstMatch(entries, key).None? ==> forall e | e in entries :: e.key != key
  {
    if entries != [] {
      MatchIsEntry(entries[1..], key);
      assert entries == [entries[0]] + entries[1..];
    }
  }

  /** How full the queue can be: one more than the counter after a wrap, not more than the counter before. */
  ghost predicate Bounded(c0: u64, stores: nat, q: Queue)
  {
    && (q.cnt <= HASH_THRESHOLD ==> |q.entries| <= q.cnt + 1)
    && (q.cnt > HASH_THRESHOLD ==> |q.entries| <= 1)
    && (c0 + stores < M64 ==> q.cnt == c0 + stores && |q.entries| <= q.cnt)
  }

  /** What every run of detections keeps. */
  ghost predicate Inv(c0: u64, calls: seq<Call>, q: Queue)
  {
    && DistinctKeys(q.entries)
    && (forall i | 0 <= i < |q.entries| :: IsObject(q.entries[i].value) && Stored(c0, calls, q.entries[i]))
    && Bounded(c0, Stores(c0, calls), q)
  }

  lemma StaysStored(c0: u64, calls: seq<Call>, c: Call, e: Entry)
    requires Stored(c0, calls, e)
    ensures Stored(c0, calls + [c], e)
  {
    var i: nat :| StoredByCall(c0, calls, e, i);
    assert (calls + [c])[..i] == calls[..i];
    assert StoredByCall(c0, calls + [c], e, i);
  }

  lemma NewIsStored(c0: u64, calls: seq<Call>, c: Call)
    requires Detection(RunCalls(c0, calls), c.key, c.replies).0.Cloud?
    ensures var body := Detection(RunCalls(c0, calls), c.key, c.replies).0.body;
            IsObject(body) && Stored(c0, calls + [c], Entry(c.key, body))
  {
    var e := Entry(c.key, Detection(RunCalls(c0, calls), c.key, c.replies).0.body);
    assert (calls + [c])[..|calls|] == calls;
    assert StoredByCall(c0, calls + [c], e, |calls|);
  }

  lemma DetectionStaysBounded(c0: u64, stores: nat, q: Queue, key: Text, replies: seq<Reply>)
    requires Bounded(c0, stores, q)
    ensures var d := Detection(q, key, replies); Bounded(c0, stores + if d.0.Cloud? then 1 else 0, d.1)
  {
    hide Fresh, FirstMatch;
    SumWraps(q.cnt, 1);
  }

  /** One detection keeps the invariant. */
  lemma DetectionKeepsInv(c0: u64, calls: seq<Call>, c: Call)
    requires Inv(c0, calls, RunCalls(c0, calls))
    ensures Inv(c0, calls + [c], RunCalls(c0, calls + [c]))
  {
    hide Fresh, Stored, IsObject, FirstMatch, Stores, RunCalls, Bounded;
    var q := RunCalls(c0, calls);
    RunCallsStep(c0, calls, c);
    var (out, q') := Detection(q, c.key, c.replies);
    DetectionStaysBounded(c0, Stores(c0, calls), q, c.key, c.replies);
    forall i | 0 <= i < |q.entries|
      ensures Stored(c0, calls + [c], q.entries[i])
    {
      StaysStored(c0, calls, c, q.entries[i]);
    }
    if out.Cloud? {
      MatchIsEntry(AfterGet(q).entries, c.key);
      NewIsStored(c0, calls, c);
      assert q'.entries == AfterGet(q).entries + [Entry(c.key, out.body)];
    }
  }

  lemma {:induction false} RunKeepsInv(c0: u64, calls: seq<Call>)
    ensures Inv(c0, calls, RunCalls(c0, calls))
  {
    if calls != [] {
      hide RunCalls, Inv;
      var front := calls[..|calls| - 1];
      RunKeepsInv(c0, front);
      DetectionKeepsInv(c0, front, calls[|calls| - 1]);
      assert calls == front + [calls[|calls| - 1]];
    }
  }

  /** The queue never holds more than 4097 entries, and not more than 4096 until the counter wraps around. */
  lemma QueueIsBounded(c0: u64, calls: seq<Call>)
    ensures |RunCalls(c0, calls).entries| <= 4097
    ensures c0 + Stores(c0, calls) < M64 ==> |RunCalls(c0, calls).entries| <= 4096
  {
    hide RunCalls, Stores;
    RunKeepsInv(c0, calls);
  }

  /** Calls with n different keys, each offered the object of one brace. */
  function DifferentCalls(n: nat): (calls: seq<Call>)
    ensures |calls| == n
  {
    if n == 0 then [] else DifferentCalls(n - 1) + [Call(Repeated(n - 1), [Body([[BRACE]])])]
  }

  function Repeated(n: nat): (t: Text)
    ensures |t| == n
  {
    seq(n, _ => 1)
  }

  /** n entries with keys shorter than n, after as many stored from a counter of 2^64 - 1. */
  ghost predicate FullOf(q: Queue, n: nat)
  {
    && |q.entries| == n && (forall e | e in q.entries :: |e.key| < n)
    && q.cnt == if n == 0 then M64 - 1 else n - 1
  }

  lemma FullerByOne(q: Queue, n: nat)
    requires n <= HASH_THRESHOLD && FullOf(q, n)
    ensures FullOf(AfterSet(AfterGet(q), Repeated(n), [BRACE]), n + 1)
    ensures Answer(q, Repeated(n)) == None
  {
    hide FirstMatch;
    MatchIsEntry(q.entries, Repeated(n));
  }

  /** From a counter of 2^64 - 1 the 4097 entries are reached. */
  lemma {:induction false} QueueOverfull(n: nat)
    requires n <= HASH_THRESHOLD + 1
    ensures FullOf(RunCalls(M64 - 1, DifferentCalls(n)), n)
  {
    hide FullOf, RunCalls, Stores, Fresh, Detection, FirstMatch;
    if n == 0 {
      NoCalls(M64 - 1);
      EmptyIsFullOf();
    } else {
      QueueOverfull(n - 1);
      var c := Call(Repeated(n - 1), [Body([[BRACE]])]);
      var q := RunCalls(M64 - 1, DifferentCalls(n - 1));
      RunCallsStep(M64 - 1, DifferentCalls(n - 1), c);
      BraceIsObject();
      FullerByOne(q, n - 1);
      StoresNew(q, c, [BRACE]);
    }
  }

  lemma EmptyIsFullOf()
    ensures FullOf(Queue([], M64 - 1), 0)
  {
  }

  lemma StoresNew(q: Queue, c: Call, body: Text)
    requires Fresh(c.replies) == Cloud(body) && Answer(q, c.key) == None
    ensures Detection(q, c.key, c.replies) == (Cloud(body), AfterSet(AfterGet(q), c.key, body))
  {
    hide Fresh, Answer;
  }

  lemma BraceIsObject()
    ensures Fresh([Body([[BRACE]])]) == Cloud([BRACE])
  {
    assert [[BRACE]][..0] == [];
    assert Concat([[BRACE]]) == [BRACE];
    assert [BRACE][1..] == [];
  }

  // ---------- transparency ----------

  /** The first object that the servers offered in a call with this key. */
  function FirstOffered(calls: seq<Call>, key: Text): Option<Text>
  {
    if calls == [] then None
    else
      var before, c := FirstOffered(calls[..|calls| - 1], key), calls[|calls| - 1];
      if before.None? && c.key == key && Fresh(c.replies).Cloud? then Some(Fresh(c.replies).body) else before
  }

  /** In call i the servers offer an object for the key. */
  ghost predicate Offers(calls: seq<Call>, key: Text, i: nat, body: Text)
  {
    i < |calls| && calls[i].key == key && Gives(calls[i].replies, Cloud(body))
  }

  ghost predicate OfferedFirst(calls: seq<Call>, key: Text, body: Text)
  {
    exists i: nat :: Offers(calls, key, i, body) && forall j: nat, other: Text | j < i :: !Offers(calls, key, j, other)
  }

  lemma OffersStep(calls: seq<Call>, c: Call, key: Text)
    ensures forall i: nat, body | i < |calls| :: Offers(calls + [c], key, i, body) == Offers(calls, key, i, body)
    ensures forall body :: Offers(calls + [c], key, |calls|, body) <==> c.key == key && Fresh(c.replies) == Cloud(body)
  {
    hide Gives, Fresh;
    forall body
      ensures Gives(c.replies, Cloud(body)) <==> Fresh(c.replies) == Cloud(body)
    {
      FreshIff(c.replies, Cloud(body));
    }
  }

  /** The object offered first is that of the first call, by index, in which the servers give one for the key. */
  lemma {:induction false} FirstOfferedIff(calls: seq<Call>, key: Text, body: Text)
    ensures FirstOffered(calls, key) == Some(body) <==> OfferedFirst(calls, key, body)
    ensures FirstOffered(calls, key) == None <==> forall i: nat, other: Text :: !Offers(calls, key, i, other)
    decreases |calls|
  {
    if calls != [] {
      hide Offers, Fresh, FirstOffered;
      var n := |calls| - 1;
      assert calls == calls[..n] + [calls[n]];
      FirstOfferedIff(calls[..n], key, body);
      OffersStep(calls[..n], calls[n], key);
      OfferedAppend(calls[..n], calls[n], key);
    }
  }

  lemma OfferedAppend(calls: seq<Call>, c: Call, key: Text)
    ensures FirstOffered(calls + [c], key) ==
            if FirstOffered(calls, key).None? && c.key == key && Fresh(c.replies).Cloud?
            then Some(Fresh(c.replies).body) else FirstOffered(calls, key)
  {
    hide Fresh;
    assert (calls + [c])[..|calls|] == calls;
  }

  lemma NothingOffered(key: Text)
    ensures FirstOffered([], key) == None
  {
  }

  /** The lookup of call i is made at the threshold and flushes the queue. */
  predicate FlushCall(c0: u64, calls: seq<Call>, i: nat)
  {
    i < |calls| && Wrap64(c0 + Stores(c0, calls[..i])) >= HASH_THRESHOLD
  }

  lemma FrontFlushCalls(c0: u64, calls: seq<Call>)
    requires calls != []
    ensures forall i | 0 <= i < |calls| - 1 :: FlushCall(c0, calls[..|calls| - 1], i) == FlushCall(c0, calls, i)
  {
    hide Wrap64, Stores;
    var front := calls[..|calls| - 1];
    assert forall i | 0 <= i < |front| :: front[..i] == calls[..i];
  }

  /** The last call of a run that flushed the queue, or the first call if none did. */
  function LastFlushCall(c0: u64, calls: seq<Call>): (f: nat)
    ensures f <= |calls|
  {
    if calls == [] then 0
    else
      var n := |calls| - 1;
      if FlushCall(c0, calls, n) then n else LastFlushCall(c0, calls[..n])
  }

  lemma {:induction false} LastFlushCallIsLast(c0: u64, calls: seq<Call>)
    ensures var f := LastFlushCall(c0, calls);
            && (f == 0 || FlushCall(c0, calls, f))
            && forall i | f < i < |calls| :: !FlushCall(c0, calls, i)
    ensures LastFlushCall(c0, calls) < |calls| || calls == []
  {
    hide FlushCall;
    if calls != [] {
      FrontFlushCalls(c0, calls);
      LastFlushCallIsLast(c0, calls[..|calls| - 1]);
    }
  }

  lemma LastFlushCallStep(c0: u64, calls: seq<Call>, c: Call)
    ensures LastFlushCall(c0, calls + [c]) ==
            if Wrap64(c0 + Stores(c0, calls)) >= HASH_THRESHOLD then |calls| else LastFlushCall(c0, calls)
  {
    hide Wrap64, Stores, LastFlushCall;
    assert (calls + [c])[..|calls|] == calls;
    LastFlushCallUnfold(c0, calls + [c]);
  }

  lemma LastFlushCallUnfold(c0: u64, calls: seq<Call>)
    requires calls != []
    ensures var n := |calls| - 1;
            LastFlushCall(c0, calls) == if FlushCall(c0, calls, n) then n else LastFlushCall(c0, calls[..n])
  {
    hide FlushCall;
  }

  /** The queue finds the first object offered since the last flush, the flushing call included. */
  ghost predicate Finds(c0: u64, calls: seq<Call>, key: Text)
  {
    FirstMatch(RunCalls(c0, calls).entries, key) == FirstOffered(calls[LastFlushCall(c0, calls)..], key)
  }

  lemma {:induction false} QueueKeepsFirstOffered(c0: u64, calls: seq<Call>, key: Text)
    ensures Finds(c0, calls, key)
    decreases |calls|
  {
    hide Finds;
    if calls == [] {
      NothingFound(c0, key);
    } else {
      var front, c := calls[..|calls| - 1], calls[|calls| - 1];
      QueueKeepsFirstOffered(c0, front, key);
      QueueKeepsFirstOffered(c0, front, c.key);
      CallKeepsFirstOffered(c0, front, c, key);
      assert calls == front + [c];
    }
  }

  lemma NothingFound(c0: u64, key: Text)
    ensures Finds(c0, [], key)
  {
    NoCalls(c0);
    NothingOffered(key);
  }

  lemma CallKeepsFirstOffered(c0: u64, calls: seq<Call>, c: Call, key: Text)
    requires Finds(c0, calls, key) && Finds(c0, calls, c.key)
    ensures Finds(c0, calls + [c], key)
  {
    hide RunCalls, Stores, Wrap64, Fresh, LastFlushCall, FirstOffered, Detection, FirstMatch;
    var f := if Wrap64(c0 + Stores(c0, calls)) >= HASH_THRESHOLD then |calls| else LastFlushCall(c0, calls);
    LastFlushCallStep(c0, calls, c);
    assert (calls + [c])[f..] == calls[f..] + [c];
    OfferedAppend(calls[f..], c, key);
    RunCallsStep(c0, calls, c);
    CounterIsStores(c0, calls);
    StepKeepsFirstOffered(RunCalls(c0, calls), calls[f..], c, key);
  }

  /** One call, on a queue that finds what was offered before it. */
  lemma StepKeepsFirstOffered(q: Queue, before: seq<Call>, c: Call, key: Text)
    requires q.cnt >= HASH_THRESHOLD ==> before == []
    requires q.cnt < HASH_THRESHOLD ==> FirstMatch(q.entries, key) == FirstOffered(before, key)
    requires q.cnt < HASH_THRESHOLD ==> FirstMatch(q.entries, c.key) == FirstOffered(before, c.key)
    ensures FirstMatch(Detection(q, c.key, c.replies).1.entries, key) ==
            if FirstOffered(before, key).None? && c.key == key && Fresh(c.replies).Cloud?
            then Some(Fresh(c.replies).body) else FirstOffered(before, key)
  {
    hide Fresh, FirstOffered;
    NothingOffered(key);
    NothingOffered(c.key);
    if Detection(q, c.key, c.replies).0.Cloud? {
      FirstMatchAppend(AfterGet(q).entries, Entry(c.key, Fresh(c.replies).body), key);
    }
  }

  /**
   The cache is transparent: from any counter, each call of a run gives the first object offered for its
   key since the last flush, exactly while the counter, which wraps around, is below the threshold;
   otherwise what the servers give now.
   */
  lemma CacheIsTransparent(c0: u64, calls: seq<Call>, i: nat)
    requires i < |calls|
    ensures var before, c := calls[..i], calls[i];
            var offered := FirstOffered(before[LastFlushCall(c0, before)..], c.key);
            var out := OutcomeOf(c0, calls, i);
            if Wrap64(c0 + Stores(c0, before)) < 4096 && offered.Some?
            then out == Cached(offered.value)
            else Gives(c.replies, out) && out == Fresh(c.replies)
  {
    hide RunCalls, Stores, Wrap64, Fresh, LastFlushCall, FirstOffered, Gives;
    FreshIff(calls[i].replies, Fresh(calls[i].replies));
    CounterIsStores(c0, calls[..i]);
    QueueKeepsFirstOffered(c0, calls[..i], calls[i].key);
  }

  /** Until the counter wraps around, the condition is on the start and the number of stored bodies alone. */
  lemma TransparentUntilWrap(c0: u64, calls: seq<Call>, i: nat)
    requires i < |calls| && c0 + Stores(c0, calls[..i]) < M64
    ensures var before, c := calls[..i], calls[i];
            var out := OutcomeOf(c0, calls, i);
            if c0 + Stores(c0, before) < 4096 && FirstOffered(before, c.key).Some?
            then out == Cached(FirstOffered(before, c.key).value)
            else Gives(c.replies, out) && out == Fresh(c.replies)
  {
    hide FirstOffered, Stores, LastFlushCall, OutcomeOf, Fresh, Gives;
    var before := calls[..i];
    CacheIsTransparent(c0, calls, i);
    if c0 + Stores(c0, before) < HASH_THRESHOLD {
      NoFlushBelow(c0, before);
      assert before[0..] == before;
    }
  }

  lemma NoFlushBelow(c0: u64, calls: seq<Call>)
    requires c0 + Stores(c0, calls) < HASH_THRESHOLD
    ensures LastFlushCall(c0, calls) == 0
  {
    hide Stores, LastFlushCall;
    LastFlushCallIsLast(c0, calls);
    StoresGrow(c0, calls, LastFlushCall(c0, calls), |calls|);
    assert calls[..|calls|] == calls;
  }

  /** A hit was stored by an earlier call with the same key, from its first reachable server, and is an object. */
  lemma HitWasStored(c0: u64, calls: seq<Call>, i: nat)
    requires i < |calls| && OutcomeOf(c0, calls, i).Cached?
    ensures var body := OutcomeOf(c0, calls, i).body;
            IsObject(body) && Stored(c0, calls[..i], Entry(calls[i].key, body))
  {
    hide Stored, IsObject, FirstMatch, RunCalls, Bounded;
    var q := RunCalls(c0, calls[..i]);
    assert Answer(q, calls[i].key).Some?;
    RunKeepsInv(c0, calls[..i]);
    MatchIsEntry(q.entries, calls[i].key);
    var e := Entry(calls[i].key, OutcomeOf(c0, calls, i).body);
    var k :| 0 <= k < |q.entries| && q.entries[k] == e;
  }

  /** Once start and stored bodies together reach 4096, no call before the wrap is served from the cache. */
  lemma {:induction false} CacheGoesSilent(c0: u64, calls: seq<Call>, i: nat, j: nat)
    requires i <= j < |calls|
    requires c0 + Stores(c0, calls[..i]) >= 4096 && c0 + Stores(c0, calls[..j]) < M64
    ensures Gives(calls[j].replies, OutcomeOf(c0, calls, j))
    ensures OutcomeOf(c0, calls, j) == Fresh(calls[j].replies)
  {
    hide RunCalls, Stores, FirstOffered, Gives, OutcomeOf, Fresh;
    StoresGrow(c0, calls, i, j);
    TransparentUntilWrap(c0, calls, j);
  }

  lemma {:induction false} StoresGrow(c0: u64, calls: seq<Call>, i: nat, j: nat)
    requires i <= j <= |calls|
    ensures Stores(c0, calls[..i]) <= Stores(c0, calls[..j])
    decreases j
  {
    hide OutcomeOf;
    if i < j {
      StoresGrow(c0, calls, i, j - 1);
      assert calls[..j][..j - 1] == calls[..j - 1];
    }
  }

  /** The process faults in a call exactly when it has to ask the servers and the first to answer sends nothing. */
  lemma FaultIff(c0: u64, calls: seq<Call>, i: nat)
    requires i < |calls|
    ensures var before, c := calls[..i], calls[i];
            OutcomeOf(c0, calls, i) == Fault <==>
            && SendsNothing(c.replies)
            && !(Wrap64(c0 + Stores(c0, before)) < 4096
                 && FirstOffered(before[LastFlushCall(c0, before)..], c.key).Some?)
  {
    hide RunCalls, Stores, Wrap64, LastFlushCall, FirstOffered, OutcomeOf, Gives;
    CacheIsTransparent(c0, calls, i);
  }
}
