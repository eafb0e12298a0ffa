/**
 The tail-queue memory cache. It answers as a map that keeps the first value of
 every key, as long as its counter is below 4096; at the threshold every lookup
 flushes the queue and misses. Flushing does not reset the counter, and nothing
 sets it at the start: what the allocator left in the word is where it begins.
 */
module MemoryCache {
  import opened Wrappers
  import opened Words

  const HASH_THRESHOLD: nat := 4096

  type Text = seq<u8>

  datatype Entry = Entry(key: Text, value: Text)

  // ---------- the queue ----------

  function FirstMatch(entries: seq<Entry>, key: Text): Option<Text>
  {
    if entries == [] then None
    else if entries[0].key == key then Some(entries[0].value)
    else FirstMatch(entries[1..], key)
  }

  /** struct memory_cache with the operations of the non-GLib provider. */
  class Cache {
    var cnt: u64
    var entries: seq<Entry>

    /** memory_cache_init: the queue is initialised, the counter is not. */
    constructor ()
      ensures entries == []
    {
      cnt, entries := *, [];
    }

    function View(): Queue
      reads this
    {
      Queue(entries, cnt)
    }

    /** memory_cache_removeall: the queue is emptied, the counter stays. */
    method RemoveAll()
      modifies this`entries
      ensures entries == []
    {
      while entries != []
        decreases |entries|
      {
        entries := entries[1..];
      }
    }

    /** memory_cache_get; dupOk is whether the copy of the value can be allocated. */
    method Get(key: Text, dupOk: bool) returns (value: Option<Text>)
      modifies this`entries
      ensures View() == AfterGet(old(View()))
      ensures entries == if old(cnt) >= 4096 then [] else old(entries)
      ensures value == if dupOk then Answer(old(View()), key) else None
    {
      value := None;
      if cnt >= HASH_THRESHOLD {
        RemoveAll();
        return;
      }
      var i := 0;
      while i < |entries|
        invariant i <= |entries|
        invariant FirstMatch(entries[i..], key) == FirstMatch(entries, key)
      {
        if entries[i].key == key {
          if dupOk {
            value := Some(entries[i].value);
          }
          return;
        }
        assert entries[i..][1..] == entries[i + 1..];
        i := i + 1;
      }
    }

    /** memory_cache_set; poolOk is whether the arena gives the memory for entry, key and value. */
    method Set(key: Text, value: Text, poolOk: bool) returns (ok: bool)
      modifies this
      ensures ok == poolOk
      ensures View() == if poolOk then AfterSet(old(View()), key, value) else old(View())
      ensures poolOk ==> entries == old(entries) + [Entry(key, value)]
      ensures poolOk ==> cnt == (old(cnt) + 1) % 0x1_0000_0000_0000_0000
    {
      if !poolOk {
        return false;
      }
      entries := entries + [Entry(key, value)];
      cnt := Add64(cnt, 1);
      return true;
    }
  }

  // ---------- the queue as a value ----------

  datatype Queue = Queue(entries: seq<Entry>, cnt: u64)

  function AfterGet(q: Queue): Queue
  {
    if q.cnt >= HASH_THRESHOLD then q.(entries := []) else q
  }

  function Answer(q: Queue, key: Text): Option<Text>
  {
    if q.cnt >= HASH_THRESHOLD then None else FirstMatch(q.entries, key)
  }

  function AfterSet(q: Queue, key: Text, value: Text): Queue
  {
    Queue(q.entries + [Entry(key, value)], Add64(q.cnt, 1))
  }

  // ---------- whole runs ----------

  datatype Op = Get(key: Text) | Set(key: Text, value: Text)

  function Apply(q: Queue, op: Op): Queue
  {
    match op
    case Get(_) => AfterGet(q)
    case Set(key, value) => AfterSet(q, key, value)
  }

  /** A history from a new cache whose counter starts at c0, whatever that is. */
  function Run(c0: u64, ops: seq<Op>): Queue
  {
    if ops == [] then Queue([], c0) else Apply(Run(c0, ops[..|ops| - 1]), ops[|ops| - 1])
  }

  /** How many entries a history has stored. */
  function Sets(ops: seq<Op>): nat
  {
    if ops == [] then 0 else Sets(ops[..|ops| - 1]) + if ops[|ops| - 1].Set? then 1 else 0
  }

  /** The value that a history set first under a key. */
  function Earliest(ops: seq<Op>, key: Text): Option<Text>
  {
    if ops == [] then None
    else
      var before, op := Earliest(ops[..|ops| - 1], key), ops[|ops| - 1];
      if before.None? && op.Set? && op.key == key then Some(op.value) else before
  }

  /** Step i sets the key. */
  predicate SetsKey(ops: seq<Op>, key: Text, i: nat)
  {
    i < |ops| && ops[i].Set? && ops[i].key == key
  }

  ghost predicate SetFirst(ops: seq<Op>, key: Text, value: Text)
  {
    exists i: nat :: SetsKey(ops, key, i) && ops[i] == Set(key, value) && forall j: nat | j < i :: !SetsKey(ops, key, j)
  }

  lemma SetsKeyStep(ops: seq<Op>, key: Text)
    requires ops != []
    ensures var n := |ops| - 1;
            && (forall i: nat | i < n :: SetsKey(ops[..n], key, i) == SetsKey(ops, key, i))
            && (SetsKey(ops, key, n) <==> ops[n].Set? && ops[n].key == key)
            && (forall i: nat :: SetsKey(ops, key, i) ==> i < n || i == n)
            && (forall i: nat :: SetsKey(ops[..n], key, i) ==> SetsKey(ops, key, i))
  {
  }

  /** The earliest value is that of the first step, by index, that sets the key. */
  lemma {:induction false} EarliestIff(ops: seq<Op>, key: Text, value: Text)
    ensures Earliest(ops, key) == Some(value) <==> SetFirst(ops, key, value)
    ensures Earliest(ops, key) == None <==> forall i: nat :: !SetsKey(ops, key, i)
    decreases |ops|
  {
    if ops != [] {
      hide SetsKey;
      var n := |ops| - 1;
      EarliestIff(ops[..n], key, value);
      SetsKeyStep(ops, key);
    }
  }

  lemma {:induction false} FirstMatchAppend(entries: seq<Entry>, e: Entry, key: Text)
    ensures FirstMatch(entries + [e], key) ==
            if FirstMatch(entries, key).Some? then FirstMatch(entries, key)
            else if e.key == key then Some(e.value) else None
  {
    if entries == [] {
      assert entries + [e] == [e];
    } else {
      assert (entries + [e])[1..] == entries[1..] + [e];
      FirstMatchAppend(entries[1..], e, key);
    }
  }

  lemma {:induction false} CounterIsSets(c0: u64, ops: seq<Op>)
    ensures Run(c0, ops).cnt == Wrap64(c0 + Sets(ops))
  {
    if ops == [] {
    } else {
      hide Wrap64, Add64;
      CounterIsSets(c0, ops[..|ops| - 1]);
      Wrap64Adds(c0 + Sets(ops[..|ops| - 1]), 1);
    }
  }

  /** Step i of the history is a lookup at the threshold: it flushes the queue. */
  predicate Flushes(c0: u64, ops: seq<Op>, i: nat)
  {
    i < |ops| && ops[i].Get? && Wrap64(c0 + Sets(ops[..i])) >= HASH_THRESHOLD
  }

  lemma FrontFlushes(c0: u64, ops: seq<Op>)
    requires ops != []
    ensures forall i | 0 <= i < |ops| - 1 :: Flushes(c0, ops[..|ops| - 1], i) == Flushes(c0, ops, i)
  {
    hide Wrap64;
    var front := ops[..|ops| - 1];
    assert forall i | 0 <= i < |front| :: front[..i] == ops[..i] && front[i] == ops[i];
  }

  /** Where the part of a history behind its last flush begins. */
  function LastFlush(c0: u64, ops: seq<Op>): (f: nat)
    ensures f <= |ops| && (f == 0 || Flushes(c0, ops, f - 1))
    ensures forall i | f <= i < |ops| :: !Flushes(c0, ops, i)
  {
    if ops == [] then 0
    else
      var n := |ops| - 1;
      FrontFlushes(c0, ops);
      if Flushes(c0, ops, n) then n + 1 else LastFlush(c0, ops[..n])
  }

  lemma RunStep(c0: u64, ops: seq<Op>, op: Op)
    ensures Run(c0, ops + [op]) == Apply(Run(c0, ops), op)
    ensures Sets(ops + [op]) == Sets(ops) + if op.Set? then 1 else 0
  {
    assert (ops + [op])[..|ops|] == ops;
  }

  lemma LastFlushStep(c0: u64, ops: seq<Op>, op: Op)
    ensures LastFlush(c0, ops + [op]) ==
            if op.Get? && Wrap64(c0 + Sets(ops)) >= HASH_THRESHOLD then |ops| + 1 else LastFlush(c0, ops)
  {
    hide Wrap64;
    assert (ops + [op])[..|ops|] == ops;
  }

  /** The queue finds the earliest value set since the last flush. */
  lemma {:induction false} QueueKeepsEarliest(c0: u64, ops: seq<Op>, key: Text)
    ensures FirstMatch(Run(c0, ops).entries, key) == Earliest(ops[LastFlush(c0, ops)..], key)
  {
    NothingSet(key);
    if ops != [] {
      hide Run, LastFlush, Wrap64, Earliest, Sets;
      var n := |ops| - 1;
      var front, op := ops[..n], ops[n];
      assert ops == front + [op];
      QueueKeepsEarliest(c0, front, key);
      CounterIsSets(c0, front);
      RunStep(c0, front, op);
      LastFlushStep(c0, front, op);
      var f := LastFlush(c0, front);
      assert ops[f..] == front[f..] + [op];
      EarliestAppend(front[f..], op, key);
      if op.Set? {
        FirstMatchAppend(Run(c0, front).entries, Entry(op.key, op.value), key);
      }
    }
  }

  lemma NothingSet(key: Text)
    ensures Earliest([], key) == None
  {
  }

  lemma EarliestAppend(ops: seq<Op>, op: Op, key: Text)
    ensures Earliest(ops + [op], key) ==
            if Earliest(ops, key).None? && op.Set? && op.key == key then Some(op.value) else Earliest(ops, key)
  {
    assert (ops + [op])[..|ops|] == ops;
  }

  /**
   After any history, from any counter, a lookup gives the earliest value set since the last flush, exactly
   while the counter, which wraps around, is below the threshold.
   */
  lemma AnswerIsEarliest(c0: u64, ops: seq<Op>, key: Text)
    ensures Answer(Run(c0, ops), key) ==
            if Wrap64(c0 + Sets(ops)) < 4096 then Earliest(ops[LastFlush(c0, ops)..], key) else None
  {
    hide Wrap64;
    CounterIsSets(c0, ops);
    QueueKeepsEarliest(c0, ops, key);
  }

  /** Until the counter wraps around, the condition is on the start and the number of stored entries alone. */
  lemma AnswerUntilWrap(c0: u64, ops: seq<Op>, key: Text)
    requires c0 + Sets(ops) < M64
    ensures Answer(Run(c0, ops), key) == if c0 + Sets(ops) < 4096 then Earliest(ops, key) else None
  {
    hide Wrap64, Sets, Earliest, LastFlush, Answer, Run;
    NoWrap(c0 + Sets(ops));
    AnswerIsEarliest(c0, ops, key);
    assert ops[0..] == ops;
    if c0 + Sets(ops) < HASH_THRESHOLD {
      NoFlushBelow(c0, ops);
    }
  }

  lemma NoWrap(n: nat)
    requires n < M64
    ensures Wrap64(n) == n
  {
  }

  lemma NoFlushBelow(c0: u64, ops: seq<Op>)
    requires c0 + Sets(ops) < HASH_THRESHOLD
    ensures LastFlush(c0, ops) == 0
  {
    hide Wrap64, Sets, LastFlush;
    forall i | 0 <= i < |ops|
      ensures !Flushes(c0, ops, i)
    {
      SetsGrow(ops[..i], ops[i..]);
      assert ops == ops[..i] + ops[i..];
      NoWrap(c0 + Sets(ops[..i]));
    }
  }

  /** Caching after a flush would need the counter to start again: before it wraps no later set is ever found. */
  lemma {:induction false} NeverAnswersAgain(c0: u64, ops: seq<Op>, later: seq<Op>, key: Text)
    requires c0 + Sets(ops) >= 4096 && c0 + Sets(ops + later) < M64
    ensures Answer(Run(c0, ops + later), key) == None
  {
    SetsGrow(ops, later);
    AnswerUntilWrap(c0, ops + later, key);
  }

  /** A new cache finds a value just stored in it exactly if the next counter is below the threshold. */
  lemma FirstSetFoundIff(c0: u64, key: Text, value: Text)
    ensures Answer(Run(c0, [Set(key, value)]), key) ==
            if c0 < 4095 || c0 == M64 - 1 then Some(value) else None
  {
    var ops := [Set(key, value)];
    assert ops[..0] == [];
    AnswerIsEarliest(c0, ops, key);
    assert !Flushes(c0, ops, 0) && ops[0..] == ops;
  }

  /** With 4096 left in the word of the counter, a stored entry is not found; from 0 it is. */
  lemma DirtyStart(key: Text, value: Text)
    ensures Answer(Run(4096, [Set(key, value)]), key) == None
    ensures Answer(Run(0, [Set(key, value)]), key) == Some(value)
  {
    FirstSetFoundIff(4096, key, value);
    FirstSetFoundIff(0, key, value);
  }

  /** From a counter near 2^64 a cache that did not answer answers again: entries stored past the wrap are found. */
  lemma AnswersAgainPastWrap(key: Text, value: Text)
    ensures var start: u64, before := M64 - 2, [Set(key, value), Get(key)];
            && Answer(Run(start, before), key) == None
            && Answer(Run(start, before + [Set(key, value)]), key) == Some(value)
  {
    var start: u64, s, g := M64 - 2, Set(key, value), Get(key);
    RunStep(start, [], s);
    RunStep(start, [s], g);
    RunStep(start, [s, g], s);
    assert [s] + [g] == [s, g];
    assert Run(start, [s, g] + [s]).entries == [Entry(key, value)];
  }

  lemma {:induction false} SetsGrow(ops: seq<Op>, later: seq<Op>)
    ensures Sets(ops + later) >= Sets(ops)
  {
    if later == [] {
      assert ops + later == ops;
    } else {
      var front := later[..|later| - 1];
      SetsGrow(ops, front);
      assert (ops + later)[..|ops + later| - 1] == ops + front;
    }
  }

  /** A value just set is found exactly when its key is new since the last flush and the counter below the threshold. */
  lemma SetThenGet(c0: u64, ops: seq<Op>, key: Text, value: Text)
    requires Earliest(ops[LastFlush(c0, ops)..], key) != Some(value)
    ensures Answer(Run(c0, ops + [Set(key, value)]), key) == Some(value)
       <==> Earliest(ops[LastFlush(c0, ops)..], key).None? && Wrap64(c0 + Sets(ops) + 1) < 4096
  {
    hide Wrap64, Earliest, Run, LastFlush, Sets, Answer;
    var f, op := LastFlush(c0, ops), Set(key, value);
    assert (ops + [op])[f..] == ops[f..] + [op];
    RunStep(c0, ops, op);
    LastFlushStep(c0, ops, op);
    EarliestAppend(ops[f..], op, key);
    AnswerIsEarliest(c0, ops + [op], key);
  }

  // ---------- the first-write-wins map ----------

  /** The map that the queue stands for. */
  function AsMap(entries: seq<Entry>): map<Text, Text>
  {
    if entries == [] then map[]
    else
      var m, e := AsMap(entries[..|entries| - 1]), entries[|entries| - 1];
      if e.key in m then m else m[e.key := e.value]
  }

  /** Searching the queue is looking up the map: duplicates behind the first never matter. */
  lemma {:induction false} QueueIsMap(entries: seq<Entry>, key: Text)
    ensures FirstMatch(entries, key) == if key in AsMap(entries) then Some(AsMap(entries)[key]) else None
    decreases |entries|
  {
    if entries != [] {
      var front, e := entries[..|entries| - 1], entries[|entries| - 1];
      QueueIsMap(front, key);
      assert entries == front + [e];
      FirstMatchAppend(front, e, key);
    }
  }
}
