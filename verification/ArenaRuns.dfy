/**
 Whole runs of the arena: when the regions handed out stay in bounds, aligned and
 apart, for which arenas some run breaks that, and how many chunks a run can make.
 */
module ArenaRuns {
  import opened Wrappers
  import opened Words
  import opened Arena

  // ---------- regions over whole runs ----------

  /** A region handed out: which chunk of the chain, where, and the size asked for. */
  datatype Region = Region(chunk: nat, off: nat, len: nat)

  /** Two regions share no byte; a region without bytes shares none. */
  ghost predicate Apart(r: Region, s: Region)
  {
    r.len == 0 || s.len == 0 || r.chunk != s.chunk || r.off + r.len <= s.off || s.off + s.len <= r.off
  }

  ghost predicate Inside(chunks: seq<Chunk>, r: Region)
  {
    r.chunk < |chunks| && r.off % 4 == 0 && r.off + r.len <= chunks[r.chunk].off <= chunks[r.chunk].cap
  }

  ghost predicate Tidy(chunks: seq<Chunk>, regions: seq<Region>)
  {
    && |chunks| > 0
    && (forall i | 0 <= i < |chunks| :: Sound(chunks[i]))
    && (forall i | 0 <= i < |regions| :: Inside(chunks, regions[i]))
    && (forall i, j | 0 <= i < j < |regions| :: Apart(regions[i], regions[j]))
  }

  ghost predicate GoodSizes(chunks: seq<Chunk>)
  {
    forall i | 0 <= i < |chunks| :: chunks[i].cap % 4 <= 1
  }

  /** The chain after an allocation. */
  function Extend(chunks: seq<Chunk>, out: Outcome): (r: seq<Chunk>)
    requires |chunks| > 0 && |out.chunks| > 0
    ensures |r| >= |chunks|
  {
    chunks[..|chunks| - 1] + out.chunks
  }

  function Record(regions: seq<Region>, chunks: seq<Chunk>, out: Outcome, needed: nat): seq<Region>
    requires |chunks| > 0
  {
    if out.at.None? then regions else regions + [Region(|chunks| - 1, out.at.value, needed)]
  }

  /** The current chunk is bumped or left alone; new chunks are empty but for the region at the start of the last. */
  ghost predicate Shaped(c: Chunk, needed: u64, out: Outcome)
  {
    var last := |out.chunks| - 1;
    && last >= 0
    && (last == 0 ==> out.chunks[0] == Bump(c, needed))
    && (last == 0 ==> out.at == if needed < Room(c) then Some(c.off) else None)
    && (last > 0 ==> out.chunks[0] == c)
    && (forall i | 0 < i < last :: out.chunks[i].off == 0)
    && (last > 0 ==> out.chunks[last] == Bump(Chunk(out.chunks[last].cap, 0), needed))
    && (last > 0 ==> out.at == if needed < out.chunks[last].cap then Some(0) else None)
  }

  lemma {:induction false} AllocateShape(c: Chunk, needed: u64, budget: nat)
    ensures Shaped(c, needed, Allocate(c, needed, budget))
    decreases budget
  {
    hide RoundUp;
    if !(needed < Room(c)) && !(Grown(c.cap, needed) >= LONG_MAX || budget < 2) {
      var d := Chunk(Grown(c.cap, needed), 0);
      AllocateShape(d, needed, budget - 2);
      GrowShape(c, d, needed, Allocate(d, needed, budget - 2));
    }
  }

  lemma GrowShape(c: Chunk, d: Chunk, needed: u64, out: Outcome)
    requires d.off == 0 && Shaped(d, needed, out)
    ensures Shaped(c, needed, Outcome([c] + out.chunks, out.at))
  {
    hide RoundUp;
    assert forall i | 0 < i <= |out.chunks| :: ([c] + out.chunks)[i] == out.chunks[i - 1];
  }

  /** Known before the call: every chunk that the request links has a size of 0 or 1 modulo 4. */
  predicate StaysGood(c: Chunk, needed: u64, budget: nat)
    decreases budget
  {
    Grows(c, needed, budget) ==>
      Grown(c.cap, needed) % 4 <= 1 && StaysGood(Chunk(Grown(c.cap, needed), 0), needed, budget - 2)
  }

  /** The sizes after an allocation are good exactly when those before are and the request keeps them so. */
  lemma SizesStayGoodIff(chunks: seq<Chunk>, needed: u64, budget: nat)
    requires |chunks| > 0
    ensures var last := chunks[|chunks| - 1];
            GoodSizes(Extend(chunks, Allocate(last, needed, budget))) <==>
            GoodSizes(chunks) && StaysGood(last, needed, budget)
  {
    hide RoundUp, Allocate, StaysGood;
    var last := chunks[|chunks| - 1];
    var out := Allocate(last, needed, budget);
    NewSizesGoodIff(last, needed, budget);
    AllocateShape(last, needed, budget);
    var front := chunks[..|chunks| - 1];
    GoodSizesAppend(front, out.chunks);
    GoodSizesAppend(front, [last]);
    assert front + [last] == chunks;
    assert out.chunks[0].cap == last.cap;
    assert [last][0] == last;
  }

  lemma GoodSizesAppend(a: seq<Chunk>, b: seq<Chunk>)
    ensures GoodSizes(a + b) <==> GoodSizes(a) && GoodSizes(b)
  {
    assert forall i | 0 <= i < |a| :: (a + b)[i] == a[i];
    assert forall i | 0 <= i < |b| :: b[i] == (a + b)[|a| + i];
  }

  lemma {:induction false} NewSizesGoodIff(c: Chunk, needed: u64, budget: nat)
    ensures GoodSizes(Allocate(c, needed, budget).chunks) <==> c.cap % 4 <= 1 && StaysGood(c, needed, budget)
    decreases budget
  {
    hide RoundUp;
    if Grows(c, needed, budget) {
      var d := Chunk(Grown(c.cap, needed), 0);
      var rest := Allocate(d, needed, budget - 2).chunks;
      NewSizesGoodIff(d, needed, budget - 2);
      GoodSizesAppend([c], rest);
      assert [c][0] == c;
    } else {
      assert Allocate(c, needed, budget).chunks[0].cap == c.cap;
    }
  }

  /** When one new chunk is enough, its size is all that matters. */
  lemma StaysGoodOnce(c: Chunk, needed: u64, budget: nat)
    requires c.cap >= 1 && c.cap + c.cap / 2 + needed < M64
    ensures StaysGood(c, needed, budget) <==>
            !Grows(c, needed, budget) || (c.cap + c.cap / 2 + needed) % 4 <= 1
  {
    EnoughIff(c.cap, needed);
  }

  /** One allocation keeps every region in bounds, aligned and apart from the others. */
  lemma AllocateKeepsTidy(chunks: seq<Chunk>, regions: seq<Region>, needed: u64, budget: nat)
    requires Tidy(chunks, regions) && GoodSizes(chunks) && needed <= MAX_ROUNDED
    requires StaysGood(chunks[|chunks| - 1], needed, budget)
    ensures var out := Allocate(chunks[|chunks| - 1], needed, budget);
            var after := Extend(chunks, out);
            Tidy(after, Record(regions, after, out, needed)) && GoodSizes(after)
  {
    assert |chunks| > 0;
    hide Allocate, StaysGood, Tidy;
    var out := Allocate(chunks[|chunks| - 1], needed, budget);
    AllocateShape(chunks[|chunks| - 1], needed, budget);
    SizesStayGoodIff(chunks, needed, budget);
    OutcomeKeepsTidy(chunks, regions, needed, out);
  }

  lemma OutcomeKeepsTidy(chunks: seq<Chunk>, regions: seq<Region>, needed: u64, out: Outcome)
    requires Tidy(chunks, regions) && needed <= MAX_ROUNDED
    requires Shaped(chunks[|chunks| - 1], needed, out) && GoodSizes(Extend(chunks, out))
    ensures Tidy(Extend(chunks, out), Record(regions, Extend(chunks, out), out, needed))
  {
    hide RoundUp, Bump;
    var after := Extend(chunks, out);
    ExtendedChunks(chunks, needed, out);
    StepCoversRequest(needed);
    assert forall i | 0 <= i < |regions| :: Inside(after, regions[i]);
    if out.at.Some? {
      var r := Region(|after| - 1, out.at.value, needed);
      NewRegion(chunks, needed, out);
      forall i | 0 <= i < |regions|
        ensures Apart(regions[i], r)
      {
        assert Inside(chunks, regions[i]);
      }
    }
  }

  /** No cursor moves back, no capacity changes, and all cursors stay inside. */
  lemma ExtendedChunks(chunks: seq<Chunk>, needed: u64, out: Outcome)
    requires |chunks| > 0 && forall i | 0 <= i < |chunks| :: Sound(chunks[i])
    requires Shaped(chunks[|chunks| - 1], needed, out) && GoodSizes(Extend(chunks, out))
    ensures var after := Extend(chunks, out);
            && (forall i | 0 <= i < |after| :: Sound(after[i]))
            && (forall i | 0 <= i < |chunks| :: chunks[i].off <= after[i].off && after[i].cap == chunks[i].cap)
  {
    hide RoundUp;
    var n := |chunks| - 1;
    var after, last := Extend(chunks, out), chunks[|chunks| - 1];
    assert after[n] == out.chunks[0];
    assert forall i | n <= i < |after| :: after[i] == out.chunks[i - n];
    BumpStaysInside(last, needed);
    if |out.chunks| > 1 {
      var end := out.chunks[|out.chunks| - 1];
      assert after[|after| - 1] == end;
      BumpStaysInside(Chunk(end.cap, 0), needed);
    }
  }

  /** The new region starts where the cursor was and ends before it now is. */
  lemma NewRegion(chunks: seq<Chunk>, needed: u64, out: Outcome)
    requires |chunks| > 0 && (forall i | 0 <= i < |chunks| :: Sound(chunks[i])) && needed <= MAX_ROUNDED
    requires Shaped(chunks[|chunks| - 1], needed, out) && GoodSizes(Extend(chunks, out)) && out.at.Some?
    ensures var after := Extend(chunks, out);
            && Inside(after, Region(|after| - 1, out.at.value, needed))
            && (|after| == |chunks| ==> out.at.value == chunks[|chunks| - 1].off)
  {
    hide RoundUp;
    var after := Extend(chunks, out);
    ExtendedChunks(chunks, needed, out);
    StepCoversRequest(needed);
    assert after[|after| - 1] == out.chunks[|out.chunks| - 1];
  }

  /** Two allocations in a row share no byte exactly when the first is at most 2^32 - 4 bytes. */
  lemma ConsecutiveApartIff(c: Chunk, first: u64, second: u64)
    requires first > 0 && second > 0 && first < Room(c) && second < Room(Bump(c, first))
    ensures Apart(Region(0, c.off, first), Region(0, Bump(c, first).off, second)) <==> first <= MAX_ROUNDED
  {
    hide RoundUp;
    StepCoversRequest(first);
  }

  /** One request of a run, with what the backing allocator can still give when it is made. */
  datatype Request = Request(needed: u64, budget: nat)

  datatype Heap = Heap(chunks: seq<Chunk>, regions: seq<Region>)

  function Serve(h: Heap, q: Request): (r: Heap)
    requires |h.chunks| > 0
    ensures |r.chunks| > 0
  {
    var out := Allocate(h.chunks[|h.chunks| - 1], q.needed, q.budget);
    var after := Extend(h.chunks, out);
    Heap(after, Record(h.regions, after, out, q.needed))
  }

  function ServeAll(h: Heap, requests: seq<Request>): (r: Heap)
    requires |h.chunks| > 0
    ensures |r.chunks| > 0
  {
    if requests == [] then h else Serve(ServeAll(h, requests[..|requests| - 1]), requests[|requests| - 1])
  }

  /** The chunk that request i of a run finds as the current one. */
  function Current(h: Heap, requests: seq<Request>, i: nat): Chunk
    requires |h.chunks| > 0 && i <= |requests|
  {
    var chunks := ServeAll(h, requests[..i]).chunks;
    chunks[|chunks| - 1]
  }

  /** Each request of a run, looked at before it is made, keeps the chunk sizes good. */
  ghost predicate KeepsSizes(h: Heap, requests: seq<Request>)
    requires |h.chunks| > 0
  {
    forall i | 0 <= i < |requests| :: StaysGood(Current(h, requests, i), requests[i].needed, requests[i].budget)
  }

  ghost predicate Small(requests: seq<Request>)
  {
    forall i | 0 <= i < |requests| :: requests[i].needed <= MAX_ROUNDED
  }

  function Start(size: u64): Heap { Heap([Chunk(size, 0)], []) }

  lemma FrontKeepsSizes(h: Heap, requests: seq<Request>)
    requires |h.chunks| > 0 && requests != []
    ensures var n := |requests| - 1;
            KeepsSizes(h, requests) <==>
            KeepsSizes(h, requests[..n]) && StaysGood(Current(h, requests, n), requests[n].needed, requests[n].budget)
  {
    hide StaysGood, ServeAll;
    var front := requests[..|requests| - 1];
    assert forall i | 0 <= i < |front| :: front[..i] == requests[..i];
    assert forall i | 0 <= i < |front| :: Current(h, front, i) == Current(h, requests, i);
  }

  /** Over any run the chunk sizes are good exactly when the first is and every request keeps them so. */
  lemma {:induction false} RunSizesGoodIff(size: u64, requests: seq<Request>)
    ensures GoodSizes(ServeAll(Start(size), requests).chunks) <==> size % 4 <= 1 && KeepsSizes(Start(size), requests)
  {
    if requests == [] {
      assert ServeAll(Start(size), requests).chunks[0].cap == size;
    } else {
      hide KeepsSizes, StaysGood, GoodSizes, Allocate, Extend;
      var front, q := requests[..|requests| - 1], requests[|requests| - 1];
      RunSizesGoodIff(size, front);
      FrontKeepsSizes(Start(size), requests);
      SizesStayGoodIff(ServeAll(Start(size), front).chunks, q.needed, q.budget);
    }
  }

  /** Over any run whose requests keep the chunk sizes good, all regions stay in bounds, aligned and apart. */
  lemma {:induction false} RunIsTidy(size: u64, requests: seq<Request>)
    requires size <= LONG_MAX && size % 4 <= 1 && Small(requests) && KeepsSizes(Start(size), requests)
    ensures var h := ServeAll(Start(size), requests); Tidy(h.chunks, h.regions) && GoodSizes(h.chunks)
  {
    if requests == [] {
      assert Tidy(Start(size).chunks, Start(size).regions);
    } else {
      var front, q := requests[..|requests| - 1], requests[|requests| - 1];
      FrontKeepsSizes(Start(size), requests);
      RunIsTidy(size, front);
      var h := ServeAll(Start(size), front);
      AllocateKeepsTidy(h.chunks, h.regions, q.needed, q.budget);
      hide Tidy, GoodSizes, Allocate, KeepsSizes;
    }
  }
}
