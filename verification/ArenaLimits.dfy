/**
 Where the arena's promises end: for which start sizes some run of requests is
 handed bytes outside its chunk, and how many chunks a run can make.
 */
module ArenaLimits {
  import opened Wrappers
  import opened Words
  import opened Arena
  import opened ArenaRuns

  // ---------- runs that leave a chunk ----------

  /** A region with a byte behind the end of its chunk. */
  ghost predicate Outside(chunks: seq<Chunk>, r: Region)
  {
    r.chunk < |chunks| && r.len > 0 && r.off + r.len > chunks[r.chunk].cap
  }

  ghost predicate OutOfBounds(h: Heap)
  {
    exists i :: 0 <= i < |h.regions| && Outside(h.chunks, h.regions[i])
  }

  lemma TidyIsInBounds(h: Heap)
    requires Tidy(h.chunks, h.regions)
    ensures !OutOfBounds(h)
  {
    assert forall i | 0 <= i < |h.regions| :: Inside(h.chunks, h.regions[i]);
  }

  /** A run of small requests that breaks the bounds. */
  ghost predicate Breaks(size: u64, requests: seq<Request>)
  {
    Small(requests) && OutOfBounds(ServeAll(Start(size), requests))
  }

  function Last(h: Heap): Chunk
    requires |h.chunks| > 0
  {
    h.chunks[|h.chunks| - 1]
  }

  lemma ServeHere(h: Heap, q: Request)
    requires |h.chunks| > 0 && q.needed < Room(Last(h))
    ensures Last(Serve(h, q)) == Bump(Last(h), q.needed)
    ensures Serve(h, q).regions == h.regions + [Region(|h.chunks| - 1, Last(h).off, q.needed)]
    ensures |Serve(h, q).chunks| == |h.chunks|
  {
    hide RoundUp, Room, Bump;
    GrowsAtMostOnce(Last(h), q.needed, q.budget);
  }

  lemma {:induction false} ServeAllAppend(h: Heap, first: seq<Request>, second: seq<Request>)
    requires |h.chunks| > 0
    ensures ServeAll(h, first + second) == ServeAll(ServeAll(h, first), second)
  {
    hide Serve;
    if second == [] {
      assert first + second == first;
    } else {
      var all, n := first + second, |second| - 1;
      ServeAllAppend(h, first, second[..n]);
      assert all[..|all| - 1] == first + second[..n];
    }
  }

  lemma ServeOne(h: Heap, q: Request)
    requires |h.chunks| > 0
    ensures ServeAll(h, [q]) == Serve(h, q)
  {
    assert [q][..0] == [];
  }

  /** n requests of four bytes. */
  function FourByteRequests(n: nat): (s: seq<Request>)
    ensures |s| == n && Small(s)
  {
    if n == 0 then [] else FourByteRequests(n - 1) + [Request(4, 0)]
  }

  lemma {:induction false} FoursFill(h: Heap, n: nat)
    requires |h.chunks| > 0 && (n > 0 ==> Last(h).off + 4 * n < Last(h).cap)
    ensures var r := ServeAll(h, FourByteRequests(n)); Last(r) == Last(h).(off := Last(h).off + 4 * n)
  {
    hide RoundUp, Bump, Serve;
    if n > 0 {
      FoursFill(h, n - 1);
      assert FourByteRequests(n)[..n - 1] == FourByteRequests(n - 1);
      SmallSteps();
      var filled := ServeAll(h, FourByteRequests(n - 1));
      var c := Last(filled);
      assert c.off + 4 < c.cap;
      BumpMoves(c.cap, c.off, 4);
      hide Room, ServeAll;
      ServeHere(filled, Request(4, 0));
    }
  }

  /** One byte more, where there is room for it. */
  lemma OneByte(h: Heap)
    requires |h.chunks| > 0 && Last(h).off < Last(h).cap - 1
    ensures var r := ServeAll(h, [Request(1, 0)]); Last(r) == Last(h).(off := Last(h).off + 4)
  {
    hide RoundUp, Bump, Serve;
    ServeOne(h, Request(1, 0));
    SmallSteps();
    BumpMoves(Last(h).cap, Last(h).off, 1);
    ServeHere(h, Request(1, 0));
  }

  /** Once the cursor has passed the end, the next byte handed out is outside. */
  lemma PastEnd(h: Heap)
    requires |h.chunks| > 0 && Last(h).cap < Last(h).off < Last(h).cap + 4
    ensures OutOfBounds(ServeAll(h, [Request(1, 0)]))
  {
    hide RoundUp, Serve;
    ServeOne(h, Request(1, 0));
    var c, r := Last(h), Serve(h, Request(1, 0));
    assert Room(c) == M64 + c.cap - c.off;
    ServeHere(h, Request(1, 0));
    assert Outside(r.chunks, r.regions[|r.regions| - 1]);
  }

  /** A current chunk of size 2 or 3 modulo 4 is filled, overshot and left. */
  lemma BreakBadChunk(h: Heap) returns (run: seq<Request>)
    requires |h.chunks| > 0
    requires Last(h).cap % 4 >= 2 && Last(h).off % 4 == 0 && Last(h).off < Last(h).cap + 4
    ensures Small(run) && OutOfBounds(ServeAll(h, run))
  {
    hide ServeAll;
    var c := Last(h);
    if c.off > c.cap {
      run := [Request(1, 0)];
      PastEnd(h);
    } else {
      var n := (c.cap - c.off) / 4;
      var filled := ServeAll(h, FourByteRequests(n));
      FoursFill(h, n);
      OneByte(filled);
      PastEnd(ServeAll(filled, [Request(1, 0)]));
      ServeAllAppend(filled, [Request(1, 0)], [Request(1, 0)]);
      run := FourByteRequests(n) + ([Request(1, 0)] + [Request(1, 0)]);
      ServeAllAppend(h, FourByteRequests(n), [Request(1, 0)] + [Request(1, 0)]);
    }
  }

  /** A good chunk is filled until its size modulo 4 is all the room left. */
  lemma FillGood(size: u64) returns (run: seq<Request>)
    requires size % 4 <= 1 && size >= 1
    ensures Small(run) && Last(ServeAll(Start(size), run)) == Chunk(size, size - size % 4)
  {
    hide ServeAll;
    var n := (size - 1) / 4;
    run := FourByteRequests(n);
    StartIsLast(size);
    FoursFill(Start(size), n);
    if size % 4 == 0 {
      OneByte(ServeAll(Start(size), run));
      ServeAllAppend(Start(size), run, [Request(1, 0)]);
      run := run + [Request(1, 0)];
    }
  }

  lemma StartIsLast(size: u64)
    ensures Last(Start(size)) == Chunk(size, 0)
  {
  }

  /** A request that links a chunk of size 2 modulo 4 and is served there. */
  lemma GrowBad(h: Heap, n: nat)
    requires |h.chunks| > 0 && n <= 4 && Room(Last(h)) <= n
    requires var sum := Last(h).cap + Last(h).cap / 2 + n; n < sum < LONG_MAX && sum % 4 == 2
    ensures var d := Last(ServeAll(h, [Request(n, 2)])); d.cap % 4 == 2 && d.off % 4 == 0 && d.off < d.cap + 4
  {
    hide RoundUp, Allocate, Bump, Serve;
    ServeOne(h, Request(n, 2));
    ServeIsLast(h, Request(n, 2));
    GrownChunk(Last(h), n);
  }

  lemma ServeIsLast(h: Heap, q: Request)
    requires |h.chunks| > 0
    ensures var chunks := Allocate(Last(h), q.needed, q.budget).chunks; Last(Serve(h, q)) == chunks[|chunks| - 1]
  {
    hide Allocate;
  }

  lemma GrownChunk(c: Chunk, n: nat)
    requires n <= 4 && Room(c) <= n && n < c.cap + c.cap / 2 + n < LONG_MAX
    ensures var chunks := Allocate(c, n, 2).chunks;
            var d := chunks[|chunks| - 1];
            d.cap == c.cap + c.cap / 2 + n && d.off % 4 == 0 && d.off < d.cap + 4
  {
    hide Allocate, Grown, Room, Bump;
    EnoughIff(c.cap, n);
    GrowsOnce(c, n, 2);
    BumpOffset(Chunk(Grown(c.cap, n), 0), n);
  }

  /** One new chunk, and the region at its start. */
  lemma GrowsOnce(c: Chunk, needed: u64, budget: nat)
    requires Grows(c, needed, budget) && needed < Grown(c.cap, needed)
    ensures Allocate(c, needed, budget) ==
            Outcome([c, Bump(Chunk(Grown(c.cap, needed), 0), needed)], Some(0))
  {
    hide Grown, Room, Bump;
    var d := Chunk(Grown(c.cap, needed), 0);
    EmptyRoom(d);
    assert Allocate(d, needed, budget - 2) == Outcome([Bump(d, needed)], Some(0));
  }

  lemma BumpOffset(c: Chunk, needed: u64)
    requires c.off % 4 == 0
    ensures var d := Bump(c, needed);
            d.cap == c.cap && d.off % 4 == 0 && (needed <= MAX_ROUNDED ==> d.off < c.off + needed + 4)
  {
    hide RoundUp, Room;
    StepCoversRequest(needed);
    AddFours(c.off, RoundUp(needed));
  }

  lemma AddFours(a: nat, b: nat)
    requires a % 4 == 0 && b % 4 == 0
    ensures (a + b) % 4 == 0
  {
    DivUnique(a + b, 4, a / 4 + b / 4, 0);
  }

  /** A request that room is not left for and that makes the grown size 2 modulo 4. */
  lemma PickNeeded(size: u64) returns (n: nat)
    requires size % 4 <= 1 && 1 <= size && size + size / 2 + size % 4 < LONG_MAX
    ensures size % 4 <= n <= 4
    ensures var sum := size + size / 2 + n; n < sum < LONG_MAX && sum % 4 == 2
  {
    var least := size + size / 2 + size % 4;
    var more := ToTwo(least);
    n := size % 4 + more;
  }

  /** The distance to the next number that is 2 modulo 4; LONG_MAX is 3 modulo 4, so it is not passed. */
  lemma ToTwo(least: nat) returns (more: nat)
    requires least < LONG_MAX
    ensures more <= 3 && least + more < LONG_MAX && (least + more) % 4 == 2
  {
    var q, r := least / 4, least % 4;
    if r == 3 {
      more := 3;
      DivUnique(least + 3, 4, q + 1, 2);
    } else {
      more := 2 - r;
      DivUnique(least + more, 4, q, 2);
    }
  }

  lemma RoomOfFilled(size: u64)
    ensures Room(Chunk(size, size - size % 4)) == size % 4
  {
  }

  /** Any arena that can grow at all can be made to grow to a chunk of bad size. */
  lemma BreakByGrowth(size: u64) returns (run: seq<Request>)
    requires size % 4 <= 1 && 1 <= size && size + size / 2 + size % 4 < LONG_MAX
    ensures Breaks(size, run)
  {
    hide ServeAll, Allocate, Bump;
    var n := PickNeeded(size);
    var fill := FillGood(size);
    var filled := ServeAll(Start(size), fill);
    RoomOfFilled(size);
    hide Room;
    GrowBad(filled, n);
    var grown := ServeAll(filled, [Request(n, 2)]);
    var rest := BreakBadChunk(grown);
    ServeAllAppend(filled, [Request(n, 2)], rest);
    ServeAllAppend(Start(size), fill, [Request(n, 2)] + rest);
    run := fill + ([Request(n, 2)] + rest);
  }

  /** The empty arena: one byte takes it to a chunk of two bytes. */
  lemma BreakEmpty() returns (run: seq<Request>)
    ensures Breaks(0, run)
  {
    hide ServeAll, RoundUp, Allocate;
    EmptyChunkGrowsTwice(1, 4);
    AllocateShape(Chunk(0, 0), 1, 4);
    SmallSteps();
    ServeOne(Start(0), Request(1, 4));
    StartIsLast(0);
    var grown := ServeAll(Start(0), [Request(1, 4)]);
    var rest := BreakBadChunk(grown);
    ServeAllAppend(Start(0), [Request(1, 4)], rest);
    run := [Request(1, 4)] + rest;
  }

  /** An arena that cannot grow only ever moves the cursor of its one chunk. */
  lemma {:induction false} NeverGrows(size: u64, requests: seq<Request>)
    requires size % 4 <= 1 && size <= LONG_MAX <= size + size / 2 + size % 4 && Small(requests)
    ensures var h := ServeAll(Start(size), requests);
            |h.chunks| == 1 && Last(h).cap == size && Sound(Last(h))
    ensures KeepsSizes(Start(size), requests)
  {
    if requests != [] {
      var n := |requests| - 1;
      var front, q := requests[..n], requests[n];
      NeverGrows(size, front);
      var h := ServeAll(Start(size), front);
      var c := Last(h);
      assert Current(Start(size), requests, n) == c;
      CannotGrow(c, q.needed, q.budget);
      BumpStaysInside(c, q.needed);
      FrontKeepsSizes(Start(size), requests);
      GrowsAtMostOnce(c, q.needed, q.budget);
      hide RoundUp, Allocate, KeepsSizes;
    }
  }

  lemma CannotGrow(c: Chunk, needed: u64, budget: nat)
    requires Sound(c) && c.cap <= LONG_MAX <= c.cap + c.cap / 2 + c.cap % 4 && needed <= MAX_ROUNDED
    ensures !Grows(c, needed, budget) && StaysGood(c, needed, budget)
  {
    EnoughIff(c.cap, needed);
  }

  /**
   The arena is safe for every run of requests up to 2^32 - 4 bytes exactly when its first chunk has a
   good size and it is so large that it can never grow.
   */
  lemma SafeForAllRunsIff(size: u64)
    requires size <= LONG_MAX
    ensures (forall requests :: !Breaks(size, requests)) <==>
            size % 4 <= 1 && size + size / 2 + size % 4 >= LONG_MAX
  {
    if size % 4 >= 2 {
      StartIsLast(size);
      var run := BreakBadChunk(Start(size));
      assert Breaks(size, run);
    } else if size == 0 {
      var run := BreakEmpty();
    } else if size + size / 2 + size % 4 < LONG_MAX {
      var run := BreakByGrowth(size);
    } else {
      forall requests
        ensures !Breaks(size, requests)
      {
        if Small(requests) {
          NeverGrows(size, requests);
          RunIsTidy(size, requests);
          TidyIsInBounds(ServeAll(Start(size), requests));
        }
      }
    }
  }

  // ---------- how many chunks a run makes ----------

  function Caps(chunks: seq<Chunk>): (caps: seq<nat>)
    ensures |caps| == |chunks|
    ensures forall i | 0 <= i < |chunks| :: caps[i] == chunks[i].cap
  {
    seq(|chunks|, i requires 0 <= i < |chunks| => chunks[i].cap)
  }

  /** Requests of at most 2^62 bytes: for these no sum wraps. */
  ghost predicate Moderate(requests: seq<Request>)
  {
    forall i | 0 <= i < |requests| :: requests[i].needed <= 0x4000_0000_0000_0000
  }

  lemma ServeExtends(h: Heap, q: Request)
    requires |h.chunks| > 0
    ensures Serve(h, q).chunks == Extend(h.chunks, Allocate(Last(h), q.needed, q.budget))
  {
    hide Allocate;
  }

  /** Over any run the capacities grow as in a growth chain, by the sizes of requests of the run. */
  lemma {:induction false} RunIsGrowthChain(size: u64, requests: seq<Request>) returns (needs: seq<nat>)
    requires 1 <= size <= LONG_MAX && Moderate(requests)
    ensures var caps := Caps(ServeAll(Start(size), requests).chunks);
            caps[0] == size && GrowthChain(caps, needs) && (forall x | x in caps :: 1 <= x <= LONG_MAX)
    ensures Last(ServeAll(Start(size), requests)).off % 4 == 0
  {
    if requests == [] {
      needs := [];
    } else {
      var front, q := requests[..|requests| - 1], requests[|requests| - 1];
      var before := RunIsGrowthChain(size, front);
      var h := ServeAll(Start(size), front);
      var c := Last(h);
      assert c.cap in Caps(h.chunks);
      OneLink(c, q.needed, q.budget);
      var out := Allocate(c, q.needed, q.budget);
      ServeExtends(h, q);
      hide Allocate, GrowthChain, Caps, Links, Serve;
      needs := if |out.chunks| == 1 then before else before + [q.needed];
      LinkExtends(h.chunks, before, out, q.needed);
      ServeIsLast(h, q);
    }
  }

  /** At most one chunk is linked, and its capacity is the grown one. */
  ghost predicate Links(c: Chunk, out: Outcome, needed: nat)
  {
    && 1 <= |out.chunks| <= 2 && out.chunks[0].cap == c.cap
    && (|out.chunks| == 2 ==> out.chunks[1].cap == c.cap + c.cap / 2 + needed < LONG_MAX)
    && (|out.chunks| == 2 ==> needed >= 1 || c.cap % 2 == 0)
    && out.chunks[|out.chunks| - 1].off % 4 == 0
  }

  /** A moderate request links at most one chunk. */
  lemma OneLink(c: Chunk, needed: u64, budget: nat)
    requires 1 <= c.cap <= LONG_MAX && needed <= 0x4000_0000_0000_0000 && c.off % 4 == 0
    ensures Links(c, Allocate(c, needed, budget), needed)
  {
    hide Allocate, Grown, Room, Bump;
    EnoughIff(c.cap, needed);
    GrowsAtMostOnce(c, needed, budget);
    BumpOffset(c, needed);
    if Grows(c, needed, budget) {
      GrowsOnce(c, needed, budget);
      BumpOffset(Chunk(Grown(c.cap, needed), 0), needed);
      if needed == 0 {
        NoRoom(c);
      }
    }
  }

  /** No room is left only in a chunk of a size divisible by four. */
  lemma NoRoom(c: Chunk)
    requires c.off % 4 == 0 && Room(c) == 0
    ensures c.cap % 4 == 0
  {
    var k := (c.cap - c.off) / M64;
    assert c.cap - c.off == M64 * k;
  }

  lemma LinkExtends(chunks: seq<Chunk>, before: seq<nat>, out: Outcome, needed: nat)
    requires |chunks| > 0 && |out.chunks| > 0 && GrowthChain(Caps(chunks), before)
    requires Links(chunks[|chunks| - 1], out, needed)
    ensures var caps := Caps(Extend(chunks, out));
            && GrowthChain(caps, if |out.chunks| == 1 then before else before + [needed])
            && caps == Caps(chunks) + if |out.chunks| == 1 then [] else [out.chunks[1].cap]
  {
    var after := Extend(chunks, out);
    assert forall i | 0 <= i < |chunks| - 1 :: after[i] == chunks[i];
    assert after[|chunks| - 1] == out.chunks[0];
    if |out.chunks| == 2 {
      assert after[|chunks|] == out.chunks[1];
    }
  }

  /** Over any run the number of chunks is logarithmic in the size of the last. */
  lemma ChunkCountIsLogarithmic(size: u64, requests: seq<Request>)
    requires 1 <= size <= LONG_MAX && Moderate(requests)
    ensures var chunks := ServeAll(Start(size), requests).chunks;
            var n := |chunks| - 1;
            Power(3, n) * size <= Pow2(n) * chunks[n].cap
  {
    hide ServeAll;
    var needs := RunIsGrowthChain(size, requests);
    CapacityGrows(Caps(ServeAll(Start(size), requests).chunks), needs);
  }

  /** 3^12 is more than 2^19, so 108 growths by one half would be a factor of more than 2^63. */
  lemma {:induction false} ThreesOverTwos(m: nat)
    ensures Power(3, 12 * m) >= Pow2(19 * m)
  {
    if m > 0 {
      ThreesOverTwos(m - 1);
      PowerAdds(12, 12 * (m - 1));
      Pow2Adds(19, 19 * (m - 1));
      TwelveAndNineteen();
      MulMono(Power(3, 12), Pow2(19), Power(3, 12 * (m - 1)), Pow2(19 * (m - 1)));
    }
  }

  lemma TwelveAndNineteen()
    ensures Power(3, 12) == 531441 && Pow2(19) == 524288
  {
    assert Power(3, 6) == 729 && Pow2(9) == 512;
    PowerAdds(6, 6);
    Pow2Adds(9, 10);
  }

  lemma Triples(a: nat, b: nat)
    ensures 3 * a * b == 3 * (a * b)
  {
  }

  lemma {:induction false} PowerAdds(i: nat, j: nat)
    ensures Power(3, i + j) == Power(3, i) * Power(3, j)
  {
    if i > 0 {
      PowerAdds(i - 1, j);
      Triples(Power(3, i - 1), Power(3, j));
      assert Power(3, i + j) == 3 * Power(3, i - 1 + j);
    }
  }

  lemma MulMono(a: nat, b: nat, c: nat, d: nat)
    requires a >= b && c >= d
    ensures a * c >= b * d
  {
    MulLe(a, d, c);
    MulLe(d, b, a);
  }

  /** No run of requests up to 2^62 bytes ever makes more than 108 chunks, whatever the start size. */
  lemma AtMost108Chunks(size: u64, requests: seq<Request>)
    requires 1 <= size <= LONG_MAX && Moderate(requests)
    ensures |ServeAll(Start(size), requests).chunks| <= 108
  {
    hide ServeAll, Power, Pow2;
    var chunks := ServeAll(Start(size), requests).chunks;
    var needs := RunIsGrowthChain(size, requests);
    if |chunks| > 108 {
      var caps := Caps(chunks);
      PrefixIsGrowthChain(caps, needs, 108);
      CapacityGrows(caps[..109], needs[..108]);
      ThreesOverTwos(9);
      Pow2Adds(108, 63);
      Pow2Of63();
      assert caps[108] in caps;
      TooLarge(Power(3, 108), Pow2(108), caps[0], caps[108]);
    }
  }

  lemma PrefixIsGrowthChain(caps: seq<nat>, needs: seq<nat>, n: nat)
    requires GrowthChain(caps, needs) && n <= |needs|
    ensures GrowthChain(caps[..n + 1], needs[..n])
  {
  }

  lemma TooLarge(p: nat, q: nat, a: nat, x: nat)
    requires a >= 1 && x <= LONG_MAX && q > 0 && p >= q * 0x8000_0000_0000_0000
    ensures p * a > q * x
  {
    MulLe(p, 1, a);
    MulLe(q, x + 1, 0x8000_0000_0000_0000);
    assert q * (x + 1) == q * x + q;
  }
}
