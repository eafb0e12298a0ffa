/**
 The arithmetic of the growing bump arena: a cursor moving through a chunk in
 steps of four bytes, and a new, larger chunk when the current one is full.
 All sizes are size_t values and wrap modulo 2^64.
 */
module Arena {
  import opened Wrappers
  import opened Words

  const LONG_MAX: nat := 0x7FFF_FFFF_FFFF_FFFF

  /** The largest request that rounding up does not shrink. */
  const MAX_ROUNDED: nat := 0xFFFF_FFFC

  /** `(needed + 3) & 0xfffffffc` */
  function RoundUp(needed: u64): nat
  {
    Band(Add64(needed, 3), 0xFFFF_FFFC)
  }

  lemma RoundUpValue(needed: u64)
    ensures RoundUp(needed) == Add64(needed, 3) % M32 / 4 * 4
  {
    var a := Add64(needed, 3);
    Pow2Values();
    BandFour(a, 0x3FFF_FFFF);
    BandMask(a / 4, 30);
    MaskedQuarter(a);
  }

  lemma MaskedQuarter(a: nat)
    ensures 4 * (a / 4 % 0x4000_0000) == a % M32 / 4 * 4
  {
    var q, r := a / 4 / 0x4000_0000, a / 4 % 0x4000_0000;
    assert a == M32 * q + (4 * r + a % 4);
    DivUnique(a, M32, q, 4 * r + a % 4);
  }

  lemma BandFour(a: nat, m: nat)
    ensures Band(a, 4 * m) == 4 * Band(a / 4, m)
  {
    assert Band(a, 4 * m) == 2 * Band(a / 2, 2 * m);
    assert Band(a / 2, 2 * m) == 2 * Band(a / 2 / 2, m);
  }

  /** The step covers the request exactly when the request is at most 2^32 - 4 bytes. */
  lemma StepCoversRequest(needed: u64)
    ensures RoundUp(needed) >= needed <==> needed <= 0xFFFF_FFFC
    ensures RoundUp(needed) % 4 == 0
    ensures needed <= 0xFFFF_FFFC ==> RoundUp(needed) < needed + 4
    ensures RoundUp(needed) <= 0xFFFF_FFFC
  {
    hide RoundUp;
    RoundUpValue(needed);
  }

  // ---------- one chunk ----------

  /** A chunk of `cap` bytes with the cursor `off` bytes from its start. */
  datatype Chunk = Chunk(cap: u64, off: nat)

  /** `(size_t)(dcm->e - dcm->n)`: a cursor past the end makes this huge. */
  function Room(c: Chunk): u64 { Sub64(c.cap, c.off) }

  /** The cursor after da_cloud_mem_alloc. */
  function Bump(c: Chunk, needed: u64): Chunk
  {
    if needed < Room(c) then c.(off := c.off + RoundUp(needed)) else c
  }

  function Bumps(c: Chunk, requests: seq<u64>): Chunk
  {
    if requests == [] then c else Bump(Bumps(c, requests[..|requests| - 1]), requests[|requests| - 1])
  }

  ghost predicate Sound(c: Chunk)
  {
    c.off <= c.cap && c.off % 4 == 0
  }

  lemma StepFits(room: nat, needed: nat, step: nat)
    requires room % 4 <= 1 && step % 4 == 0 && step < needed + 4 && needed < room
    ensures step <= room
  {
  }

  lemma RoomLeft(c: Chunk)
    requires Sound(c)
    ensures Room(c) == c.cap - c.off && Room(c) % 4 == c.cap % 4
  {
    assert c.off == 4 * (c.off / 4);
  }

  /** The check compares the unrounded size, the cursor moves by the rounded size. */
  lemma BumpStaysInside(c: Chunk, needed: u64)
    requires Sound(c) && c.cap % 4 <= 1
    ensures Sound(Bump(c, needed))
    ensures Bump(c, needed).cap == c.cap && Room(c) == c.cap - c.off
  {
    hide RoundUp, Room;
    StepCoversRequest(needed);
    RoomLeft(c);
    if needed < Room(c) {
      StepFits(c.cap - c.off, needed, RoundUp(needed));
    }
  }

  lemma {:induction false} BumpsStayInside(c: Chunk, requests: seq<u64>)
    requires Sound(c) && c.cap % 4 <= 1
    ensures Sound(Bumps(c, requests)) && Bumps(c, requests).cap == c.cap
  {
    hide Sound, Bump;
    if requests != [] {
      BumpsStayInside(c, requests[..|requests| - 1]);
      BumpStaysInside(Bumps(c, requests[..|requests| - 1]), requests[|requests| - 1]);
    }
  }

  lemma SmallSteps()
    ensures RoundUp(1) == 4 && RoundUp(4) == 4
  {
    hide RoundUp;
    RoundUpValue(1);
    RoundUpValue(4);
  }

  lemma BumpMoves(cap: u64, off: nat, needed: u64)
    requires off <= cap && needed < cap - off
    ensures Bump(Chunk(cap, off), needed) == Chunk(cap, off + RoundUp(needed))
  {
    hide RoundUp;
  }

  /** Four bytes at a time until less than four are left. */
  function Fours(n: nat): (s: seq<u64>)
    ensures |s| == n
  {
    if n == 0 then [] else Fours(n - 1) + [4]
  }

  lemma {:induction false} FoursFill(cap: u64, n: nat)
    requires cap % 4 >= 2 && n <= cap / 4
    ensures Bumps(Chunk(cap, 0), Fours(n)) == Chunk(cap, 4 * n)
  {
    hide RoundUp, Bump;
    if n > 0 {
      FoursFill(cap, n - 1);
      assert Fours(n)[..n - 1] == Fours(n - 1);
      SmallSteps();
      BumpMoves(cap, 4 * (n - 1), 4);
    }
  }

  /** A chunk whose size is 2 or 3 modulo 4: one more byte takes the cursor past the end. */
  lemma CursorOvershoots(cap: u64)
    requires cap % 4 >= 2
    ensures var c := Bumps(Chunk(cap, 0), Fours(cap / 4) + [1]); c.off > cap
  {
    hide RoundUp, Bump;
    FoursFill(cap, cap / 4);
    var all := Fours(cap / 4) + [1];
    assert all[..|all| - 1] == Fours(cap / 4);
    SmallSteps();
    BumpMoves(cap, 4 * (cap / 4), 1);
  }

  /** Once the cursor is past the end, nearly every request is met there: the chunk is never full again. */
  lemma PastTheEnd(c: Chunk, needed: u64, budget: nat)
    requires c.cap < c.off < c.cap + M64
    ensures needed < M64 - (c.off - c.cap) ==>
              Allocate(c, needed, budget) == Outcome([Chunk(c.cap, c.off + RoundUp(needed))], Some(c.off))
    ensures needed >= M64 - (c.off - c.cap) ==> Allocate(c, needed, budget).chunks[0] == c
  {
    hide RoundUp, Grown;
    RoomPastEnd(c);
  }

  lemma RoomPastEnd(c: Chunk)
    requires c.cap < c.off < c.cap + M64
    ensures Room(c) == M64 - (c.off - c.cap)
  {
  }

  /** The cursor never passes the end, whatever is requested, exactly for sizes 0 and 1 modulo 4. */
  lemma CursorStaysInsideIff(cap: u64)
    ensures (forall requests: seq<u64> :: Bumps(Chunk(cap, 0), requests).off <= cap) <==> cap % 4 <= 1
  {
    if cap % 4 <= 1 {
      forall requests: seq<u64>
        ensures Bumps(Chunk(cap, 0), requests).off <= cap
      {
        BumpsStayInside(Chunk(cap, 0), requests);
      }
    } else {
      CursorOvershoots(cap);
    }
  }

  // ---------- the chain ----------

  /** `a + (a / 2 + needed)` in size_t. */
  function Grown(a: u64, needed: u64): u64 { Add64(a, Add64(a / 2, needed)) }

  /** What the current chunk becomes, and where the region is: at `at` in the last chunk, if anywhere. */
  datatype Outcome = Outcome(chunks: seq<Chunk>, at: Option<nat>)

  /**
   da_cloud_membuf_alloc. The backing allocator can be asked `budget` more times;
   a new link takes one block for its header and one for its chunk.
   */
  function Allocate(c: Chunk, needed: u64, budget: nat): (r: Outcome)
    ensures |r.chunks| > 0
    decreases budget
  {
    if needed < Room(c) then Outcome([Bump(c, needed)], Some(c.off))
    else if Grown(c.cap, needed) >= LONG_MAX || budget < 2 then Outcome([c], None)
    else
      var r := Allocate(Chunk(Grown(c.cap, needed), 0), needed, budget - 2);
      Outcome([c] + r.chunks, r.at)
  }

  /** The current chunk is too small and a new one is linked. */
  predicate Grows(c: Chunk, needed: u64, budget: nat)
  {
    needed >= Room(c) && Grown(c.cap, needed) < LONG_MAX && budget >= 2
  }

  lemma EmptyRoom(c: Chunk)
    requires c.off == 0
    ensures Room(c) == c.cap
  {
  }

  /**
   What an allocation does to the chain. If the chain has to grow, one new chunk serves the request
   exactly when the grown size is more than the request.
   */
  lemma GrowsAtMostOnce(c: Chunk, needed: u64, budget: nat)
    ensures var r := Allocate(c, needed, budget);
            && (needed < Room(c) ==> r == Outcome([Bump(c, needed)], Some(c.off)))
            && (needed >= Room(c) && !Grows(c, needed, budget) ==> r == Outcome([c], None))
            && (Grows(c, needed, budget) ==>
                  && |r.chunks| >= 2 && r.chunks[0] == c && r.chunks[1].cap == Grown(c.cap, needed)
                  && (|r.chunks| == 2 && r.at == Some(0) <==> needed < Grown(c.cap, needed)))
  {
    hide RoundUp, Room, Grown;
    if Grows(c, needed, budget) {
      var d := Chunk(Grown(c.cap, needed), 0);
      EmptyRoom(d);
      var r := Allocate(d, needed, budget - 2);
      assert needed < d.cap ==> r == Outcome([Bump(d, needed)], Some(0));
      assert !(needed < d.cap) && |r.chunks| == 1 ==> r.at == None;
    }
  }

  /** The grown size is more than the request exactly for a chunk of at least one byte and a sum that does not wrap. */
  lemma EnoughIff(a: u64, needed: u64)
    requires a + a / 2 < M64
    ensures needed < Grown(a, needed) <==> a >= 1 && a + a / 2 + needed < M64
    ensures a + a / 2 + needed < M64 ==> Grown(a, needed) == a + a / 2 + needed
  {
    hide Add64;
    SumWraps(a / 2, needed);
    SumWraps(a, Add64(a / 2, needed));
  }

  /** A request that makes the sum wrap: chunks are linked, and none of them is large enough. */
  lemma WrappedRequest(budget: nat)
    requires budget >= 4
    ensures var r := Allocate(Chunk(4096, 0), M64 - 1, budget);
            && r.at == None && |r.chunks| >= 3
            && r.chunks[1] == Chunk(6143, 0) && r.chunks[2].cap == 9213
  {
    var c, d, needed: u64 := Chunk(4096, 0), Chunk(6143, 0), M64 - 1;
    GrowsAtMostOnce(d, needed, budget - 2);
    BeyondLimitNeverMet(c, needed, budget);
  }

  /** A sum that wraps may give the old size again: then chunks of that size are linked until no memory is left. */
  lemma {:induction false} WrapNeverEnds(a: u64, off: nat, budget: nat)
    requires 2 <= a < LONG_MAX && M64 - a / 2 >= Room(Chunk(a, off))
    ensures var r := Allocate(Chunk(a, off), M64 - a / 2, budget);
            r.at == None && |r.chunks| == budget / 2 + 1 && forall c | c in r.chunks :: c.cap == a
    decreases budget
  {
    if budget >= 2 {
      EmptyRoom(Chunk(a, 0));
      WrapNeverEnds(a, 0, budget - 2);
    }
  }

  /** A request of LONG_MAX bytes or more that is not met in the current chunk is not met in any new one. */
  lemma {:induction false} BeyondLimitNeverMet(c: Chunk, needed: u64, budget: nat)
    requires needed >= 0x7FFF_FFFF_FFFF_FFFF && needed >= Room(c)
    ensures Allocate(c, needed, budget).at == None
    decreases budget
  {
    if Grows(c, needed, budget) {
      BeyondLimitNeverMet(Chunk(Grown(c.cap, needed), 0), needed, budget - 2);
    }
  }

  /** A chunk of no bytes: the first new chunk has the size of the request and is never enough, the second may be. */
  lemma EmptyChunkGrowsTwice(needed: u64, budget: nat)
    requires needed >= 1
    ensures var r := Allocate(Chunk(0, 0), needed, budget);
            if needed >= 0x7FFF_FFFF_FFFF_FFFF || budget < 2 then r == Outcome([Chunk(0, 0)], None)
            else if Grown(needed, needed) >= 0x7FFF_FFFF_FFFF_FFFF || budget < 4
            then r == Outcome([Chunk(0, 0), Chunk(needed, 0)], None)
            else
              && |r.chunks| >= 3 && r.chunks[..2] == [Chunk(0, 0), Chunk(needed, 0)]
              && r.chunks[2].cap == Grown(needed, needed)
              && (|r.chunks| == 3 && r.at == Some(0) <==> needed + needed / 2 + needed < M64)
  {
    hide RoundUp;
    EnoughIff(0, needed);
    GrowsAtMostOnce(Chunk(0, 0), needed, budget);
    if Grows(Chunk(0, 0), needed, budget) {
      EnoughIff(needed, needed);
      GrowsAtMostOnce(Chunk(needed, 0), needed, budget - 2);
    }
  }

  function Empties(n: nat): (s: seq<Chunk>)
    ensures |s| == n + 1
  {
    if n == 0 then [Chunk(0, 0)] else [Chunk(0, 0)] + Empties(n - 1)
  }

  /** An empty request on an empty chunk is never met: it links empty chunks until the backing allocator fails. */
  lemma {:induction false} EmptyRequestNeverMet(budget: nat)
    ensures Allocate(Chunk(0, 0), 0, budget) == Outcome(Empties(budget / 2), None)
    decreases budget
  {
    if budget >= 2 {
      EmptyRequestNeverMet(budget - 2);
    }
  }

  // ---------- how many chunks there are ----------

  /** Capacities along a chain, each grown from the one before for a request, which is empty only if that is even. */
  ghost predicate GrowthChain(caps: seq<nat>, needs: seq<nat>)
  {
    && |caps| == |needs| + 1
    && (forall i | 0 <= i < |needs| :: caps[i + 1] == caps[i] + caps[i] / 2 + needs[i])
    && (forall i | 0 <= i < |needs| :: needs[i] >= 1 || caps[i] % 2 == 0)
  }

  /** n growths multiply the capacity by at least (3/2)^n. */
  lemma {:induction false} CapacityGrows(caps: seq<nat>, needs: seq<nat>)
    requires GrowthChain(caps, needs)
    ensures Power(3, |needs|) * caps[0] <= Pow2(|needs|) * caps[|needs|]
  {
    var n := |needs|;
    if n > 0 {
      CapacityGrows(caps[..n], needs[..n - 1]);
      ScaleStep(Power(3, n - 1), Pow2(n - 1), caps[0], caps[n - 1], caps[n]);
    }
  }

  lemma ScaleStep(p: nat, q: nat, a: nat, x: nat, y: nat)
    requires p * a <= q * x && 3 * x <= 2 * y
    ensures 3 * p * a <= 2 * q * y
  {
    MulLe(q, 3 * x, 2 * y);
    assert 3 * p * a == 3 * (p * a) && 2 * q * y == q * (2 * y) && 3 * (q * x) == q * (3 * x);
  }
}
