/**
 The arena as linked chunks in memory. The chain from the root ends at the
 current chunk, every method does to the chunks what the arithmetic of module
 Arena says, strings stay where and what they were, and freeing releases every
 block exactly once.
 */
module ArenaChain {
  import opened Wrappers
  import opened Words
  import opened Memory
  import opened Arena
  import opened ArenaRuns

  /** The backing allocator: how many more blocks it can give, and which blocks are live. */
  class Backing {
    var budget: nat
    ghost var live: set<object>

    constructor (budget: nat)
      ensures this.budget == budget && live == {}
    {
      this.budget := budget;
      live := {};
    }

    /** g_allocator.alloc: one block more is live, if there is memory for it. */
    method Take(ghost block: object) returns (ok: bool)
      requires block !in live
      modifies this
      ensures ok <==> old(budget) > 0
      ensures budget == if ok then old(budget) - 1 else old(budget)
      ensures live == if ok then old(live) + {block} else old(live)
    {
      ok := budget > 0;
      if ok {
        budget := budget - 1;
        live := live + {block};
      }
    }

    /** g_allocator.free: only live blocks may be freed, and only once. */
    method Free(ghost block: object)
      requires block in live
      modifies this`live
      ensures live == old(live) - {block}
    {
      live := live - {block};
    }
  }

  /** struct da_cloud_mem: `off` is `n` minus the start of the data, `cap` is `e` minus it. */
  class Mem {
    const cap: u64
    const data: array<u8>
    var off: nat

    constructor (needed: u64)
      ensures cap == needed && off == 0 && data.Length == needed && fresh(data)
    {
      cap := needed;
      data := new u8[needed];
      off := 0;
    }

    function View(): Chunk
      reads this
    {
      Chunk(cap, off)
    }

    /** da_cloud_mem_alloc */
    method Alloc(needed: u64) returns (at: Option<nat>)
      modifies this
      ensures View() == Bump(old(View()), needed)
      ensures at == if needed < Room(old(View())) then Some(old(off)) else None
    {
      hide RoundUp;
      at := None;
      if needed < Sub64(cap, off) {
        var n := RoundUp(needed);
        at := Some(off);
        off := off + n;
      }
    }
  }

  /** struct da_cloud_membuf */
  class MemBuf {
    const p: Mem
    var n: MemBuf?

    constructor (p: Mem)
      ensures this.p == p && n == null
    {
      this.p := p;
      n := null;
    }
  }

  /**
   da_cloud_membuf_create: the header block, then the chunk block; the header is freed if the chunk fails.
   The objects stand for the two blocks, which exist from the moment they are taken.
   */
  method Create(heap: Backing, needed: u64) returns (b: MemBuf?)
    requires needed <= LONG_MAX
    modifies heap
    ensures b != null <==> old(heap.budget) >= 2
    ensures b != null ==> fresh(b) && fresh(b.p) && fresh(b.p.data) && b.n == null
    ensures b != null ==> b.p.View() == Chunk(needed, 0) && b.p.data.Length == needed
    ensures b != null ==> heap.budget == old(heap.budget) - 2
    ensures heap.live == old(heap.live) + (if b == null then {} else {b, b.p})
  {
    var mem := new Mem(needed);
    var header := new MemBuf(mem);
    var ok := heap.Take(header);
    if !ok { return null; }
    ok := heap.Take(mem);
    if !ok {
      heap.Free(header);
      return null;
    }
    return header;
  }

  /** The blocks of a stretch of the chain: each link is a header block and a chunk block. */
  ghost function BlocksOf(links: seq<MemBuf>): set<object>
  {
    if links == [] then {} else {links[0], links[0].p} + BlocksOf(links[1..])
  }

  /** Growing by one chunk and then allocating is one allocation that grows. */
  lemma GrowThenAllocate(chunks: seq<Chunk>, c: Chunk, needed: u64, budget: nat)
    requires |chunks| > 0 && chunks[|chunks| - 1] == c
    requires needed >= Room(c) && Grown(c.cap, needed) < LONG_MAX && budget >= 2
    ensures var d := Chunk(Grown(c.cap, needed), 0);
            var rest, out := Allocate(d, needed, budget - 2), Allocate(c, needed, budget);
            out.at == rest.at && Extend(chunks + [d], rest) == Extend(chunks, out)
  {
    hide Room, Grown;
    assert chunks == chunks[..|chunks| - 1] + [c];
  }

  /** The current chunk serves the request, or nothing can. */
  lemma AllocateHere(chunks: seq<Chunk>, c: Chunk, needed: u64, budget: nat)
    requires |chunks| > 0 && chunks[|chunks| - 1] == c
    requires needed < Room(c) || Grown(c.cap, needed) >= LONG_MAX || budget < 2
    ensures var out := Allocate(c, needed, budget);
            && out.at == (if needed < Room(c) then Some(c.off) else None)
            && Extend(chunks, out) == chunks[..|chunks| - 1] + [Bump(c, needed)]
  {
    hide Room, Grown, RoundUp;
  }

  lemma LastOfExtend(chunks: seq<Chunk>, out: Outcome)
    requires |chunks| > 0 && |out.chunks| > 0
    ensures var after := Extend(chunks, out); after[|after| - 1] == out.chunks[|out.chunks| - 1]
  {
  }

  /** A region handed out is inside its chunk, unless the cursor of the current chunk has passed the end. */
  lemma RegionFits(c: Chunk, needed: u64, budget: nat)
    requires needed > 0
    ensures var out := Allocate(c, needed, budget);
            out.at.Some? ==> (out.at.value + needed <= out.chunks[|out.chunks| - 1].cap <==>
                              !(c.off > c.cap && needed < Room(c)))
  {
    hide RoundUp, Allocate;
    AllocateShape(c, needed, budget);
    GrowsAtMostOnce(c, needed, budget);
  }

  /** A string copied into the arena. */
  datatype Copied = Copied(chunk: nat, off: nat, bytes: seq<u8>)

  function RegionOf(c: Copied): Region { Region(c.chunk, c.off, |c.bytes|) }

  /** A string apart from the bytes overwritten stays. */
  lemma StringStays(before: seq<u8>, at: nat, src: seq<u8>, after: seq<u8>, c: Copied)
    requires at + |src| <= |before| && after == before[..at] + src + before[at + |src|..]
    requires c.off + |c.bytes| <= |before| && before[c.off..c.off + |c.bytes|] == c.bytes
    requires Apart(RegionOf(c), Region(c.chunk, at, |src|))
    ensures |after| == |before| && after[c.off..c.off + |c.bytes|] == c.bytes
  {
    assert after[c.off..c.off + |c.bytes|] == before[c.off..c.off + |c.bytes|];
  }

  /** What a user asks of the arena: memory, or memory with a string in it. */
  datatype Op = Obtain(needed: u64) | Copy(src: seq<u8>)

  predicate Sized(op: Op) { op.Copy? ==> |op.src| + 1 < M64 }

  function NeedOf(op: Op): u64
    requires Sized(op)
  {
    match op
    case Obtain(needed) => needed
    case Copy(src) => |src| + 1
  }

  /** The strings that operations have put into the arena, with their NULs. */
  function Texts(ops: seq<Op>, served: seq<Option<nat>>): seq<seq<u8>>
    requires |ops| == |served|
  {
    if ops == [] then []
    else
      var n := |ops| - 1;
      Texts(ops[..n], served[..n]) + if ops[n].Copy? && served[n].Some? then [ops[n].src + [0]] else []
  }

  lemma TextsStep(ops: seq<Op>, served: seq<Option<nat>>, op: Op, at: Option<nat>)
    requires |ops| == |served|
    ensures Texts(ops + [op], served + [at]) ==
            Texts(ops, served) + if op.Copy? && at.Some? then [op.src + [0]] else []
  {
    assert (ops + [op])[..|ops|] == ops && (served + [at])[..|ops|] == served;
  }

  function BytesIn(copies: seq<Copied>): (texts: seq<seq<u8>>)
    ensures |texts| == |copies| && forall i | 0 <= i < |copies| :: texts[i] == copies[i].bytes
  {
    seq(|copies|, i requires 0 <= i < |copies| => copies[i].bytes)
  }

  lemma {:induction false} BlocksOfAppend(a: seq<MemBuf>, b: seq<MemBuf>)
    ensures BlocksOf(a + b) == BlocksOf(a) + BlocksOf(b)
  {
    if a == [] {
      assert a + b == b;
    } else {
      BlocksOfAppend(a[1..], b);
      assert (a + b)[1..] == a[1..] + b;
    }
  }

  lemma OneLinkBlocks(b: MemBuf)
    ensures BlocksOf([b]) == {b, b.p}
  {
  }

  /** What a user of the arena holds: the root it frees, and the current chunk. */
  class Pool {
    var root: MemBuf
    var dcm: MemBuf
    ghost var chain: seq<MemBuf>
    ghost var regions: seq<Region>
    ghost var copies: seq<Copied>

    /** From the root the links visit the chain in order and end at the current chunk. */
    ghost predicate Linked()
      reads this`root, this`dcm, this`chain, chain
    {
      && |chain| > 0 && root == chain[0] && dcm == chain[|chain| - 1] && dcm.n == null
      && (forall i | 0 <= i < |chain| - 1 :: chain[i].n == chain[i + 1])
      && (forall i, j | 0 <= i < j < |chain| :: chain[i] != chain[j] && chain[i].p != chain[j].p)
      && (forall i, j | 0 <= i < j < |chain| :: chain[i].p.data != chain[j].p.data)
      && (forall i | 0 <= i < |chain| :: chain[i].p.data.Length == chain[i].p.cap)
    }

    ghost function Mems(): set<Mem>
      reads this`chain
    {
      set b | b in chain :: b.p
    }

    ghost function Datas(): set<array<u8>>
      reads this`chain
    {
      set b | b in chain :: b.p.data
    }

    ghost function Views(): (s: seq<Chunk>)
      reads this`chain, Mems()
      ensures |s| == |chain|
      ensures forall i | 0 <= i < |chain| :: s[i] == chain[i].p.View()
    {
      var links := chain;
      seq(|links|, i requires 0 <= i < |links| reads set b | b in links :: b.p => links[i].p.View())
    }

    /** Every string copied in is still there. */
    ghost predicate Intact()
      reads this`chain, this`regions, this`copies, Datas()
    {
      forall i | 0 <= i < |copies| :: Holds(copies[i])
    }

    /** An arena on a chunk just created. */
    constructor (first: MemBuf)
      requires first.n == null && first.p.data.Length == first.p.cap && first.p.off == 0
      ensures Linked() && Views() == [Chunk(first.p.cap, 0)] && regions == [] && copies == []
      ensures Intact() && chain == [first]
    {
      root, dcm, chain, regions, copies := first, first, [first], [], [];
    }

    /** A new chunk is linked behind the current one and becomes current. */
    method Link(b: MemBuf)
      requires Linked() && b.n == null && b !in chain && b.p !in Mems() && b.p.data !in Datas()
      requires b.p.data.Length == b.p.cap
      modifies this`dcm, this`chain, dcm`n
      ensures Linked() && chain == old(chain) + [b]
      ensures Views() == old(Views()) + [b.p.View()]
    {
      dcm.n := b;
      dcm := b;
      chain := chain + [b];
    }

    /** The attempt on the current chunk. */
    method AllocHere(needed: u64) returns (at: Option<nat>)
      requires Linked()
      modifies dcm.p
      ensures Linked()
      ensures Views() == old(Views())[..|chain| - 1] + [Bump(old(dcm.p.View()), needed)]
      ensures at == if needed < Room(old(dcm.p.View())) then Some(old(dcm.p.off)) else None
      ensures at.None? ==> Views() == old(Views()) && dcm.p.View() == old(dcm.p.View())
    {
      hide RoundUp;
      at := dcm.p.Alloc(needed);
      assert forall i | 0 <= i < |chain| - 1 :: chain[i].p.View() == old(chain[i].p.View());
    }

    /** A new chunk of the grown size, unless that is too large or the backing allocator fails. */
    method Grow(heap: Backing, needed: u64) returns (grown: bool)
      requires Linked()
      modifies this`dcm, this`chain, dcm`n, heap
      ensures Linked() && grown == (Grown(old(dcm.p.cap), needed) < LONG_MAX && old(heap.budget) >= 2)
      ensures !grown ==> chain == old(chain) && dcm == old(dcm) && Views() == old(Views())
      ensures !grown ==> heap.live == old(heap.live)
      ensures grown ==> heap.budget == old(heap.budget) - 2
      ensures grown ==> chain == old(chain) + [dcm] && fresh(dcm) && fresh(dcm.p) && fresh(dcm.p.data)
      ensures grown ==> Views() == old(Views()) + [Chunk(Grown(old(dcm.p.cap), needed), 0)]
      ensures grown ==> heap.live == old(heap.live) + {dcm, dcm.p}
    {
      grown := false;
      var newsize := Grown(dcm.p.cap, needed);
      if newsize >= LONG_MAX { return; }
      var b := Create(heap, newsize);
      if b == null { return; }
      Link(b);
      grown := true;
    }

    lemma DataLength()
      requires Linked()
      ensures dcm.p.data.Length == dcm.p.cap
    {
    }

    lemma LastView()
      requires Linked()
      ensures |chain| > 0 && dcm == chain[|chain| - 1] && Views()[|chain| - 1] == dcm.p.View()
    {
    }

    /** da_cloud_membuf_alloc */
    method Obtain(heap: Backing, needed: u64) returns (at: Option<nat>)
      requires Linked()
      modifies this`dcm, this`chain, dcm`n, dcm.p, heap
      ensures Linked() && Extended(heap, old(chain), old(heap.live))
      ensures forall i | |old(chain)| <= i < |chain| :: fresh(chain[i]) && fresh(chain[i].p) && fresh(chain[i].p.data)
      ensures var out := Allocate(old(dcm.p.View()), needed, old(heap.budget));
              at == out.at && Views() == Extend(old(Views()), out)
      decreases heap.budget, 1
    {
      hide RoundUp, Room, Grown, Allocate, Extend, Linked, Views, Mems;
      ghost var c, budget := dcm.p.View(), heap.budget;
      LastView();
      at := AllocHere(needed);
      if at.Some? {
        AllocateHere(old(Views()), c, needed, budget);
        assert BlocksOf(chain[|chain|..]) == {};
      } else {
        at := Retry(heap, needed);
      }
    }

    /** The chain has grown from `before`, and its new blocks are live beside the old ones. */
    ghost predicate Extended(heap: Backing, before: seq<MemBuf>, live: set<object>)
      reads this`chain, heap`live
    {
      before <= chain && heap.live == live + BlocksOf(chain[|before|..])
    }

    /** The current chunk is too small: link a larger one and try again. */
    method Retry(heap: Backing, needed: u64) returns (at: Option<nat>)
      requires Linked() && needed >= Room(dcm.p.View())
      modifies this`dcm, this`chain, dcm`n, heap
      ensures Linked() && Extended(heap, old(chain), old(heap.live))
      ensures forall i | |old(chain)| <= i < |chain| :: fresh(chain[i]) && fresh(chain[i].p) && fresh(chain[i].p.data)
      ensures var out := Allocate(old(dcm.p.View()), needed, old(heap.budget));
              at == out.at && Views() == Extend(old(Views()), out)
      decreases heap.budget, 0
    {
      hide RoundUp, Room, Grown, Allocate, Extend, Linked, Views, Mems;
      ghost var c, budget := dcm.p.View(), heap.budget;
      LastView();
      var grown := Grow(heap, needed);
      if !grown {
        AllocateHere(old(Views()), c, needed, budget);
        assert BlocksOf(chain[|chain|..]) == {};
        return None;
      }
      GrowThenAllocate(old(Views()), c, needed, budget);
      at := Obtain(heap, needed);
      assert chain[|old(chain)|..][1..] == chain[|old(chain)| + 1..];
    }

    // ---------- allocation with its bookkeeping ----------

    /** Before a call: all is tidy, and neither the request nor a chunk linked for it spoils that. */
    ghost predicate Ready(heap: Backing, needed: u64)
      reads this, dcm.p, Mems(), heap`budget
    {
      && Tidy(Views(), regions) && GoodSizes(Views())
      && needed <= MAX_ROUNDED && StaysGood(dcm.p.View(), needed, heap.budget)
    }

    /** da_cloud_membuf_alloc, recording the region. */
    method Alloc(heap: Backing, needed: u64) returns (at: Option<nat>)
      requires Linked()
      modifies this`dcm, this`chain, this`regions, dcm`n, dcm.p, heap
      ensures Linked() && Extended(heap, old(chain), old(heap.live))
      ensures forall i | |old(chain)| <= i < |chain| :: fresh(chain[i]) && fresh(chain[i].p) && fresh(chain[i].p.data)
      ensures var out := Allocate(old(dcm.p.View()), needed, old(heap.budget));
              && at == out.at && Views() == Extend(old(Views()), out)
              && regions == Record(old(regions), Views(), out, needed)
      ensures old(Ready(heap, needed)) ==> Tidy(Views(), regions) && GoodSizes(Views())
    {
      hide RoundUp, Room, Grown, Allocate, Extend, Linked, Views, Mems, Tidy, GoodSizes, StaysGood, BlocksOf;
      ghost var before, c, budget := Views(), dcm.p.View(), heap.budget;
      LastView();
      at := Obtain(heap, needed);
      LastView();
      if at.Some? {
        regions := regions + [Region(|chain| - 1, at.value, needed)];
      }
      if old(Ready(heap, needed)) {
        AllocateKeepsTidy(before, old(regions), needed, budget);
      }
    }

    /** A copied string: its region is recorded, and its bytes are there. */
    ghost predicate Holds(c: Copied)
      reads this`chain, this`regions, Datas()
    {
      && RegionOf(c) in regions
      && c.chunk < |chain| && c.off + |c.bytes| <= chain[c.chunk].p.data.Length
      && chain[c.chunk].p.data[c.off..c.off + |c.bytes|] == c.bytes
    }

    /** A new region leaves the strings alone, and in a tidy arena is apart from them. */
    method AllocApart(heap: Backing, needed: u64) returns (at: Option<nat>)
      requires Linked()
      modifies this`dcm, this`chain, this`regions, dcm`n, dcm.p, heap
      ensures Linked() && Extended(heap, old(chain), old(heap.live))
      ensures dcm == old(dcm) || fresh(dcm.p.data)
      ensures forall i | |old(chain)| <= i < |chain| :: fresh(chain[i]) && fresh(chain[i].p) && fresh(chain[i].p.data)
      ensures var out := Allocate(old(dcm.p.View()), needed, old(heap.budget));
              && at == out.at && Views() == Extend(old(Views()), out)
              && regions == Record(old(regions), Views(), out, needed)
      ensures old(Ready(heap, needed)) ==> Tidy(Views(), regions) && GoodSizes(Views())
      ensures old(Intact()) ==> Intact()
      ensures old(Intact()) && at.Some? && Tidy(Views(), regions) ==> Safe()
    {
      hide RoundUp, Room, Grown, Allocate, Extend, Linked, Views, Mems, Tidy, GoodSizes, Ready, BlocksOf;
      LastView();
      at := Alloc(heap, needed);
      LastView();
      if old(Intact()) {
        assert forall i | 0 <= i < |copies| :: old(Holds(copies[i]));
        assert forall i | 0 <= i < |copies| :: RegionOf(copies[i]) in old(regions);
        if at.Some? && Tidy(Views(), regions) {
          NewestIsApart(old(regions));
        }
      }
    }

    /**
     da_cloud_membuf_strdup. Only if the cursor of the current chunk has passed its end and the request is
     still served there, the region is not inside the chunk; the copy then leaves memory that is modelled.
     */
    method Strdup(heap: Backing, src: seq<u8>) returns (at: Option<nat>, inside: bool)
      requires Linked() && |src| + 1 < M64
      modifies this`dcm, this`chain, this`regions, this`copies, dcm`n, dcm.p, heap, Datas()
      ensures Linked() && Extended(heap, old(chain), old(heap.live))
      ensures forall i | |old(chain)| <= i < |chain| :: fresh(chain[i]) && fresh(chain[i].p) && fresh(chain[i].p.data)
      ensures var out := Allocate(old(dcm.p.View()), |src| + 1, old(heap.budget));
              && at == out.at && Views() == Extend(old(Views()), out)
              && regions == Record(old(regions), Views(), out, |src| + 1)
      ensures inside <==> !(old(dcm.p.off) > old(dcm.p.cap) && |src| + 1 < Room(old(dcm.p.View())))
      ensures copies == old(copies) + if at.Some? && inside then [Copied(|chain| - 1, at.value, src + [0])] else []
      ensures old(Ready(heap, |src| + 1) && Intact()) ==>
                inside && Tidy(Views(), regions) && GoodSizes(Views()) && Intact()
    {
      hide RoundUp, Room, Grown, Allocate, Extend, Linked, Views, Mems, Tidy, GoodSizes, Ready, BlocksOf, Intact, Safe;
      ghost var c, budget := dcm.p.View(), heap.budget;
      inside := !(dcm.p.off > dcm.p.cap && |src| + 1 < Room(dcm.p.View()));
      if Ready(heap, |src| + 1) {
        ReadyIsInside(heap, |src| + 1);
      }
      LastView();
      at := AllocApart(heap, |src| + 1);
      if at.None? || !inside {
        return;
      }
      LastView();
      LastOfExtend(old(Views()), Allocate(c, |src| + 1, budget));
      RegionFits(c, |src| + 1, budget);
      DataLength();
      Write(at.value, src + [0]);
    }

    lemma ReadyIsInside(heap: Backing, needed: u64)
      requires Linked() && Ready(heap, needed)
      ensures dcm.p.off <= dcm.p.cap
    {
      LastView();
      assert Sound(Views()[|chain| - 1]);
    }

    lemma NewestIsApart(before: seq<Region>)
      requires |regions| > 0 && before == regions[..|regions| - 1] && Tidy(Views(), regions)
      requires forall i | 0 <= i < |copies| :: RegionOf(copies[i]) in before
      ensures forall i | 0 <= i < |copies| :: ApartFromNewest(copies[i])
    {
    }

    /** The newest region shares no byte with the regions of the strings already there. */
    ghost predicate Safe()
      reads this`chain, this`regions, this`copies, Datas()
    {
      && Intact()
      && forall i | 0 <= i < |copies| :: ApartFromNewest(copies[i])
    }

    ghost predicate ApartFromNewest(c: Copied)
      reads this`regions
    {
      |regions| > 0 && Apart(RegionOf(c), regions[|regions| - 1])
    }

    /** The bytes go into the region just recorded, and into no other. */
    method Write(at: nat, bytes: seq<u8>)
      requires Linked() && at + |bytes| <= dcm.p.data.Length
      requires |regions| > 0 && regions[|regions| - 1] == Region(|chain| - 1, at, |bytes|)
      modifies this`copies, dcm.p.data
      ensures copies == old(copies) + [Copied(|chain| - 1, at, bytes)]
      ensures old(Safe()) ==> Intact()
    {
      var data := dcm.p.data;
      CopyInto(data, at, bytes);
      copies := copies + [Copied(|chain| - 1, at, bytes)];
      assert data[at..at + |bytes|] == bytes;
      if old(Safe()) {
        forall i | 0 <= i < |copies| - 1
          ensures Holds(copies[i])
        {
          var c := copies[i];
          assert old(Holds(c)) && old(ApartFromNewest(c));
          if c.chunk == |chain| - 1 {
            assert old(data[..])[c.off..c.off + |c.bytes|] == c.bytes;
            StringStays(old(data[..]), at, bytes, data[..], c);
            assert data[..][c.off..c.off + |c.bytes|] == data[c.off..c.off + |c.bytes|];
          }
        }
      }
    }

    // ---------- any request ----------

    /** The arena as a value. */
    ghost function AsHeap(): Heap
      reads this, Mems()
    {
      Heap(Views(), regions)
    }

    /** All regions in bounds, aligned and apart, all chunk sizes good, all strings there. */
    ghost predicate Kept()
      reads this, Mems(), Datas()
    {
      Tidy(Views(), regions) && GoodSizes(Views()) && Intact()
    }

    lemma NewIsKept(size: u64)
      requires Views() == [Chunk(size, 0)] && regions == [] && copies == []
      ensures AsHeap() == ServeAll(Start(size), [])
      ensures Careful(size, []) ==> Kept()
      ensures BytesIn(copies) == Texts([], [])
    {
      hide Views;
      assert Sound(Chunk(size, 0));
    }

    lemma KeptIsReady(heap: Backing, size: u64, requests: seq<Request>, needed: u64)
      requires Linked() && AsHeap() == ServeAll(Start(size), requests)
      ensures var chunks := ServeAll(Start(size), requests).chunks;
              Kept() && needed <= MAX_ROUNDED && StaysGood(chunks[|chunks| - 1], needed, heap.budget) ==>
                Ready(heap, needed) && Intact()
    {
      hide Linked, Views, ServeAll, StaysGood, Tidy, GoodSizes, Intact;
      LastView();
    }

    /** A request for memory: the arena as a value serves it, and the strings stay. */
    method ServeMemory(heap: Backing, needed: u64) returns (at: Option<nat>)
      requires Linked()
      modifies this`dcm, this`chain, this`regions, dcm`n, dcm.p, heap
      ensures Linked() && Extended(heap, old(chain), old(heap.live))
      ensures forall i | |old(chain)| <= i < |chain| :: fresh(chain[i]) && fresh(chain[i].p) && fresh(chain[i].p.data)
      ensures AsHeap() == ArenaRuns.Serve(old(AsHeap()), Request(needed, old(heap.budget)))
      ensures old(Ready(heap, needed) && Intact()) ==> Tidy(Views(), regions) && GoodSizes(Views()) && Intact()
    {
      hide RoundUp, Room, Grown, Allocate, Extend, Linked, Views, Mems, Tidy, GoodSizes, Ready, BlocksOf, Intact, Safe;
      LastView();
      at := AllocApart(heap, needed);
    }

    /** A request for memory with a string in it. */
    method ServeString(heap: Backing, src: seq<u8>) returns (at: Option<nat>)
      requires Linked() && |src| + 1 < M64
      modifies this`dcm, this`chain, this`regions, this`copies, dcm`n, dcm.p, heap, Datas()
      ensures Linked() && Extended(heap, old(chain), old(heap.live))
      ensures forall i | |old(chain)| <= i < |chain| :: fresh(chain[i]) && fresh(chain[i].p) && fresh(chain[i].p.data)
      ensures AsHeap() == ArenaRuns.Serve(old(AsHeap()), Request(|src| + 1, old(heap.budget)))
      ensures old(Ready(heap, |src| + 1) && Intact()) ==>
                && Tidy(Views(), regions) && GoodSizes(Views()) && Intact()
                && BytesIn(copies) == old(BytesIn(copies)) + if at.Some? then [src + [0]] else []
    {
      hide RoundUp, Room, Grown, Allocate, Extend, Linked, Views, Mems, Tidy, GoodSizes, Ready, BlocksOf, Intact, Safe;
      LastView();
      var inside;
      at, inside := Strdup(heap, src);
    }

    /** One request of either kind: the blocks of the chain are all that is live more than before. */
    method Serve(heap: Backing, op: Op) returns (at: Option<nat>)
      requires Linked() && Sized(op)
      modifies this`dcm, this`chain, this`regions, this`copies, dcm`n, dcm.p, heap, Datas()
      ensures Linked()
      ensures forall b | b in chain :: b in old(chain) || (fresh(b) && fresh(b.p) && fresh(b.p.data))
      ensures forall live | old(heap.live) == live + old(BlocksOf(chain)) :: heap.live == live + BlocksOf(chain)
      ensures AsHeap() == ArenaRuns.Serve(old(AsHeap()), Request(NeedOf(op), old(heap.budget)))
      ensures old(Ready(heap, NeedOf(op)) && Intact()) ==>
                && Kept()
                && BytesIn(copies) == old(BytesIn(copies)) + if op.Copy? && at.Some? then [op.src + [0]] else []
    {
      hide Linked, Mems, Views, Tidy, GoodSizes, Ready, BlocksOf, Intact, ArenaRuns.Serve, AsHeap, BytesIn;
      match op {
        case Obtain(needed) => at := ServeMemory(heap, needed);
        case Copy(src) => at := ServeString(heap, src);
      }
      ghost var before := old(chain);
      BlocksOfAppend(before, chain[|before|..]);
      assert chain == before + chain[|before|..];
    }

    // ---------- release ----------

    /** da_cloud_membuf_free: every chunk and every header of the chain is freed once, and nothing else. */
    method Free(heap: Backing)
      requires Linked() && BlocksOf(chain) <= heap.live
      modifies heap`live
      ensures heap.live == old(heap.live) - BlocksOf(chain)
    {
      hide BlocksOf;
      var h: MemBuf? := root;
      ghost var i := 0;
      assert chain[0..] == chain;
      while h != null
        invariant i <= |chain| && h == (if i < |chain| then chain[i] else null)
        invariant BlocksOf(chain[i..]) <= heap.live
        invariant heap.live - BlocksOf(chain[i..]) == old(heap.live) - BlocksOf(chain)
        decreases |chain| - i
      {
        var next := h.n;
        FreeFirst(heap.live, chain[i..]);
        assert chain[i..][1..] == chain[i + 1..];
        heap.Free(h.p);
        heap.Free(h);
        h := next;
        i := i + 1;
      }
      NoBlocks(chain[i..]);
    }
  }

  lemma NoBlocks(links: seq<MemBuf>)
    requires links == []
    ensures BlocksOf(links) == {}
  {
  }

  /** Freeing the two blocks of the first link leaves those of the others live. */
  lemma FreeFirst(live: set<object>, links: seq<MemBuf>)
    requires links != [] && BlocksOf(links) <= live
    requires forall i, j | 0 <= i < j < |links| :: links[i] != links[j] && links[i].p != links[j].p
    ensures links[0].p in live && links[0] in live - {links[0].p}
    ensures var left := live - {links[0].p} - {links[0]};
            BlocksOf(links[1..]) <= left && left - BlocksOf(links[1..]) == live - BlocksOf(links)
  {
    FirstApart(links);
  }

  // ---------- a whole life ----------

  /** What a caller can know before each request of a run: they are small, and the chunk sizes stay good. */
  ghost predicate Careful(size: u64, requests: seq<Request>)
  {
    size % 4 <= 1 && Small(requests) && KeepsSizes(Start(size), requests)
  }

  lemma CarefulStep(size: u64, requests: seq<Request>, q: Request)
    ensures ServeAll(Start(size), requests + [q]) == ArenaRuns.Serve(ServeAll(Start(size), requests), q)
    ensures var chunks := ServeAll(Start(size), requests).chunks;
            Careful(size, requests + [q]) ==>
              && Careful(size, requests) && q.needed <= MAX_ROUNDED
              && StaysGood(chunks[|chunks| - 1], q.needed, q.budget)
  {
    hide StaysGood, KeepsSizes, ArenaRuns.Serve;
    var all := requests + [q];
    assert all[..|requests|] == requests && all[|requests|] == q;
    FrontKeepsSizes(Start(size), all);
    if Small(all) {
      assert forall i | 0 <= i < |requests| :: requests[i] == all[i];
    }
  }

  /** The requests that operations were, each with what the backing allocator could give when it was made. */
  ghost predicate Made(ops: seq<Op>, requests: seq<Request>)
  {
    |requests| == |ops| && forall i | 0 <= i < |ops| :: Sized(ops[i]) && requests[i].needed == NeedOf(ops[i])
  }

  /**
   Created and used in any way: the arena is what the run on values gives, the new blocks are its chain,
   and after a careful run everything is in place and all strings put in are there, in order.
   */
  method Use(heap: Backing, size: u64, ops: seq<Op>)
    returns (pool: Pool?, served: seq<Option<nat>>, ghost requests: seq<Request>)
    requires size <= LONG_MAX && forall op | op in ops :: Sized(op)
    modifies heap
    ensures pool != null <==> old(heap.budget) >= 2
    ensures pool == null ==> served == [] && heap.live == old(heap.live)
    ensures pool != null ==>
              && fresh(pool) && pool.Linked() && |served| == |ops| && Made(ops, requests)
              && (forall b | b in pool.chain :: fresh(b) && fresh(b.p))
              && heap.live == old(heap.live) + BlocksOf(pool.chain)
              && pool.AsHeap() == ServeAll(Start(size), requests)
              && (Careful(size, requests) ==> pool.Kept() && BytesIn(pool.copies) == Texts(ops, served))
  {
    hide Pool.Linked, Pool.Kept, Pool.AsHeap, Pool.Ready, Pool.Intact, Pool.Views;
    hide BlocksOf, BytesIn, Texts, Careful, ServeAll, ArenaRuns.Serve, StaysGood, Tidy, GoodSizes;
    served, requests := [], [];
    var first := Create(heap, size);
    if first == null {
      return null, [], [];
    }
    pool := new Pool(first);
    OneLinkBlocks(first);
    pool.NewIsKept(size);
    assert ops[..0] == [];
    for i := 0 to |ops|
      invariant fresh(pool) && pool.Linked() && |served| == i && Made(ops[..i], requests)
      invariant forall b | b in pool.chain :: fresh(b) && fresh(b.p) && fresh(b.p.data)
      invariant heap.live == old(heap.live) + BlocksOf(pool.chain)
      invariant pool.AsHeap() == ServeAll(Start(size), requests)
      invariant Careful(size, requests) ==> pool.Kept() && BytesIn(pool.copies) == Texts(ops[..i], served)
    {
      ghost var q := Request(NeedOf(ops[i]), heap.budget);
      CarefulStep(size, requests, q);
      pool.LastView();
      pool.KeptIsReady(heap, size, requests, q.needed);
      var at := pool.Serve(heap, ops[i]);
      TextsStep(ops[..i], served, ops[i], at);
      assert ops[..i + 1] == ops[..i] + [ops[i]];
      served := served + [at];
      requests := requests + [q];
    }
    assert ops[..|ops|] == ops;
  }

  /** Created, used in any way, freed: the backing allocator has all its blocks back, and no other was touched. */
  method Life(heap: Backing, size: u64, ops: seq<Op>) returns (created: bool, served: seq<Option<nat>>)
    requires size <= LONG_MAX && forall op | op in ops :: Sized(op)
    modifies heap
    ensures heap.live == old(heap.live)
    ensures created == (old(heap.budget) >= 2) && |served| == if created then |ops| else 0
  {
    hide Pool.Linked, BlocksOf, Pool.Kept, Pool.AsHeap, ServeAll, Careful, Texts, BytesIn, Made;
    var pool;
    ghost var requests;
    pool, served, requests := Use(heap, size, ops);
    if pool == null {
      return false, [];
    }
    forall x | x in BlocksOf(pool.chain)
      ensures x !in old(heap.live)
    {
      InBlocks(pool.chain, x);
      var i :| 0 <= i < |pool.chain| && (x == pool.chain[i] || x == pool.chain[i].p);
      assert pool.chain[i] in pool.chain;
    }
    pool.Free(heap);
    created := true;
  }

  lemma {:induction false} InBlocks(links: seq<MemBuf>, x: object)
    requires x in BlocksOf(links)
    ensures exists i :: 0 <= i < |links| && (x == links[i] || x == links[i].p)
  {
    if x != links[0] && x != links[0].p {
      InBlocks(links[1..], x);
      var i :| 0 <= i < |links[1..]| && (x == links[1..][i] || x == links[1..][i].p);
      assert links[1..][i] == links[i + 1];
    }
  }

  /** The blocks of a link are not blocks of the links behind it. */
  lemma FirstApart(links: seq<MemBuf>)
    requires links != []
    requires forall i, j | 0 <= i < j < |links| :: links[i] != links[j] && links[i].p != links[j].p
    ensures links[0] !in BlocksOf(links[1..]) && links[0].p !in BlocksOf(links[1..])
  {
    if links[0] in BlocksOf(links[1..]) {
      InBlocks(links[1..], links[0]);
    }
    if links[0].p in BlocksOf(links[1..]) {
      InBlocks(links[1..], links[0].p);
    }
  }
}
