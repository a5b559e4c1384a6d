/** Specification of the kernel heap as a whole: the free list, the roving head, the blocks
    handed out, the break, and the physical frames still available. */
module HeapSpec {
  import opened HeapModel

  // A unit is one header: 8 bytes. A page holds 512 units, and the heap grows by at least 1024.
  // The numbers stand as literals where they divide.

  /** Units between `heap_start` (0xF0000000) and `heap_end` (0xF7FFF000). */
  const HEAP_UNITS := 0x7FFF * 512

  /** Free physical frames, page tables that the heap's address range has (its first `tables` slots of
      1024 pages), and the pages that are mapped, counted from the start of the heap. */
  datatype Pool = Pool(frames: nat, tables: nat, mapped: set<nat>)

  /** `hd` is the index of `free_headers_head`; `live` maps the header of each block in use to
      its size in units; `slack` holds the units of grown pages that no header describes. */
  datatype Heap = Heap(fl: seq<Block>, hd: nat, brk: nat, pool: Pool, live: map<nat, nat>, slack: set<nat>)

  ghost predicate InUse(live: map<nat, nat>, u: nat) {
    exists a :: a in live && Block(a, live[a]).Has(u)
  }

  /** Every unit between the start of the heap and the break is in exactly one free block, or in
      exactly one block in use, or is page slack. */
  ghost predicate Inv(h: Heap) {
    && Wf(h.fl) && h.hd < |h.fl|
    && 1 <= h.brk <= HEAP_UNITS + 1 && (h.brk - 1) % 512 == 0
    && (forall a :: a in h.live ==> h.live[a] >= 2 && Outside(h.fl, Block(a, h.live[a])))
    && (forall a, b {:trigger Block(a, h.live[a]).Apart(Block(b, h.live[b]))} ::
           a in h.live && b in h.live && a != b ==> Block(a, h.live[a]).Apart(Block(b, h.live[b])))
    && (forall u: nat :: Covers(h.fl, u) ==> 1 <= u < h.brk && u !in h.slack)
    && (forall u: nat :: InUse(h.live, u) ==> 1 <= u < h.brk && u !in h.slack)
    && (forall u: nat :: u in h.slack ==> 1 <= u < h.brk)
    && (forall u: nat :: 1 <= u < h.brk ==> Covers(h.fl, u) || InUse(h.live, u) || u in h.slack)
    && PoolOk(h.brk, h.pool)
  }

  /** Every mapped page has a table, and so has every page below the break but possibly the last. Nothing here
      depends on the number of free frames, which others may change at any time. */
  ghost predicate PoolOk(brk: nat, pool: Pool) {
    && Seamless(PageAt(brk), pool)
    && forall p {:trigger p in pool.mapped} :: p in pool.mapped ==> p / 1024 < pool.tables
  }

  predicate Seamless(page: nat, p: Pool) { page <= 1024 * p.tables + 1 }

  /** Every page below the break is mapped. */
  ghost predicate Intact(h: Heap) { Span(0, PageAt(h.brk)) <= h.pool.mapped }

  /** The state after `kernel_heap_module_init`, with `frames` physical frames free. */
  function Init(frames: nat): Heap {
    Heap([Block(0, 0)], 0, 1, Pool(frames, 0, {}), map[], {})
  }

  // ---------------------------------------------------------------- sizes

  /** Units of a block whose payload holds `size` bytes, header included. */
  function UnitsFor(size: nat): nat { (size + 7) / 8 + 1 }

  /** Units described by the header of a freshly grown chunk. */
  function ChunkUnits(n: nat): nat { if n < 1024 then 1024 else n }

  /** Pages mapped for that chunk. */
  function ChunkPages(n: nat): nat { (ChunkUnits(n) + 511) / 512 }

  // ---------------------------------------------------------------- operations

  predicate Between(lo: int, u: int, hi: int) { lo <= u < hi }

  function Span(lo: nat, hi: nat): set<nat> { set u: nat | lo <= u < hi && Between(lo, u, hi) }

  /** Slots of 1024 pages that the first `pages` pages touch. */
  function Slots(pages: nat): nat { (pages + 1023) / 1024 }

  /** Index of the page that starts at unit `brk`. */
  function PageAt(brk: nat): nat { if brk == 0 then 0 else (brk - 1) / 512 }

  /** The mapping loop, for `left` pages from page `page` on. A page takes a frame, and another one if its
      table is missing. If there is no frame for the table the page stays unmapped, its frame is lost
      and the loop goes on: it fails at the next page, or succeeds if there is none. */
  function MapRun(page: nat, left: nat, p: Pool): (bool, Pool)
    decreases left
  {
    if left == 0 then (true, p)
    else if p.frames == 0 then (false, p)
    else if page / 1024 < p.tables then MapRun(page + 1, left - 1, Pool(p.frames - 1, p.tables, p.mapped + {page}))
    else if p.frames == 1 then MapRun(page + 1, left - 1, p.(frames := 0))
    else MapRun(page + 1, left - 1, Pool(p.frames - 2, page / 1024 + 1, p.mapped + {page}))
  }

  predicate InRange(h: Heap, n: nat) { h.brk + 512 * ChunkPages(n) <= HEAP_UNITS + 1 }
  function Run(h: Heap, n: nat): (bool, Pool) { MapRun(PageAt(h.brk), ChunkPages(n), h.pool) }
  predicate CanGrow(h: Heap, n: nat) { InRange(h, n) && Run(h, n).0 }

  /** Growth maps whole pages at the break and frees one chunk into the list. */
  function Grow(h: Heap, n: nat): Heap
    requires |h.fl| >= 1 && h.fl[0].addr < h.brk
  {
    var brk' := h.brk + 512 * ChunkPages(n);
    h.(fl := Insert(h.fl, Block(h.brk, ChunkUnits(n))),
       hd := Place(h.fl, h.brk),
       brk := brk',
       pool := Run(h, n).1,
       slack := h.slack + Span(h.brk + ChunkUnits(n), brk'))
  }

  /** A growth that fails for want of frames has used up every frame there was. */
  function GrowFails(h: Heap, n: nat): Heap {
    if InRange(h, n) then h.(pool := Run(h, n).1) else h
  }

  /** Cut `n` units off the tail of free block `i`; the head moves to its predecessor. */
  function Allot(h: Heap, i: nat, n: nat): Heap
    requires 1 <= i < |h.fl| && n <= h.fl[i].units
  {
    h.(fl := Take(h.fl, i, n), hd := i - 1, live := h.live[Cut(h.fl, i, n).addr := n])
  }

  function Release(h: Heap, a: nat): Heap
    requires a in h.live && |h.fl| >= 1 && h.fl[0].addr < a
  {
    h.(fl := Insert(h.fl, Block(a, h.live[a])), hd := Place(h.fl, a), live := h.live - {a})
  }

  /** First index in `lo .. hi` whose block has `n` units, else `hi`. */
  function FirstFit(fl: seq<Block>, lo: nat, hi: nat, n: nat): (i: nat)
    requires lo <= hi <= |fl|
    ensures lo <= i <= hi
    ensures i < hi ==> fl[i].units >= n
    ensures forall j :: lo <= j < i ==> fl[j].units < n
    decreases hi - lo
  {
    if lo == hi || fl[lo].units >= n then lo else FirstFit(fl, lo + 1, hi, n)
  }

  /** The block the search reaches first: from behind the head round the ring back to the head. */
  function NextFit(fl: seq<Block>, hd: nat, n: nat): (i: nat)
    requires hd < |fl|
    ensures i < |fl| ==> fl[i].units >= n
    ensures i >= |fl| <==> forall j :: 0 <= j < |fl| ==> fl[j].units < n
  {
    var i := FirstFit(fl, hd + 1, |fl|, n);
    if i < |fl| then i
    else var j := FirstFit(fl, 0, hd + 1, n); if j <= hd then j else |fl|
  }

  /** Header address (0 for NULL) and number of growths of one request for `n` units. */
  datatype Result = Result(heap: Heap, header: nat, growths: nat)

  /** The last free block reaches the break, so a grown chunk will merge into it. */
  predicate ReachesBreak(h: Heap)
    requires |h.fl| >= 1
  {
    h.fl[|h.fl| - 1].End == h.brk
  }

  function AllotAt(h: Heap, i: nat, n: nat, growths: nat): Result
    requires 1 <= i < |h.fl| && n <= h.fl[i].units
  {
    Result(Allot(h, i, n), Cut(h.fl, i, n).addr, growths)
  }

  /** Index, after growth, of the free block that holds the new chunk. */
  function Target(h: Heap): nat
    requires |h.fl| >= 1
  {
    if ReachesBreak(h) then |h.fl| - 1 else |h.fl|
  }

  /** What `malloc` does for a block of `n` units, without its search loop. */
  function Malloc(h: Heap, n: nat): Result
    requires Inv(h) && n >= 2
  {
    var i := NextFit(h.fl, h.hd, n);
    if i < |h.fl| then AllotAt(h, i, n, 0)
    else if !CanGrow(h, n) then Result(GrowFails(h, n), 0, 0)
    else MallocGrown(h, n)
  }

  /** No block fits. The search resumes behind the old head; unless it meets the new chunk before
      the new head (the old last block), it grows a second time. */
  function MallocGrown(h: Heap, n: nat): Result
    requires Inv(h) && n >= 2 && CanGrow(h, n)
  {
    GrowInv(h, n);
    GrowFits(h, n);
    var h1 := Grow(h, n);
    if ReachesBreak(h) || h.hd == |h.fl| - 1 then AllotAt(h1, Target(h), n, 1)
    else if !CanGrow(h1, n) then Result(GrowFails(h1, n), 0, 1)
    else GrowAgain(h, n); AllotAt(Grow(h1, n), Target(h), n, 2)
  }

  // ---------------------------------------------------------------- invariant

  lemma InitInv(frames: nat)
    ensures Inv(Init(frames))
  {}

  lemma PageRound(n: nat)
    ensures ChunkUnits(n) <= 512 * ChunkPages(n) < ChunkUnits(n) + 512
  {}

  /** The grown chunk lies past every block, so it goes to the end of the list. */
  lemma GrowShape(h: Heap, n: nat)
    requires Inv(h)
    ensures Outside(h.fl, Block(h.brk, ChunkUnits(n)))
    ensures Place(h.fl, h.brk) == |h.fl| - 1
  {
    assert Covers(h.fl, h.brk) ==> false;
    var c := Block(h.brk, ChunkUnits(n));
    forall i | 0 <= i < |h.fl| ensures h.fl[i].End <= h.brk {
      if i > 0 {
        assert Before(h.fl[0], h.fl[i]);
        assert h.fl[i].Has(h.fl[i].End - 1);
        assert Covers(h.fl, h.fl[i].End - 1);
      }
    }
  }

  lemma GrowInv(h: Heap, n: nat)
    requires Inv(h) && CanGrow(h, n)
    ensures Inv(Grow(h, n))
  {
    ChunkInv(h, n);
    ReleaseInv(Chunk(h, n), h.brk);
    GrowIsRelease(h, n);
  }

  /** Growth leaves the other entries alone and makes the target large enough. */
  lemma GrowFits(h: Heap, n: nat)
    requires Inv(h)
    ensures var fl' := Grow(h, n).fl;
            && Place(h.fl, h.brk) == |h.fl| - 1
            && 1 <= Target(h) && |fl'| == Target(h) + 1 && fl'[Target(h)].units >= ChunkUnits(n)
            && forall i {:trigger fl'[i]} :: 0 <= i < Target(h) ==> fl'[i] == h.fl[i]
  {
    GrowShape(h, n);
  }

  /** The second growth of one request extends or follows the chunk of the first. */
  lemma GrowAgain(h: Heap, n: nat)
    requires Inv(h) && CanGrow(h, n)
    ensures var h1 := Grow(h, n);
            && |h1.fl| >= 1 && h1.fl[0].addr < h1.brk
            && Place(h1.fl, h1.brk) == Target(h)
            && Target(h) < |Grow(h1, n).fl| && Grow(h1, n).fl[Target(h)].units >= n
  {
    GrowInv(h, n);
    GrowFits(h, n);
    GrowFits(Grow(h, n), n);
  }

  lemma AllotInv(h: Heap, i: nat, n: nat)
    requires Inv(h) && 1 <= i < |h.fl| && 2 <= n <= h.fl[i].units
    ensures Inv(Allot(h, i, n)) && Cut(h.fl, i, n).addr !in h.live
  {
    var c := Cut(h.fl, i, n);
    var g := Allot(h, i, n);
    TakeWf(h.fl, i, n);
    CutOutside(h.fl, i, n);
    forall u: nat ensures Covers(g.fl, u) <==> Covers(h.fl, u) && !c.Has(u) { TakeCovers(h.fl, i, n, u); }
    assert Before(h.fl[0], h.fl[i]);
    forall a | a in h.live ensures Outside(g.fl, Block(a, h.live[a])) && c.Apart(Block(a, h.live[a])) {
      TakeOutside(h.fl, i, n, Block(a, h.live[a]));
    }
    forall u: nat | c.Has(u) ensures 1 <= u < h.brk && u !in h.slack { assert h.fl[i].Has(u) && Covers(h.fl, u); }
    forall u: nat ensures InUse(g.live, u) <==> InUse(h.live, u) || c.Has(u) { InUseAdd(h.live, c, u); }
  }

  lemma TakeOutside(fl: seq<Block>, i: nat, n: nat, b: Block)
    requires Wf(fl) && 1 <= i < |fl| && 1 <= n <= fl[i].units && Outside(fl, b)
    ensures Outside(Take(fl, i, n), b) && Cut(fl, i, n).Apart(b)
  {
    var r := Take(fl, i, n);
    assert fl[i].Apart(b);
    forall k | 0 <= k < |r| ensures r[k].Apart(b) {
      if k != i && fl[i].units != n { assert r[k] == fl[k]; }
    }
  }

  lemma InUseAdd(live: map<nat, nat>, c: Block, u: nat)
    requires c.addr !in live
    ensures InUse(live[c.addr := c.units], u) <==> InUse(live, u) || c.Has(u)
  {
    var live' := live[c.addr := c.units];
    if InUse(live, u) {
      var a :| a in live && Block(a, live[a]).Has(u);
      assert a in live' && live'[a] == live[a];
    }
    if c.Has(u) { assert c.addr in live' && Block(c.addr, live'[c.addr]).Has(u); }
  }

  lemma InUseRemove(live: map<nat, nat>, a: nat, u: nat)
    requires a in live
    ensures InUse(live, u) <==> InUse(live - {a}, u) || Block(a, live[a]).Has(u)
  {
    if InUse(live, u) && !Block(a, live[a]).Has(u) {
      var b :| b in live && Block(b, live[b]).Has(u);
      assert b in live - {a} && (live - {a})[b] == live[b];
    }
    if InUse(live - {a}, u) {
      var b :| b in live - {a} && Block(b, (live - {a})[b]).Has(u);
      assert b in live && Block(b, live[b]).Has(u);
    }
  }

  lemma ReleaseInv(h: Heap, a: nat)
    requires Inv(h) && a in h.live
    ensures Inv(Release(h, a))
  {
    var b := Block(a, h.live[a]);
    var g := Release(h, a);
    InsertWf(h.fl, b);
    forall u: nat ensures Covers(g.fl, u) <==> Covers(h.fl, u) || b.Has(u) { InsertCovers(h.fl, b, u); }
    forall c | c in g.live ensures Outside(g.fl, Block(c, g.live[c])) {
      StaysOutside(h.fl, b, Block(c, h.live[c]));
    }
    forall u: nat ensures InUse(h.live, u) <==> InUse(g.live, u) || b.Has(u) { InUseRemove(h.live, a, u); }
    forall u: nat | b.Has(u) ensures !InUse(g.live, u) {
      forall c | c in g.live ensures !Block(c, g.live[c]).Has(u) { assert b.Apart(Block(c, h.live[c])); }
    }
  }

  /** Growth is a release: the chunk is first a block in use at the old break, then freed. */
  function Chunk(h: Heap, n: nat): Heap {
    var brk' := h.brk + 512 * ChunkPages(n);
    h.(brk := brk',
       pool := Run(h, n).1,
       slack := h.slack + Span(h.brk + ChunkUnits(n), brk'),
       live := h.live[h.brk := ChunkUnits(n)])
  }

  lemma ChunkInv(h: Heap, n: nat)
    requires Inv(h) && CanGrow(h, n)
    ensures Inv(Chunk(h, n)) && h.brk !in h.live
  {
    var c := Block(h.brk, ChunkUnits(n));
    GrowShape(h, n);
    PageRound(n);
    RunPool(h, n);
    forall a | a in h.live ensures a != h.brk && c.Apart(Block(a, h.live[a])) {
      var b := Block(a, h.live[a]);
      assert b.Has(b.End - 1) && InUse(h.live, b.End - 1);
    }
    forall u: nat ensures InUse(Chunk(h, n).live, u) <==> InUse(h.live, u) || c.Has(u) { InUseAdd(h.live, c, u); }
  }

  lemma GrowIsRelease(h: Heap, n: nat)
    requires Inv(h) && h.brk !in h.live
    ensures Release(Chunk(h, n), h.brk) == Grow(h, n)
  {
    assert h.live[h.brk := ChunkUnits(n)] - {h.brk} == h.live;
  }

  // ---------------------------------------------------------------- frames and tables

  /** Frames for `n` pages from page `page` on, and for the tables they need beyond the first `tables`. */
  function Price(page: nat, n: nat, tables: nat): nat { n + NewTables(page + n, tables) }

  function NewTables(pages: nat, tables: nat): nat { if Slots(pages) <= tables then 0 else Slots(pages) - tables }

  /** The last page is the first of its slot, has no table, and the frame for that table is the only one
      that is missing. */
  predicate ShortByTable(page: nat, n: nat, p: Pool) {
    n > 0 && (page + n - 1) % 1024 == 0 && Slots(page + n) > p.tables && p.frames + 1 == Price(page, n, p.tables)
  }

  lemma NextSlot(x: nat)
    ensures Slots(x + 1) == Slots(x) + (if x % 1024 == 0 then 1 else 0)
    ensures Slots(x) == x / 1024 + (if x % 1024 == 0 then 0 else 1)
  {}

  lemma {:induction false} MoreSlots(x: nat, y: nat)
    requires x <= y
    ensures Slots(x) <= Slots(y)
  {}

  /** The pages before `page` have tables; the last of them may lack one when several pages follow. */
  predicate Ready(page: nat, n: nat, p: Pool) { page <= 1024 * p.tables + if n >= 2 then 1 else 0 }

  /** The loop succeeds if and only if there are frames for all pages and tables, or all but the one for
      the table of the last page; in that case the last page is not mapped. */
  lemma {:induction false} MapRunExact(page: nat, n: nat, p: Pool)
    requires Ready(page, n, p)
    ensures RunExact(page, n, p)
    decreases n
  {
    hide Slots, Span, RunExact;
    NextSlot(page);
    if n == 0 || p.frames == 0 || (page / 1024 >= p.tables && p.frames == 1) {
      RunStops(page, n, p);
    } else if page / 1024 < p.tables {
      MapRunExact(page + 1, n - 1, Pool(p.frames - 1, p.tables, p.mapped + {page}));
      RunPage(page, n, p);
    } else {
      MapRunExact(page + 1, n - 1, Pool(p.frames - 2, page / 1024 + 1, p.mapped + {page}));
      RunTable(page, n, p);
    }
  }

  ghost predicate RunExact(page: nat, n: nat, p: Pool) {
    var r := MapRun(page, n, p);
    var t := NewTables(page + n, p.tables);
    && (r.0 <==> Price(page, n, p.tables) <= p.frames || ShortByTable(page, n, p))
    && (Price(page, n, p.tables) <= p.frames ==>
          r.1 == Pool(p.frames - Price(page, n, p.tables), p.tables + t, p.mapped + Span(page, page + n)))
    && (ShortByTable(page, n, p) ==> r.1 == Pool(0, p.tables + t - 1, p.mapped + Span(page, page + n - 1)))
  }

  lemma {:induction false} RunStops(page: nat, n: nat, p: Pool)
    requires Ready(page, n, p)
    requires n == 0 || p.frames == 0 || (page / 1024 >= p.tables && p.frames == 1)
    ensures RunExact(page, n, p)
  {
    hide Slots, Span;
    SpanNone(page);
    NextSlot(page);
    if n > 0 { MoreSlots(page + 1, page + n); }
    assert n > 1 && p.frames == 1 ==> !MapRun(page + 1, n - 1, p.(frames := 0)).0;
  }

  lemma {:induction false} RunPage(page: nat, n: nat, p: Pool)
    requires n > 0 && p.frames > 0 && page / 1024 < p.tables
    requires RunExact(page + 1, n - 1, Pool(p.frames - 1, p.tables, p.mapped + {page}))
    ensures RunExact(page, n, p)
  {
    hide Slots, Span;
    NextSlot(page);
    SpanFirst(page, page + n);
    if n > 1 { SpanFirst(page, page + n - 1); }
  }

  lemma {:induction false} RunTable(page: nat, n: nat, p: Pool)
    requires n > 0 && p.frames > 1 && page / 1024 >= p.tables && Ready(page, n, p)
    requires RunExact(page + 1, n - 1, Pool(p.frames - 2, page / 1024 + 1, p.mapped + {page}))
    ensures RunExact(page, n, p)
  {
    hide Slots, Span;
    NextSlot(page);
    NextSlot(page + n - 1);
    MoreSlots(page + 1, page + n);
    SpanFirst(page, page + n);
    if n > 1 {
      MoreSlots(page + 1, page + n - 1);
      SpanFirst(page, page + n - 1);
    }
  }

  lemma SpanNone(lo: nat)
    ensures Span(lo, lo) == {}
  {}

  lemma SpanFirst(lo: nat, hi: nat)
    requires lo < hi
    ensures Span(lo, hi) == {lo} + Span(lo + 1, hi)
  {
    forall u: nat ensures u in Span(lo, hi) <==> u in {lo} + Span(lo + 1, hi) {
      assert Between(lo, u, hi) <==> lo <= u < hi;
    }
  }

  /** Whatever the outcome, tables only come to be and mapped pages have one. */
  lemma {:induction false} MapRunPool(page: nat, n: nat, p: Pool)
    requires Ready(page, n, p) && forall k {:trigger k in p.mapped} :: k in p.mapped ==> k / 1024 < p.tables
    ensures var r := MapRun(page, n, p);
            && r.1.tables >= p.tables && r.1.mapped >= p.mapped && (r.0 ==> Seamless(page + n, r.1))
               && (!r.0 ==> r.1.frames == 0)
            && forall k {:trigger k in r.1.mapped} :: k in r.1.mapped ==> k / 1024 < r.1.tables
    decreases n
  {
    hide Slots;
    if n > 0 && p.frames > 0 {
      NextSlot(page);
      if page / 1024 < p.tables {
        MapRunPool(page + 1, n - 1, Pool(p.frames - 1, p.tables, p.mapped + {page}));
      } else if p.frames > 1 {
        MapRunPool(page + 1, n - 1, Pool(p.frames - 2, page / 1024 + 1, p.mapped + {page}));
      }
    }
  }

  lemma RunPool(h: Heap, n: nat)
    requires Inv(h) && CanGrow(h, n)
    ensures PoolOk(h.brk + 512 * ChunkPages(n), Run(h, n).1)
    ensures PageAt(h.brk + 512 * ChunkPages(n)) == PageAt(h.brk) + ChunkPages(n)
  {
    MapRunPool(PageAt(h.brk), ChunkPages(n), h.pool);
  }

  // ---------------------------------------------------------------- main results

  /** `r` is the outcome of cutting a new block of `n` units out of heap `g`. */
  ghost predicate Served(g: Heap, n: nat, r: Result) {
    && Inv(r.heap) && r.header > 0 && r.header !in g.live
    && r.heap.live == g.live[r.header := n]
    && r.heap.brk == g.brk && r.heap.pool == g.pool && r.heap.slack == g.slack
  }

  lemma AllotAtServes(g: Heap, i: nat, n: nat, growths: nat)
    requires Inv(g) && 1 <= i < |g.fl| && 2 <= n <= g.fl[i].units
    ensures Served(g, n, AllotAt(g, i, n, growths))
  {
    AllotInv(g, i, n);
    assert Before(g.fl[0], g.fl[i]);
  }

  lemma GrowFailsInv(h: Heap, n: nat)
    requires Inv(h)
    ensures Inv(GrowFails(h, n))
  {
    MapRunPool(PageAt(h.brk), ChunkPages(n), h.pool);
  }

  /** `r` is a legal outcome of asking `g`, a heap that will not grow again, for `n` units. */
  ghost predicate Answered(g: Heap, n: nat, r: Result) {
    if r.header != 0 then Served(g, n, r) else Inv(r.heap) && r.heap == GrowFails(g, n) && !CanGrow(g, n)
  }

  /** Every request grows the heap at most twice and then either cuts exactly one new block of `n`
      units out of the grown heap, or leaves every block in use untouched and returns NULL. */
  lemma MallocServes(h: Heap, n: nat)
    requires Inv(h) && n >= 2
    ensures var r := Malloc(h, n);
            match r.growths
            case 0 => Answered(h, n, r)
            case 1 => CanGrow(h, n) && Answered(Grow(h, n), n, r)
            case 2 => CanGrow(h, n) && |Grow(h, n).fl| >= 1 && Grow(h, n).fl[0].addr < Grow(h, n).brk
                      && CanGrow(Grow(h, n), n) && Served(Grow(Grow(h, n), n), n, r)
            case _ => false
  {
    var i := NextFit(h.fl, h.hd, n);
    if i < |h.fl| {
      AllotAtServes(h, i, n, 0);
    } else if !CanGrow(h, n) {
      GrowFailsInv(h, n);
    } else {
      GrowInv(h, n);
      GrowFits(h, n);
      var h1 := Grow(h, n);
      if ReachesBreak(h) || h.hd == |h.fl| - 1 {
        AllotAtServes(h1, Target(h), n, 1);
      } else if !CanGrow(h1, n) {
        GrowFailsInv(h1, n);
      } else {
        GrowInv(h1, n);
        GrowAgain(h, n);
        AllotAtServes(Grow(h1, n), Target(h), n, 2);
      }
    }
  }

  /** NULL means that nothing was large enough on entry. With one growth behind it, it is returned
      although a large enough block is free by then: the search met the new head before the chunk. */
  lemma NullMeansNoFit(h: Heap, n: nat)
    requires Inv(h) && n >= 2
    ensures var r := Malloc(h, n);
            && (r.header == 0 ==> forall i :: 0 <= i < |h.fl| ==> h.fl[i].units < n)
            && (r.header == 0 && r.growths == 1 ==> exists i :: 0 <= i < |r.heap.fl| && r.heap.fl[i].units >= n)
  {
    MallocServes(h, n);
    if NextFit(h.fl, h.hd, n) >= |h.fl| && CanGrow(h, n) {
      GrowFits(h, n);
      assert Grow(h, n).fl[Target(h)].units >= n;
    }
  }

  /** Exactly when a request fails, in terms of the heap it is made on. */
  lemma NullIff(h: Heap, n: nat)
    requires Inv(h) && n >= 2
    ensures Malloc(h, n).header == 0 <==>
            && (forall i :: 0 <= i < |h.fl| ==> h.fl[i].units < n)
            && (!CanGrow(h, n) || (!ReachesBreak(h) && h.hd != |h.fl| - 1 && !CanGrow(Grow(h, n), n)))
  {
    MallocServes(h, n);
  }

  /** NULL beside a block that fits, exactly: nothing fits on entry, the ring makes the search pass the new chunk
      by, and the frames reach for one growth and not for two. */
  lemma NullBesideFitIff(h: Heap, n: nat)
    requires Inv(h) && n >= 2
    ensures var r := Malloc(h, n);
            r.header == 0 && (exists i :: 0 <= i < |r.heap.fl| && r.heap.fl[i].units >= n) <==>
              && (forall i :: 0 <= i < |h.fl| ==> h.fl[i].units < n)
              && !ReachesBreak(h) && h.hd != |h.fl| - 1 && CanGrow(h, n) && !CanGrow(Grow(h, n), n)
  {
    hide CanGrow, NextFit, Take, Insert, Wf;
    NullIff(h, n);
    NullMeansNoFit(h, n);
    MallocServes(h, n);
  }

  /** A growth moves the break over a page that is not mapped, since the missing frame for the table of
      the last page goes unnoticed. */
  predicate Overruns(h: Heap, n: nat) { InRange(h, n) && ShortByTable(PageAt(h.brk), ChunkPages(n), h.pool) }

  /** When a growth succeeds, in numbers of frames and tables. */
  lemma CanGrowExact(h: Heap, n: nat)
    requires Inv(h)
    ensures CanGrow(h, n) <==>
            InRange(h, n) && (Price(PageAt(h.brk), ChunkPages(n), h.pool.tables) <= h.pool.frames || Overruns(h, n))
  {
    MapRunExact(PageAt(h.brk), ChunkPages(n), h.pool);
  }

  lemma GrowIntact(h: Heap, n: nat)
    requires Inv(h) && CanGrow(h, n) && Intact(h) && |h.fl| >= 1 && h.fl[0].addr < h.brk
    ensures Intact(Grow(h, n)) <==> !Overruns(h, n)
  {
    hide Slots, Span, Inv, CanGrow, MapRun, Grow, Overruns, Run;
    var p, k := PageAt(h.brk), ChunkPages(n);
    CanGrowExact(h, n);
    RunMapped(h, n);
    RunPool(h, n);
    GrowParts(h, n);
    PageRound(n);
    SpanJoin(0, p, p + k);
    if Overruns(h, n) { LastMissing(h, n); }
  }

  /** The pages that a growth maps. */
  lemma RunMapped(h: Heap, n: nat)
    requires Inv(h) && CanGrow(h, n)
    ensures var p, k := PageAt(h.brk), ChunkPages(n);
            Run(h, n).1.mapped == h.pool.mapped + Span(p, if Overruns(h, n) then p + k - 1 else p + k)
  {
    hide Slots, Span;
    MapRunExact(PageAt(h.brk), ChunkPages(n), h.pool);
  }

  lemma LastMissing(h: Heap, n: nat)
    requires Inv(h) && Overruns(h, n)
    ensures PageAt(h.brk) + ChunkPages(n) - 1 !in h.pool.mapped
  {
    hide Slots;
    LastUnmapped(PageAt(h.brk), ChunkPages(n), h.pool);
  }

  lemma SpanJoin(lo: nat, mid: nat, hi: nat)
    requires lo <= mid <= hi
    ensures Span(lo, hi) == Span(lo, mid) + Span(mid, hi)
    ensures lo < hi ==> hi - 1 in Span(lo, hi) && hi - 1 !in Span(lo, hi - 1) && hi - 1 !in Span(mid, hi - 1)
  {
    forall u: nat ensures u in Span(lo, hi) <==> u in Span(lo, mid) + Span(mid, hi) {
      assert Between(lo, u, hi) <==> lo <= u < hi;
    }
    if lo < hi { assert Between(lo, hi - 1, hi); }
  }

  lemma LastUnmapped(page: nat, n: nat, p: Pool)
    requires ShortByTable(page, n, p) && forall k {:trigger k in p.mapped} :: k in p.mapped ==> k / 1024 < p.tables
    ensures page + n - 1 !in p.mapped
  {
    NextSlot(page + n - 1);
  }

  /** A request keeps every heap page mapped unless one of its growths overruns. */
  lemma MallocIntact(h: Heap, n: nat)
    requires Inv(h) && n >= 2 && Intact(h)
    ensures |h.fl| >= 1 && h.fl[0].addr < h.brk
    ensures var r := Malloc(h, n);
            Intact(r.heap) <==> !(r.growths >= 1 && Overruns(h, n)) && !(r.growths == 2 && Overruns(Grow(h, n), n))
  {
    hide Inv, Malloc, Grow, Answered, Overruns, CanGrow, Intact, Wf;
    BaseBelow(h);
    MallocServes(h, n);
    var r := Malloc(h, n);
    if r.growths == 0 {
      AnsweredIntact(h, n, r);
    } else {
      var g := Grow(h, n);
      GrowInv(h, n);
      GrowIntact(h, n);
      if Overruns(h, n) { OverrunEmpties(h, n); }
      if r.growths == 1 {
        AnsweredIntact(g, n, r);
      } else {
        GrowIntact(g, n);
        ServedIntact(Grow(g, n), n, r);
      }
    }
  }

  lemma ServedIntact(g: Heap, n: nat, r: Result)
    requires Served(g, n, r)
    ensures Intact(r.heap) <==> Intact(g)
  {}

  lemma AnsweredIntact(g: Heap, n: nat, r: Result)
    requires Inv(g) && Answered(g, n, r)
    ensures Intact(g) ==> Intact(r.heap)
    ensures Intact(r.heap) && g.pool.frames == 0 ==> Intact(g)
  {
    hide Wf, Span;
    FailIntact(g, n);
  }

  lemma BaseBelow(h: Heap)
    requires Inv(h)
    ensures |h.fl| >= 1 && h.fl[0].addr < h.brk
  {}

  /** A growth that fails moves no break and unmaps nothing. */
  lemma FailIntact(h: Heap, n: nat)
    requires Inv(h)
    ensures Intact(GrowFails(h, n)) || !Intact(h)
    ensures GrowFails(h, n).pool.mapped >= h.pool.mapped && GrowFails(h, n).brk == h.brk
  {
    MapRunPool(PageAt(h.brk), ChunkPages(n), h.pool);
  }

  /** After an overrun no frame is left, so nothing grows. */
  lemma OverrunEmpties(h: Heap, n: nat)
    requires Inv(h) && CanGrow(h, n) && Overruns(h, n) && |h.fl| >= 1 && h.fl[0].addr < h.brk
    ensures !CanGrow(Grow(h, n), n) && Grow(h, n).pool.frames == 0
  {
    MapRunExact(PageAt(h.brk), ChunkPages(n), h.pool);
  }

  /** The payload behind the header is large enough for the bytes asked for, and not a whole unit more. */
  lemma PayloadHoldsRequest(size: nat)
    requires size > 0
    ensures UnitsFor(size) >= 2
    ensures size <= 8 * (UnitsFor(size) - 1) < size + 8
  {}

  /** Two heaps that agree on the break, the slack and the blocks in use have the same free list,
      whatever histories produced them. */
  lemma FreeListDetermined(g: Heap, h: Heap)
    requires Inv(g) && Inv(h) && g.brk == h.brk && g.slack == h.slack && g.live == h.live
    ensures g.fl == h.fl
  {
    forall u: nat ensures Covers(g.fl, u) <==> Covers(h.fl, u) {
      FreeIffUnused(g, u);
      FreeIffUnused(h, u);
    }
    Canonical(g.fl, h.fl);
  }

  lemma FreeIffUnused(h: Heap, u: nat)
    requires Inv(h)
    ensures Covers(h.fl, u) <==> 1 <= u < h.brk && u !in h.slack && !InUse(h.live, u)
  {
    forall a, i | a in h.live && 0 <= i < |h.fl| && h.fl[i].Has(u) ensures !Block(a, h.live[a]).Has(u) {
      assert h.fl[i].Apart(Block(a, h.live[a]));
    }
  }

  // ---------------------------------------------------------------- histories

  /** A request for `size` bytes, the free of the block with the given header, or the rest of the kernel taking
      and returning frames until that many are free. */
  datatype Call = Allocate(size: nat) | Free(header: nat) | Others(frames: nat)

  /** Callers may free only what they hold. */
  ghost predicate Legal(h: Heap, c: Call) { c.Free? ==> c.header in h.live }

  ghost function Step(h: Heap, c: Call): Heap
    requires Inv(h) && Legal(h, c)
  {
    match c
    case Allocate(size) => if size == 0 then h else Malloc(h, UnitsFor(size)).heap
    case Free(a) => Release(h, a)
    case Others(frames) => h.(pool := h.pool.(frames := frames))
  }

  ghost predicate LegalHistory(h: Heap, calls: seq<Call>)
    requires Inv(h)
    decreases |calls|
  {
    calls == [] || (Legal(h, calls[0]) && (StepInv(h, calls[0]); LegalHistory(Step(h, calls[0]), calls[1..])))
  }

  ghost function After(h: Heap, calls: seq<Call>): Heap
    requires Inv(h) && LegalHistory(h, calls)
    decreases |calls|
  {
    if calls == [] then h else StepInv(h, calls[0]); After(Step(h, calls[0]), calls[1..])
  }

  lemma StepInv(h: Heap, c: Call)
    requires Inv(h) && Legal(h, c)
    ensures Inv(Step(h, c))
  {
    match c
    case Allocate(size) => if size > 0 { PayloadHoldsRequest(size); MallocServes(h, UnitsFor(size)); }
    case Free(a) => ReleaseInv(h, a);
    case Others(_) =>
  }

  /** After any history of requests and frees, whatever frames others take and return in between, the heap is
      a partition of the grown units into free blocks that never touch, disjoint blocks in use, and page
      slack. */
  lemma {:induction false} HeapSafe(h: Heap, calls: seq<Call>)
    requires Inv(h) && LegalHistory(h, calls)
    ensures Inv(After(h, calls))
    decreases |calls|
  {
    if calls != [] {
      StepInv(h, calls[0]);
      HeapSafe(Step(h, calls[0]), calls[1..]);
    }
  }

  // ---------------------------------------------------------------- the two odd outcomes, in the concrete

  /** The heap after a block of 1025 units was handed out and came back: the head is the base. */
  function Returned(base: Block, pool: Pool): Heap {
    Heap([base, Block(1, 1025)], 0, 1537, pool, map[], Span(1026, 1537))
  }

  /** With eight frames, a request for 8192 bytes and its free leave four, which the next request, for 15992
      bytes, maps. Then it returns NULL beside the block that it made. */
  lemma NullBesideFit(base: Block) returns (s: Heap, g: Heap)
    requires base.addr == 0 && base.units == 0
    ensures Inv(Init(8)) && s == Step(Init(8), Allocate(8192)) && Inv(s) && 1 in s.live && g == Step(s, Free(1))
            && Inv(g)
    ensures var r := Malloc(g, UnitsFor(15992));
            r.header == 0 && r.growths == 1 && exists i :: 0 <= i < |r.heap.fl| && r.heap.fl[i].units >= UnitsFor(15992)
  {
    hide MapRun, Slots, Span, Inv, Malloc, Step;
    InitInv(8);
    var h := Init(8);
    assert h.fl == [base];
    StepInv(h, Allocate(8192));
    FirstRequest(base, h);
    s := Step(h, Allocate(8192));
    StepInv(s, Free(1));
    FirstFree(base, s);
    g := Step(s, Free(1));
    LargeRequest(base, g);
    NullMeansNoFit(g, UnitsFor(15992));
  }

  lemma FirstRequest(base: Block, h: Heap)
    requires base.addr == 0 && base.units == 0 && Inv(h) && h == Heap([base], 0, 1, Pool(8, 0, {}), map[], {})
    ensures Step(h, Allocate(8192)) == Heap([base], 0, 1537, Pool(4, 1, Span(0, 3)), map[1 := 1025], Span(1026, 1537))
  {
    hide MapRun, Span, Inv;
    MapRunExact(0, 3, h.pool);
    assert NextFit(h.fl, 0, 1025) >= 1;
    GrowInv(h, 1025);
    GrowFits(h, 1025);
    SpanNone(0);
    var g := Grow(h, 1025);
    assert g.fl == [base, Block(1, 1025)];
    assert g.pool == Pool(4, 1, Span(0, 3));
    assert Take(g.fl, 1, 1025) == [base];
  }

  lemma FirstFree(base: Block, s: Heap)
    requires base.addr == 0 && base.units == 0
    requires s == Heap([base], 0, 1537, Pool(4, 1, Span(0, 3)), map[1 := 1025], Span(1026, 1537)) && Inv(s)
    ensures Legal(s, Free(1)) && Step(s, Free(1)) == Returned(base, s.pool)
  {
    hide Span, Inv;
    assert Insert(s.fl, Block(1, 1025)) == [base, Block(1, 1025)];
    assert s.live - {1} == map[];
  }

  lemma LargeRequest(base: Block, g: Heap)
    requires base.addr == 0 && base.units == 0 && g == Returned(base, Pool(4, 1, Span(0, 3))) && Inv(g)
    ensures var r := Malloc(g, UnitsFor(15992)); r.header == 0 && r.growths == 1
  {
    hide MapRun, Span, Inv, Malloc, Grow, Answered, Served, CanGrow, Run;
    LargeGrowth(base, g);
    GrowParts(g, 2000);
    NoFrames(Grow(g, 2000), 2000);
    assert g.fl[0].units < 2000 && g.fl[1].units < 2000;
    NullIff(g, 2000);
    NoFirstFailure(g, 2000);
  }

  lemma LargeGrowth(base: Block, g: Heap)
    requires base.addr == 0 && base.units == 0 && g == Returned(base, Pool(4, 1, Span(0, 3)))
    ensures CanGrow(g, 2000) && Run(g, 2000).1.frames == 0
  {
    hide MapRun, Span;
    MapRunExact(3, 4, g.pool);
  }

  lemma NoFrames(h: Heap, n: nat)
    requires h.pool.frames == 0
    ensures !CanGrow(h, n)
  {
    PageRound(n);
  }

  lemma GrowParts(h: Heap, n: nat)
    requires |h.fl| >= 1 && h.fl[0].addr < h.brk
    ensures Grow(h, n).pool == Run(h, n).1 && Grow(h, n).brk == h.brk + 512 * ChunkPages(n)
  {}

  lemma NoFirstFailure(h: Heap, n: nat)
    requires Inv(h) && n >= 2 && CanGrow(h, n) && Malloc(h, n).header == 0
    ensures Malloc(h, n).growths == 1
  {
    MallocServes(h, n);
  }

  /** All of the first 1023 pages handed out in one block, and two frames left. */
  function FullSlot(base: Block): Heap {
    Heap([base], 0, 523777, Pool(2, 1, Span(0, 1023)), map[1 := 523776], {})
  }

  /** With 1026 frames, a request for 4190200 bytes leaves two. The next growth takes both for pages 1023 and
      1024, finds none for the table of the second slot, and is reported as a success. */
  lemma HeapCanOverrun(base: Block)
    requires base.addr == 0 && base.units == 0
    ensures var h := FullSlot(base);
            && Inv(Init(1026)) && h == Step(Init(1026), Allocate(4190200))
            && Inv(h) && Intact(h) && Malloc(h, 2).header != 0 && !Intact(Malloc(h, 2).heap)
  {
    hide MapRun, Malloc, Overruns, Step;
    var h := FullSlot(base);
    InitInv(1026);
    assert Init(1026).fl == [base];
    FillSlot(base, Init(1026));
    FullSlotInv(base);
    FullSlotOverruns(base);
    MallocIntact(h, 2);
    NullIff(h, 2);
    NoFitGrows(h, 2);
  }

  lemma FillSlot(base: Block, h: Heap)
    requires base.addr == 0 && base.units == 0 && Inv(h) && h == Heap([base], 0, 1, Pool(1026, 0, {}), map[], {})
    ensures Step(h, Allocate(4190200)) == FullSlot(base)
  {
    hide MapRun, Span, Inv;
    MapRunExact(0, 1023, h.pool);
    assert NextFit(h.fl, 0, 523776) >= 1;
    GrowInv(h, 523776);
    GrowFits(h, 523776);
    SpanNone(0);
    SpanNone(523777);
    var g := Grow(h, 523776);
    assert g.fl == [base, Block(1, 523776)];
    assert g.pool == Pool(2, 1, Span(0, 1023));
    assert Take(g.fl, 1, 523776) == [base];
  }

  lemma FullSlotInv(base: Block)
    requires base.addr == 0 && base.units == 0
    ensures Inv(FullSlot(base)) && Intact(FullSlot(base))
  {
    var h := FullSlot(base);
    forall u: nat ensures InUse(h.live, u) <==> 1 <= u < 523777 {
      assert 1 in h.live && Block(1, h.live[1]).Has(u) <==> 1 <= u < 523777;
    }
    forall p | p in h.pool.mapped ensures p / 1024 < 1 {}
  }

  lemma FullSlotOverruns(base: Block)
    requires base.addr == 0 && base.units == 0 && Inv(FullSlot(base))
    ensures var h := FullSlot(base); Overruns(h, 2) && CanGrow(h, 2) && h.fl[0].units < 2 && |h.fl| == 1
  {
    hide MapRun, Span, Inv;
    CanGrowExact(FullSlot(base), 2);
  }

  lemma NoFitGrows(h: Heap, n: nat)
    requires Inv(h) && n >= 2 && forall i :: 0 <= i < |h.fl| ==> h.fl[i].units < n
    ensures Malloc(h, n).header != 0 ==> Malloc(h, n).growths >= 1
  {}

  // ---------------------------------------------------------------- 32-bit range check

  const WORD := 0x1_0000_0000
  const HEAP_END := 0xF7FF_F000

  /** The range check as compiled: the sum of break and request is taken modulo 2^32. */
  predicate RangeCheck32(brk: nat, bytes: nat) { (brk + bytes) % 0x1_0000_0000 <= HEAP_END }

  /** The check refuses what does not fit exactly for requests that do not wrap; every wrapping
      request of less than 4 GiB passes it although it runs past the end of the heap. */
  lemma RangeCheckExact(brk: nat, bytes: nat)
    requires brk <= HEAP_END && bytes < WORD
    ensures (RangeCheck32(brk, bytes) <==> brk + bytes <= HEAP_END) <==> brk + bytes < WORD
  {}
}
