/** The kernel heap as the source runs it: headers in memory, linked through `next`, edited in place.

    Header addresses are unit indices: 0 is the static `base` header, `u >= 1` the unit at
    `heap_start + 8 * (u - 1)`. The ghost field `h` is the value-level heap of HeapSpec. */
module KernelHeap {
  import opened HeapModel
  import opened HeapSpec

  const HEAP_START := 0xF000_0000
  /** Requests up to here keep the 32-bit range check exact. */
  const MAX_REQUEST := 0x07FF_FF00

  /** Ring successor and predecessor of entry `i`. */
  function Ahead(len: nat, i: nat): nat
    requires i < len
  {
    if i + 1 < len then i + 1 else 0
  }

  function Behind(len: nat, i: nat): nat
    requires i < len
  {
    if i > 0 then i - 1 else len - 1
  }

  /** The loop condition of `free` holds at exactly one ring entry: the place of `b`. */
  lemma StopsAtPlace(fl: seq<Block>, b: nat, i: nat)
    requires Wf(fl) && i < |fl| && b >= 1
    requires forall k :: 0 <= k < |fl| ==> fl[k].addr != b
    ensures var here, ahead := fl[i].addr, fl[Ahead(|fl|, i)].addr;
            i == Place(fl, b) <==>
            (b > here && b < ahead) || (here >= ahead && (b > here || b < ahead))
  {
    var p := Place(fl, b);
    if i + 1 < |fl| { assert Before(fl[i], fl[i + 1]); }
    if i < p { assert Before(fl[i], fl[p]); }
    if i + 1 < p { assert Before(fl[i + 1], fl[p]); }
    if p + 1 < i { assert Before(fl[p + 1], fl[i]); }
  }

  /** Entry `i` of the free list sits in memory: its size word and its link to the next entry. */
  ghost predicate InMemory(next: seq<nat>, size: seq<nat>, fl: seq<Block>, i: nat)
    requires |next| == |size| && i < |fl|
  {
    && fl[i].addr < |size|
    && size[fl[i].addr] == fl[i].units
    && next[fl[i].addr] == fl[Ahead(|fl|, i)].addr
  }

  /** The headers in memory form one ring through all entries. */
  ghost predicate Ring(next: seq<nat>, size: seq<nat>, fl: seq<Block>) {
    |next| == |size| && forall i :: 0 <= i < |fl| ==> InMemory(next, size, fl, i)
  }

  /** Address of the entry that follows `b` once it is merged in behind entry `p`. */
  function Follower(fl: seq<Block>, p: nat, b: Block): nat
    requires p < |fl|
  {
    fl[Ahead(|fl|, if TouchesNext(fl, p, b) then p + 1 else p)].addr
  }

  /** The two memories agree except possibly at `x` and `y`. */
  ghost predicate SameBut(m: seq<nat>, m': seq<nat>, x: nat, y: nat) {
    |m| == |m'| && forall z {:trigger m'[z]} :: 0 <= z < |m| && z != x && z != y ==> m'[z] == m[z]
  }

  /** The headers that an insertion of `b` behind entry `p` writes. */
  ghost predicate Inserted(next': seq<nat>, size': seq<nat>, fl: seq<Block>, p: nat, b: Block)
    requires p < |fl| && fl[p].addr < |next'| && b.addr < |next'| && |next'| == |size'|
  {
    var m := if TouchesPrevious(fl, p, b) then fl[p].addr else b.addr;
    && size'[m] == Merged(fl, p, b).units
    && next'[m] == Follower(fl, p, b)
    && (m == b.addr ==> size'[fl[p].addr] == fl[p].units && next'[fl[p].addr] == b.addr)
  }

  /** An insertion behind entry `p` writes only the headers of that entry and of `b`. */
  ghost predicate InsertWrites(next: seq<nat>, size: seq<nat>, next': seq<nat>, size': seq<nat>, fl: seq<Block>, p: nat,
        b: Block) {
    && p < |fl| && fl[p].addr < |next| && b.addr < |next| && |next| == |size|
    && SameBut(next, next', b.addr, fl[p].addr) && SameBut(size, size', b.addr, fl[p].addr)
    && Inserted(next', size', fl, p, b)
  }

  lemma UntouchedEntry(next: seq<nat>, size: seq<nat>, next': seq<nat>, size': seq<nat>,
                       fl: seq<Block>, p: nat, b: Block, j: nat, r: seq<Block>, i: nat)
    requires InsertWrites(next, size, next', size', fl, p, b) && Ring(next, size, fl)
    requires i < |r| && j < |fl| && r[i] == fl[j] && r[Ahead(|r|, i)].addr == fl[Ahead(|fl|, j)].addr
    requires fl[j].addr != fl[p].addr && fl[j].addr != b.addr
    ensures InMemory(next', size', r, i)
  {
    assert InMemory(next, size, fl, j);
  }

  lemma LeftEntry(next: seq<nat>, size: seq<nat>, next': seq<nat>, size': seq<nat>, fl: seq<Block>, b: Block, i: nat)
    requires Wf(fl) && Outside(fl, b) && Ring(next, size, fl)
    requires InsertWrites(next, size, next', size', fl, Place(fl, b.addr), b)
    requires i < Place(fl, b.addr)
    ensures InMemory(next', size', Insert(fl, b), i)
  {
    var p := Place(fl, b.addr);
    assert Before(fl[i], fl[p]);
    assert fl[i].Apart(b);
    UntouchedEntry(next, size, next', size', fl, p, b, i, Insert(fl, b), i);
  }

  lemma RightEntry(next: seq<nat>, size: seq<nat>, next': seq<nat>, size': seq<nat>, fl: seq<Block>, b: Block, j: nat,
        i: nat)
    requires Wf(fl) && Outside(fl, b) && Ring(next, size, fl)
    requires InsertWrites(next, size, next', size', fl, Place(fl, b.addr), b)
    requires var p := Place(fl, b.addr);
             var k := if TouchesPrevious(fl, p, b) then p else p + 1;
             k < i < |Insert(fl, b)| && j == i + p - k + (if TouchesNext(fl, p, b) then 1 else 0)
    ensures InMemory(next', size', Insert(fl, b), i)
  {
    var p := Place(fl, b.addr);
    var r := Insert(fl, b);
    assert r[i] == fl[j];
    assert i + 1 < |r| ==> r[i + 1] == fl[j + 1];
    assert Before(fl[p], fl[j]);
    assert fl[j].Apart(b);
    UntouchedEntry(next, size, next', size', fl, p, b, j, r, i);
  }

  lemma MiddleEntry(next: seq<nat>, size: seq<nat>, next': seq<nat>, size': seq<nat>, fl: seq<Block>, b: Block, i: nat)
    requires Wf(fl) && Outside(fl, b) && Ring(next, size, fl)
    requires InsertWrites(next, size, next', size', fl, Place(fl, b.addr), b)
    requires var p := Place(fl, b.addr); i == p || (i == p + 1 && !TouchesPrevious(fl, p, b))
    ensures InMemory(next', size', Insert(fl, b), i)
  {
    hide Ring;
    var p, r := Place(fl, b.addr), Insert(fl, b);
    if i == p && !TouchesPrevious(fl, p, b) {
      assert r[p] == fl[p] && r[p + 1] == Merged(fl, p, b);
    } else {
      assert r[i] == Merged(fl, p, b);
      assert r[Ahead(|r|, i)].addr == Follower(fl, p, b);
    }
  }

  /** Only two headers change when a block is inserted: its own and the one in front of it. */
  lemma InsertRing(next: seq<nat>, size: seq<nat>, next': seq<nat>, size': seq<nat>, fl: seq<Block>, b: Block)
    requires Wf(fl) && Outside(fl, b) && Ring(next, size, fl)
    requires InsertWrites(next, size, next', size', fl, Place(fl, b.addr), b)
    ensures Ring(next', size', Insert(fl, b))
  {
    var p := Place(fl, b.addr);
    var k := if TouchesPrevious(fl, p, b) then p else p + 1;
    forall i | 0 <= i < |Insert(fl, b)| ensures InMemory(next', size', Insert(fl, b), i) {
      if i < p {
        LeftEntry(next, size, next', size', fl, b, i);
      } else if i <= k {
        MiddleEntry(next, size, next', size', fl, b, i);
      } else {
        RightEntry(next, size, next', size', fl, b, i + p - k + (if TouchesNext(fl, p, b) then 1 else 0), i);
      }
    }
  }

  /** A header in use is no free header, and freeing it keeps the place found for it. */
  lemma Freeable(h: HeapSpec.Heap, block: nat)
    requires Inv(h) && block in h.live
    ensures Wf(h.fl) && Outside(h.fl, Block(block, h.live[block])) && block >= 1
    ensures forall i :: 0 <= i < |h.fl| ==> h.fl[i].addr !in h.live
    ensures Inv(Release(h, block))
    ensures var p, fl' := Place(h.fl, block), Release(h, block).fl; p < |fl'| && fl'[p].addr == h.fl[p].addr
  {
    ReleaseInv(h, block);
    forall i, a | 0 <= i < |h.fl| && a in h.live ensures h.fl[i].addr != a {
      assert h.fl[i].Apart(Block(a, h.live[a]));
    }
  }

  /** What cutting `n` units off entry `i` writes: on an exact fit the link in front of it, otherwise
      its size; the size of the piece cut off is written in both cases. */
  ghost predicate TakeWrites(next: seq<nat>, size: seq<nat>, next': seq<nat>, size': seq<nat>, fl: seq<Block>, i: nat,
        n: nat) {
    && 1 <= i < |fl| && n <= fl[i].units && |next| == |next'| == |size| == |size'|
    && fl[i - 1].addr < |next| && fl[i].addr < |next| && Cut(fl, i, n).addr < |next|
    && SameBut(size, size', fl[i].addr, Cut(fl, i, n).addr)
    && if fl[i].units == n
       then SameBut(next, next', fl[i - 1].addr, fl[i - 1].addr) && next'[fl[i - 1].addr] == fl[Ahead(|fl|, i)].addr
       else next' == next && size'[fl[i].addr] == fl[i].units - n
  }

  lemma RingEntry(next: seq<nat>, size: seq<nat>, fl: seq<Block>, i: nat)
    requires Ring(next, size, fl) && i < |fl|
    ensures |next| == |size| && InMemory(next, size, fl, i)
  {}

  lemma TakeRing(next: seq<nat>, size: seq<nat>, next': seq<nat>, size': seq<nat>, fl: seq<Block>, i: nat, n: nat)
    requires Wf(fl) && Ring(next, size, fl) && TakeWrites(next, size, next', size', fl, i, n) && n >= 1
    ensures Ring(next', size', Take(fl, i, n))
  {
    var r := Take(fl, i, n);
    var exact := fl[i].units == n;
    forall k | 0 <= k < |r| ensures InMemory(next', size', r, k) {
      var j := if exact && k >= i then k + 1 else k;
      assert InMemory(next, size, fl, j);
      assert j < i ==> Before(fl[j], fl[i]);
      assert j > i ==> Before(fl[i], fl[j]);
      assert j < i - 1 ==> Before(fl[j], fl[i - 1]);
      assert j > i ==> Before(fl[i - 1], fl[j]);
      assert k != i || exact ==> r[k] == fl[j];
    }
  }

  /** Writing at an address that is no free header keeps the ring. */
  lemma RingElsewhere(next: seq<nat>, size: seq<nat>, next': seq<nat>, size': seq<nat>, fl: seq<Block>, x: nat)
    requires Ring(next, size, fl) && SameBut(next, next', x, x) && SameBut(size, size', x, x)
    requires forall i :: 0 <= i < |fl| ==> fl[i].addr != x
    ensures Ring(next', size', fl)
  {
    forall i | 0 <= i < |fl| ensures InMemory(next', size', fl, i) { assert InMemory(next, size, fl, i); }
  }

  /** The header of a new chunk is at a fresh address. */
  lemma ChunkHeader(h: HeapSpec.Heap, n: nat)
    requires Inv(h) && CanGrow(h, n)
    ensures h.brk !in h.live && h.brk <= HEAP_UNITS
    ensures forall i :: 0 <= i < |h.fl| ==> h.fl[i].addr != h.brk
  {
    ChunkInv(h, n);
    GrowShape(h, n);
    PageRound(n);
    forall i | 0 <= i < |h.fl| ensures h.fl[i].addr != h.brk {
      assert h.fl[i].Apart(Block(h.brk, ChunkUnits(n)));
    }
  }

  lemma PagesOf(n: nat)
    ensures (8 * ChunkUnits(n) + 4095) / 4096 == ChunkPages(n)
  {}

  /** The piece cut off gets a header that no free or used block has. */
  lemma CutHeader(h: HeapSpec.Heap, i: nat, n: nat)
    requires Inv(h) && 1 <= i < |h.fl| && 2 <= n <= h.fl[i].units
    ensures Before(h.fl[i - 1], h.fl[i])
    ensures h.fl[i - 1].addr !in h.live && h.fl[i].addr !in h.live
    ensures Cut(h.fl, i, n).addr < h.brk <= HEAP_UNITS + 1 && Wf(h.fl)
    ensures |Take(h.fl, i, n)| >= i && Take(h.fl, i, n)[i - 1] == h.fl[i - 1]
  {
    assert h.fl[i].Has(Cut(h.fl, i, n).addr) && Covers(h.fl, Cut(h.fl, i, n).addr);
    assert Before(h.fl[i - 1], h.fl[i]);
    forall a | a in h.live ensures h.fl[i - 1].addr != a && h.fl[i].addr != a {
      assert h.fl[i - 1].Apart(Block(a, h.live[a])) && h.fl[i].Apart(Block(a, h.live[a]));
    }
  }

  // ---------------------------------------------------------------- the search of malloc

  /** Ring steps from entry `i` to entry `to`. */
  function Steps(len: nat, i: nat, to: nat): nat
    requires i < len && to < len
  {
    if i <= to then to - i else to + len - i
  }

  /** Entries passed between the head and `i` have fewer than `n` units. */
  ghost predicate NoFitUpTo(fl: seq<Block>, hd: nat, i: nat, n: nat)
    requires hd < |fl| && i < |fl|
  {
    forall k {:trigger fl[k]} :: 0 <= k < |fl| && (if hd < i then hd < k < i else hd < k || k < i) ==> fl[k].units < n
  }

  ghost predicate NoFit(fl: seq<Block>, n: nat) { forall k :: 0 <= k < |fl| ==> fl[k].units < n }

  /** What the search knows when it looks at entry `i` of `h`, started from `h0` and after `growths` growths. */
  ghost predicate Searching(h0: HeapSpec.Heap, h: HeapSpec.Heap, n: nat, growths: nat, i: nat)
    requires Inv(h0)
  {
    && i < |h.fl| && h.hd < |h.fl| && n >= 2
    && match growths
       case 0 => h == h0 && NoFitUpTo(h.fl, h.hd, i, n)
       case 1 =>
         && CanGrow(h0, n) && NoFit(h0.fl, n) && h == Grow(h0, n)
         && (if ReachesBreak(h0) then true else if h0.hd == |h0.fl| - 1 then i == Target(h0) else i < Target(h0))
       case 2 =>
         && CanGrow(h0, n) && NoFit(h0.fl, n) && CanGrow(Grow(h0, n), n) && h == Grow(Grow(h0, n), n)
         && !ReachesBreak(h0) && h0.hd != |h0.fl| - 1 && i == Target(h0)
       case _ => false
  }

  lemma SearchStarts(h: HeapSpec.Heap, n: nat)
    requires Inv(h) && n >= 2
    ensures h.hd < |h.fl| && Searching(h, h, n, 0, Ahead(|h.fl|, h.hd))
  {}

  lemma SameAddress(fl: seq<Block>, i: nat, j: nat)
    requires Wf(fl) && i < |fl| && j < |fl|
    ensures fl[i].addr == fl[j].addr <==> i == j
  {
    assert i < j ==> Before(fl[i], fl[j]);
    assert j < i ==> Before(fl[j], fl[i]);
  }

  /** The first entry that fits is the one the specification names. */
  lemma {:induction false} FoundIsMalloc(h0: HeapSpec.Heap, h: HeapSpec.Heap, n: nat, growths: nat, i: nat)
    requires Inv(h0) && Inv(h) && Searching(h0, h, n, growths, i) && h.fl[i].units >= n
    ensures 1 <= i && Malloc(h0, n) == AllotAt(h, i, n, growths)
    ensures Cut(h.fl, i, n).addr > 0
  {
    assert Before(h.fl[0], h.fl[i]) || i == 0;
    if growths == 0 {
      FoundIsNext(h, n, i);
    } else {
      GrowFits(h0, n);
      assert NextFit(h0.fl, h0.hd, n) >= |h0.fl|;
    }
  }

  /** The first fit of the walk is the next fit. */
  lemma FoundIsNext(h: HeapSpec.Heap, n: nat, i: nat)
    requires h.hd < |h.fl| && i < |h.fl| && NoFitUpTo(h.fl, h.hd, i, n) && h.fl[i].units >= n
    ensures i == NextFit(h.fl, h.hd, n)
  {}

  /** Back at the head without a fit: either the request fails here, or it goes on in the grown heap. */
  lemma GrowStep(h0: HeapSpec.Heap, h: HeapSpec.Heap, n: nat, growths: nat, i: nat)
    requires Inv(h0) && Inv(h) && Searching(h0, h, n, growths, i) && h.fl[i].units < n && i == h.hd
    ensures growths < 2
    ensures if CanGrow(h, n)
            then var g := Grow(h, n);
                 i < |g.fl| && g.fl[i].addr == h.fl[i].addr && Searching(h0, g, n, growths + 1, Ahead(|g.fl|, i))
            else Malloc(h0, n) == Result(GrowFails(h, n), 0, growths)
  {
    if growths == 0 {
      assert NoFit(h.fl, n);
      assert NextFit(h.fl, h.hd, n) >= |h.fl|;
      GrowFits(h, n);
    } else {
      GrowFits(h0, n);
      GrowAgain(h0, n);
      SecondGrowStep(h0, h, n, growths, i);
    }
  }

  lemma SecondGrowStep(h0: HeapSpec.Heap, h: HeapSpec.Heap, n: nat, growths: nat, i: nat)
    requires Inv(h0) && Inv(h) && Searching(h0, h, n, growths, i) && h.fl[i].units < n && i == h.hd && growths == 1
    ensures if CanGrow(h, n)
            then var g := Grow(h, n);
                 i < |g.fl| && g.fl[i].addr == h.fl[i].addr && Searching(h0, g, n, growths + 1, Ahead(|g.fl|, i))
            else Malloc(h0, n) == Result(GrowFails(h, n), 0, growths)
  {
    assert NextFit(h0.fl, h0.hd, n) >= |h0.fl|;
    GrowFits(h0, n);
    GrowFits(h, n);
  }

  /** A step past an entry that does not fit and is not the head. */
  lemma WalkStep(h0: HeapSpec.Heap, h: HeapSpec.Heap, n: nat, growths: nat, i: nat)
    requires Inv(h0) && Inv(h) && Searching(h0, h, n, growths, i) && h.fl[i].units < n && i != h.hd
    ensures Searching(h0, h, n, growths, Ahead(|h.fl|, i))
    ensures growths < 2 && Steps(|h.fl|, Ahead(|h.fl|, i), h.hd) < Steps(|h.fl|, i, h.hd)
  {
    if growths >= 1 {
      GrowFits(h0, n);
      GrowAgain(h0, n);
    }
  }

  /** No header of another block, free or in use, lies inside a payload. */
  lemma PayloadHasNoHeader(h: HeapSpec.Heap, block: nat, u: nat)
    requires Inv(h) && block in h.live && block < u < block + h.live[block]
    ensures u < h.brk && u !in h.live
    ensures forall i :: 0 <= i < |h.fl| ==> h.fl[i].addr != u
  {
    var b := Block(block, h.live[block]);
    assert b.Has(u) && InUse(h.live, u);
    forall i | 0 <= i < |h.fl| ensures h.fl[i].addr != u { assert h.fl[i].Apart(b); }
    forall a | a in h.live ensures a != u {
      if a != block { assert Block(a, h.live[a]).Apart(b); }
    }
  }

  class Heap {
    const next: array<nat>
    const size: array<nat>
    var head: nat
    var brk: nat
    /** Free frames, and page tables that the heap's address range has. */
    var frames: nat
    var tables: nat
    ghost var mapped: set<nat>
    ghost var h: HeapSpec.Heap

    ghost predicate Valid()
      reads this, next, size
    {
      && next != size
      && next.Length == size.Length == HEAP_UNITS + 1
      && Inv(h)
      && Ring(next[..], size[..], h.fl)
      && (forall a :: a in h.live ==> a < size.Length && size[a] == h.live[a])
      && head == h.fl[h.hd].addr && brk == h.brk && Pool(frames, tables, mapped) == h.pool
    }

    constructor (frames: nat)
      ensures Valid() && h == Init(frames)
    {
      next := new nat[HEAP_UNITS + 1];
      size := new nat[HEAP_UNITS + 1];
      head := 0;
      brk := 1;
      this.frames, tables := frames, 0;
      mapped := {};
      h := Init(frames);
      new;
      next[0] := 0;
      size[0] := 0;
    }

    /** Finds the ring entry behind which address `b` belongs. */
    method FindPlace(b: nat) returns (location: nat)
      requires Valid() && b >= 1
      requires forall i :: 0 <= i < |h.fl| ==> h.fl[i].addr != b
      ensures location == h.fl[Place(h.fl, b)].addr
    {
      location := head;
      ghost var i, p, len := h.hd, Place(h.fl, b), |h.fl|;
      while true
        invariant 0 <= i < len && location == h.fl[i].addr
        decreases if i <= p then p - i else p - i + len
      {
        StopsAtPlace(h.fl, b, i);
        assert InMemory(next[..], size[..], h.fl, i);
        var afterCurrent := b > location;
        var beforeNext := b < next[location];
        if afterCurrent && beforeNext { break; }
        if location >= next[location] && (afterCurrent || beforeNext) { break; }
        location := next[location];
        i := Ahead(len, i);
      }
    }

    /** Links `block` in behind `location`, merging it with the neighbours it touches. */
    method LinkIn(block: nat, location: nat, ghost fl: seq<Block>, ghost b: Block)
      requires next != size && next.Length == size.Length == HEAP_UNITS + 1
      requires Wf(fl) && Outside(fl, b) && Ring(next[..], size[..], fl)
      requires block == b.addr < size.Length && size[block] == b.units
      requires location == fl[Place(fl, block)].addr
      modifies next, size
      ensures Ring(next[..], size[..], Insert(fl, b))
      ensures forall x :: 0 <= x < size.Length && x != block && x != location ==> size[x] == old(size[x])
    {
      ghost var p := Place(fl, block);
      assert p + 1 < |fl| ==> Before(fl[p], fl[p + 1]);
      ghost var next0, size0 := next[..], size[..];
      assert InMemory(next0, size0, fl, p);
      assert InMemory(next0, size0, fl, Ahead(|fl|, p));
      assert fl[p].Apart(b) && fl[Ahead(|fl|, p)].Apart(b);

      if block + size[block] == next[location] {
        size[block] := size[block] + size[next[location]];
        next[block] := next[next[location]];
      } else {
        next[block] := next[location];
      }
      assert size[block] == b.units + (if TouchesNext(fl, p, b) then fl[p + 1].units else 0);
      assert next[block] == Follower(fl, p, b);
      if location + size[location] == block {
        size[location] := size[location] + size[block];
        next[location] := next[block];
      } else {
        next[location] := block;
      }
      InsertRing(next0, size0, next[..], size[..], fl, b);
    }

    /** `kernel_heap_free`: puts the block back in address order. */
    method Free(address: nat)
      requires Valid()
      requires address == 0 || address - 1 in h.live
      modifies this`head, this`h, next, size
      ensures Valid()
      ensures h == if address == 0 then old(h) else Release(old(h), address - 1)
    {
      hide Inv, Wf, Ring, Insert, Outside, Place;
      if address == 0 { return; }
      var block := address - 1;
      ghost var b := Block(block, h.live[block]);
      Freeable(h, block);
      var location := FindPlace(block);
      LinkIn(block, location, h.fl, b);
      head := location;
      h := Release(h, block);
    }

    /** Between two calls other parts of the kernel take and return frames. */
    method Others(frames: nat)
      requires Valid()
      modifies this`frames, this`h
      ensures Valid() && h == Step(old(h), HeapSpec.Others(frames))
    {
      this.frames := frames;
      h := Step(h, HeapSpec.Others(frames));
    }

    /** `memory_paging_map` for page `page` of the heap: fails if its table is missing and there is no
        frame for it. */
    method MapPage(page: nat) returns (ok: bool)
      modifies this`frames, this`tables, this`mapped
      ensures ok == (page / 1024 < old(tables) || old(frames) > 0)
      ensures !ok ==> frames == old(frames) && tables == old(tables) && mapped == old(mapped)
      ensures ok ==> mapped == old(mapped) + {page}
      ensures ok ==> if page / 1024 < old(tables) then frames == old(frames) && tables == old(tables)
                     else frames == old(frames) - 1 && tables == page / 1024 + 1
    {
      if page / 1024 >= tables {
        if frames == 0 { return false; }
        frames := frames - 1;
        tables := page / 1024 + 1;
      }
      mapped := mapped + {page};
      return true;
    }

    /** `kernel_heap_allocate_physical_memory`: a frame for each page, the break moved at the end. What
        `memory_paging_map` answers is not looked at. */
    method MapPages(bytes: nat) returns (ok: bool)
      requires 1 <= brk <= HEAP_UNITS + 1 && 0 < bytes < 0x0800_0000
      modifies this`brk, this`frames, this`tables, this`mapped
      ensures var pages := (bytes + 4095) / 4096;
              var run := MapRun(PageAt(old(brk)), pages, old(Pool(frames, tables, mapped)));
              if old(brk) + 512 * pages <= HEAP_UNITS + 1 then
                (ok, Pool(frames, tables, mapped)) == run && brk == if ok then old(brk) + 512 * pages else old(brk)
              else !ok && Pool(frames, tables, mapped) == old(Pool(frames, tables, mapped)) && brk == old(brk)
    {
      var pages := (bytes + 4095) / 4096;
      var aligned := pages * 4096;
      var address := HEAP_START + 8 * (brk - 1);
      RangeCheckExact(address, aligned);
      if !RangeCheck32(address, aligned) { return false; }
      var page, i := (brk - 1) / 512, 0;
      while i < pages
        invariant 0 <= i <= pages && brk == old(brk)
        invariant MapRun(page + i, pages - i, Pool(frames, tables, mapped)) ==
                    MapRun(page, pages, old(Pool(frames, tables, mapped)))
      {
        if frames == 0 { return false; }
        frames := frames - 1;
        var _ := MapPage(page + i);
        i := i + 1;
      }
      brk := brk + aligned / 8;
      return true;
    }

    /** `kernel_heap_allocate_more_headers`: grows the heap and frees the new chunk into the list. */
    method AllocateMore(n: nat) returns (ok: bool)
      requires Valid() && 2 <= n && 8 * n < 0x0800_0000
      modifies this, next, size
      ensures Valid()
      ensures ok == CanGrow(old(h), n)
      ensures h == if ok then Grow(old(h), n) else GrowFails(old(h), n)
    {
      var bytes := n * 8;
      if bytes < 1024 * 8 { bytes := 1024 * 8; }
      PagesOf(n);
      var header := brk;
      ok := MapPages(bytes);
      if !ok {
        GrowFailsInv(h, n);
        h := GrowFails(h, n);
        return;
      }
      AddChunk(header, bytes / 8, n);
    }

    /** Writes the header of the freshly mapped chunk and frees it. */
    method AddChunk(header: nat, units: nat, ghost n: nat)
      requires next != size && next.Length == size.Length == HEAP_UNITS + 1
      requires Inv(h) && CanGrow(h, n) && Ring(next[..], size[..], h.fl)
      requires forall a :: a in h.live ==> a < size.Length && size[a] == h.live[a]
      requires head == h.fl[h.hd].addr && brk == h.brk + 512 * ChunkPages(n)
               && Pool(frames, tables, mapped) == Run(h, n).1
      requires header == h.brk && units == ChunkUnits(n)
      modifies this, next, size
      ensures Valid() && h == Grow(old(h), n)
    {
      ChunkInv(h, n);
      ChunkHeader(h, n);
      GrowIsRelease(h, n);
      ghost var next0, size0 := next[..], size[..];
      size[header] := units;
      next[header] := header;
      RingElsewhere(next0, size0, next[..], size[..], h.fl, header);
      h := Chunk(h, n);
      Free(header + 1);
    }

    /** Cuts `n` units off entry `i`, whose header is `current`, and moves the head in front of it. */
    method CutFrom(previous: nat, current: nat, n: nat, ghost i: nat) returns (header: nat)
      requires Valid() && 1 <= i < |h.fl| && 2 <= n <= h.fl[i].units
      requires previous == h.fl[i - 1].addr && current == h.fl[i].addr
      modifies this`head, this`h, next, size
      ensures Valid() && h == Allot(old(h), i, n) && header == Cut(old(h).fl, i, n).addr
      ensures head == previous
    {
      hide Inv, Wf, Ring, Take;
      AllotInv(h, i, n);
      CutHeader(h, i, n);
      ghost var next0, size0 := next[..], size[..];
      RingEntry(next0, size0, h.fl, i - 1);
      RingEntry(next0, size0, h.fl, i);
      header := current;
      if size[current] == n {
        next[previous] := next[current];
      } else {
        size[current] := size[current] - n;
        header := current + size[current];
        size[header] := n;
      }
      TakeRing(next0, size0, next[..], size[..], h.fl, i, n);
      head := previous;
      h := Allot(h, i, n);
    }

    /** Next-fit search from behind the head, growing the heap whenever the search comes back to the
        head. Returns the header of a block of `n` units, 0 for NULL. */
    method Search(n: nat) returns (header: nat, ghost growths: nat)
      requires Valid() && 2 <= n && 8 * n < 0x0800_0000
      modifies this, next, size
      ensures Valid()
      ensures Malloc(old(h), n) == Result(h, header, growths)
    {
      hide Inv, Wf, Ring, Malloc, Searching, Grow, GrowFails, Allot;
      growths := 0;
      ghost var h0 := h;
      SearchStarts(h, n);
      Entry(h.hd);
      var previous := head;
      var current := next[previous];
      ghost var i: nat := Ahead(|h.fl|, h.hd);
      while true
        invariant Valid()
        invariant Searching(h0, h, n, growths, i)
        invariant i < |h.fl| && growths <= 2 && h.hd < |h.fl|
        invariant current == h.fl[i].addr && previous == h.fl[Behind(|h.fl|, i)].addr
        decreases 2 - growths, Steps(|h.fl|, i, h.hd)
      {
        Entry(i);
        if size[current] >= n {
          FoundIsMalloc(h0, h, n, growths, i);
          header := CutFrom(previous, current, n, i);
          return;
        }
        if current == head {
          GrowStep(h0, h, n, growths, i);
          var ok := AllocateMore(n);
          if !ok { return 0, growths; }
          growths := growths + 1;
        } else {
          WalkStep(h0, h, n, growths, i);
        }
        Entry(i);
        previous := current;
        current := next[current];
        i := Ahead(|h.fl|, i);
      }
    }

    /** Memory at ring entry `i`. */
    lemma Entry(i: nat)
      requires Valid() && i < |h.fl|
      ensures h.hd < |h.fl| && h.fl[i].addr < size.Length
      ensures size[h.fl[i].addr] == h.fl[i].units && next[h.fl[i].addr] == h.fl[Ahead(|h.fl|, i)].addr
      ensures head == h.fl[i].addr <==> i == h.hd
    {
      assert InMemory(next[..], size[..], h.fl, i);
      SameAddress(h.fl, i, h.hd);
    }

    /** `kernel_heap_malloc`: the address behind the header of a block that holds `bytes` bytes. */
    method Allocate(bytes: nat) returns (address: nat, ghost growths: nat)
      requires Valid() && bytes <= MAX_REQUEST
      modifies this, next, size
      ensures Valid()
      ensures bytes == 0 ==> address == 0 && h == old(h)
      ensures bytes > 0 ==>
                var r := Malloc(old(h), UnitsFor(bytes));
                && h == r.heap && growths == r.growths
                && address == (if r.header == 0 then 0 else r.header + 1)
    {
      hide Inv, Malloc;
      if bytes == 0 { return 0, 0; }
      var n := (bytes + 7) / 8 + 1;
      var header;
      header, growths := Search(n);
      address := if header == 0 then 0 else header + 1;
    }

    /** A holder of a block may write anything into its payload, header words included. */
    method Store(block: nat, offset: nat, word0: nat, word1: nat)
      requires Valid() && block in h.live && 1 <= offset < h.live[block]
      modifies next, size
      ensures Valid()
    {
      ghost var next0, size0 := next[..], size[..];
      PayloadHasNoHeader(h, block, block + offset);
      next[block + offset] := word0;
      size[block + offset] := word1;
      RingElsewhere(next0, size0, next[..], size[..], h.fl, block + offset);
    }
  }
}
