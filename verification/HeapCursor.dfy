/** Where the search of the kernel heap starts and ends: which block a request gets, and where the next search
    begins, in terms of positions on the ring. */
module HeapCursor {
  import opened HeapModel
  import opened HeapSpec

  /** The entry `d` steps behind the cursor on the ring. */
  function RingAt(h: Heap, d: nat): (i: nat)
    requires h.hd < |h.fl| && d <= |h.fl|
    ensures i < |h.fl|
  {
    if h.hd + d < |h.fl| then h.hd + d else h.hd + d - |h.fl|
  }

  /** The first entry behind the cursor that has `n` units is `d` steps away; the cursor itself comes last. */
  ghost predicate FirstBehind(h: Heap, n: nat, d: nat)
    requires h.hd < |h.fl|
  {
    && 1 <= d <= |h.fl| && h.fl[RingAt(h, d)].units >= n
    && forall e {:trigger RingAt(h, e)} :: 1 <= e < d ==> h.fl[RingAt(h, e)].units < n
  }

  /** There is at most one such distance, and there is one if any entry has `n` units. */
  lemma FirstBehindOnce(h: Heap, n: nat, d: nat, e: nat)
    requires h.hd < |h.fl| && FirstBehind(h, n, d) && FirstBehind(h, n, e)
    ensures d == e
  {}

  /** The cursor stands on the entry at address `a`. */
  ghost predicate CursorAt(h: Heap, a: nat) { h.hd < |h.fl| && h.fl[h.hd].addr == a }

  /** If a free block is large enough, the request gets the end of the first such block behind the cursor, and the
      cursor moves to the entry in front of that block. */
  lemma ServesNext(h: Heap, n: nat) returns (d: nat)
    requires Inv(h) && n >= 2 && exists i :: 0 <= i < |h.fl| && h.fl[i].units >= n
    ensures FirstBehind(h, n, d)
    ensures var r := Malloc(h, n);
            && r.growths == 0 && r.header == h.fl[RingAt(h, d)].End - n
            && CursorAt(r.heap, h.fl[RingAt(h, d - 1)].addr)
  {
    var i := NextFit(h.fl, h.hd, n);
    assert i < |h.fl|;
    assert i >= 1;
    d := if i > h.hd then i - h.hd else i + |h.fl| - h.hd;
    Reached(h, n, i, d);
    Moved(h, i, n);
  }

  /** What the two legs of the search have passed by. */
  lemma Reached(h: Heap, n: nat, i: nat, d: nat)
    requires h.hd < |h.fl| && i == NextFit(h.fl, h.hd, n) < |h.fl|
    requires d == if i > h.hd then i - h.hd else i + |h.fl| - h.hd
    ensures FirstBehind(h, n, d) && RingAt(h, d) == i && (i >= 1 ==> RingAt(h, d - 1) == i - 1)
  {
    forall e | 1 <= e < d ensures h.fl[RingAt(h, e)].units < n {
      var k := RingAt(h, e);
      assert k > h.hd || k < i;
    }
  }

  /** Cutting from entry `i` leaves the entry in front of it where it was, and the cursor on it. */
  lemma Moved(h: Heap, i: nat, n: nat)
    requires 1 <= i < |h.fl| && n <= h.fl[i].units
    ensures CursorAt(Allot(h, i, n), h.fl[i - 1].addr)
  {}

  /** A request that needs growth gets the end of the lowest block of the grown heap that is large enough, and
      the cursor moves to the entry in front of that block. */
  lemma ServesGrown(h: Heap, n: nat) returns (i: nat)
    requires Inv(h) && n >= 2 && (forall j :: 0 <= j < |h.fl| ==> h.fl[j].units < n) && Malloc(h, n).header != 0
    ensures |h.fl| >= 1 && h.fl[0].addr < h.brk && |Grow(h, n).fl| >= 1 && Grow(h, n).fl[0].addr < Grow(h, n).brk
    ensures var r := Malloc(h, n); var g := if r.growths == 1 then Grow(h, n) else Grow(Grow(h, n), n);
            && 1 <= r.growths <= 2 && 1 <= i < |g.fl| && g.fl[i].units >= n
            && (forall j :: 0 <= j < i ==> g.fl[j].units < n)
            && r.header == g.fl[i].End - n && CursorAt(r.heap, g.fl[i - 1].addr)
  {
    hide Grow, Allot, NextFit, CanGrow;
    GrowInv(h, n);
    GrowFits(h, n);
    var g := Grow(h, n);
    i := Target(h);
    if Malloc(h, n).growths == 1 {
      Moved(g, i, n);
    } else {
      GrowAgain(h, n);
      GrowFits(g, n);
      Moved(Grow(g, n), i, n);
    }
  }

  /** The rest of the block that a request was split off serves the next request it is large enough for: its
      header lies right below the previous one. */
  lemma SplitAgain(h: Heap, n: nat, m: nat, i: nat)
    requires Inv(h) && n >= 2 && m >= 2 && Malloc(h, n).header != 0
    requires var r := Malloc(h, n); i < |r.heap.fl| && r.heap.fl[i].End == r.header && r.heap.fl[i].units >= m
    ensures Inv(Malloc(h, n).heap)
    ensures var r := Malloc(h, n); Malloc(r.heap, m).growths == 0 && Malloc(r.heap, m).header == r.header - m
  {
    hide Malloc, Grow, CanGrow, Allot;
    MallocKeeps(h, n);
    RestBehindCursor(h, n, i);
    NextEntryServes(Malloc(h, n).heap, m, i);
  }

  lemma MallocKeeps(h: Heap, n: nat)
    requires Inv(h) && n >= 2
    ensures Inv(Malloc(h, n).heap)
  {
    hide Inv, Malloc, Grow, CanGrow, GrowFails;
    MallocServes(h, n);
  }

  lemma NextEntryServes(g: Heap, m: nat, i: nat)
    requires Inv(g) && m >= 2 && i == g.hd + 1 < |g.fl| && g.fl[i].units >= m
    ensures Malloc(g, m).growths == 0 && Malloc(g, m).header == g.fl[i].End - m
  {
    hide Malloc;
    var d := ServesNext(g, m);
    assert RingAt(g, 1) == i;
    FirstBehindOnce(g, m, d, 1);
  }

  /** That rest is the entry right behind the cursor. */
  lemma RestBehindCursor(h: Heap, n: nat, i: nat)
    requires Inv(h) && n >= 2 && Malloc(h, n).header != 0
    requires var r := Malloc(h, n); i < |r.heap.fl| && r.heap.fl[i].End == r.header
    ensures var g := Malloc(h, n).heap; g.hd < |g.fl| && i == g.hd + 1
  {
    if exists j :: 0 <= j < |h.fl| && h.fl[j].units >= n {
      RestOf(h, NextFit(h.fl, h.hd, n), n, i);
    } else {
      GrowInv(h, n);
      GrowFits(h, n);
      var g := Grow(h, n);
      if Malloc(h, n).growths == 1 {
        RestOf(g, Target(h), n, i);
      } else {
        GrowAgain(h, n);
        GrowInv(g, n);
        RestOf(Grow(g, n), Target(h), n, i);
      }
    }
  }

  lemma RestOf(g: Heap, k: nat, n: nat, i: nat)
    requires Inv(g) && 1 <= k < |g.fl| && 2 <= n <= g.fl[k].units
    requires var r := Allot(g, k, n); i < |r.fl| && r.fl[i].End == g.fl[k].End - n
    ensures i == k && Allot(g, k, n).hd == k - 1
  {
    TakeWf(g.fl, k, n);
    var r := Take(g.fl, k, n);
    if g.fl[k].units == n {
      assert i < k ==> Before(g.fl[i], g.fl[k]);
      assert i >= k ==> Before(g.fl[k], g.fl[i + 1]);
    } else {
      assert i < k ==> Before(r[i], r[k]);
      assert k < i ==> Before(r[k], r[i]);
    }
  }

  /** After a free the cursor stands on the last free block that starts below the block freed. */
  lemma FreeCursor(h: Heap, a: nat)
    requires Inv(h) && a in h.live
    ensures |h.fl| >= 1 && h.fl[0].addr < a
    ensures var r := Release(h, a);
            && r.hd < |r.fl| && r.fl[r.hd].addr < a
            && forall j :: 0 <= j < |r.fl| && r.fl[j].addr < a ==> r.fl[j].addr <= r.fl[r.hd].addr
  {
    var b := Block(a, h.live[a]);
    assert Outside(h.fl, b);
    InsertWf(h.fl, b);
    var r, p := Release(h, a), Place(h.fl, a);
    assert r.fl[p].addr == h.fl[p].addr;
    forall j | 0 <= j < |r.fl| && r.fl[j].addr < a ensures r.fl[j].addr <= r.fl[p].addr {
      if p < j {
        assert Before(r.fl[p], r.fl[j]);
        Above(h.fl, b, j);
      } else if j < p {
        assert Before(r.fl[j], r.fl[p]);
      }
    }
  }

  lemma Above(fl: seq<Block>, b: Block, j: nat)
    requires Wf(fl) && Outside(fl, b) && fl[0].addr < b.addr && Place(fl, b.addr) < j < |Insert(fl, b)|
    ensures Insert(fl, b)[j].addr >= b.addr
  {
    hide Wf;
    var p, r := Place(fl, b.addr), Insert(fl, b);
    var shift := (if TouchesPrevious(fl, p, b) then 1 else 0) + (if TouchesNext(fl, p, b) then 1 else 0);
    if j == p + 1 && !TouchesPrevious(fl, p, b) {
      assert r[j] == Merged(fl, p, b);
    } else {
      assert r[j] == fl[j + shift - 1];
      AbovePlace(fl, b.addr, j + shift - 1);
    }
  }

  lemma AbovePlace(fl: seq<Block>, a: nat, k: nat)
    requires Wf(fl) && fl[0].addr < a && Place(fl, a) < k < |fl|
    ensures fl[k].addr >= a
  {
    var p := Place(fl, a);
    if p + 1 < k { assert Before(fl[p + 1], fl[k]); }
  }

  /** A growth adds max(n, 1024) units at the old break, moves the break to the end of their last page, and leaves
      the cursor on the last block that starts below the old break. */
  lemma GrowExact(h: Heap, n: nat)
    requires Inv(h) && CanGrow(h, n)
    ensures |h.fl| >= 1 && h.fl[0].addr < h.brk
    ensures var g := Grow(h, n); var k := if n < 1024 then 1024 else n;
            && (forall u: nat :: Covers(g.fl, u) <==> Covers(h.fl, u) || h.brk <= u < h.brk + k)
            && h.brk + k <= g.brk < h.brk + k + 512 && (g.brk - 1) % 512 == 0
            && g.live == h.live && g.hd < |g.fl| && g.fl[g.hd].addr < h.brk
            && forall j :: 0 <= j < |g.fl| && g.fl[j].addr < h.brk ==> g.fl[j].addr <= g.fl[g.hd].addr
  {
    GrowShape(h, n);
    PageRound(n);
    GrowInv(h, n);
    var c, g := Block(h.brk, ChunkUnits(n)), Grow(h, n);
    forall u: nat ensures Covers(g.fl, u) <==> Covers(h.fl, u) || c.Has(u) { InsertCovers(h.fl, c, u); }
    ChunkInv(h, n);
    GrowIsRelease(h, n);
    FreeCursor(Chunk(h, n), h.brk);
  }
}
