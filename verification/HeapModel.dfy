/** Value-level view of the kernel heap's free list, in 8-byte header units.

    The free list is a sequence of blocks in address order. Entry 0 is the static
    `base` header (address 0, no units); every other entry is a free block. */
module HeapModel {

  datatype Block = Block(addr: nat, units: nat) {
    const End: nat := addr + units
    predicate Has(u: nat) { addr <= u < End }
    predicate Apart(other: Block) { End <= other.addr || other.End <= addr }
  }

  /** `x` ends strictly below the start of `y`: the two do not even touch. */
  predicate Before(x: Block, y: Block) { x.End < y.addr }

  /** Address sorted, starts at `base`, and no two free blocks touch. */
  ghost predicate Wf(fl: seq<Block>) {
    && |fl| >= 1
    && fl[0].addr == 0 && fl[0].units == 0
    && (forall i :: 1 <= i < |fl| ==> fl[i].units >= 1)
    && (forall i, j {:trigger Before(fl[i], fl[j])} :: 0 <= i < j < |fl| ==> Before(fl[i], fl[j]))
  }

  /** Unit `u` belongs to some free block. */
  ghost predicate Covers(fl: seq<Block>, u: nat) {
    exists i :: 0 <= i < |fl| && fl[i].Has(u)
  }

  /** Block `b` overlaps no free block. */
  ghost predicate Outside(fl: seq<Block>, b: Block) {
    b.addr >= 1 && b.units >= 1 && forall i {:trigger fl[i].Apart(b)} :: 0 <= i < |fl| ==> fl[i].Apart(b)
  }

  // ---------------------------------------------------------------- splicing

  /** Entries `k .. j` replaced by `mid`. */
  function Splice(fl: seq<Block>, k: nat, j: nat, mid: seq<Block>): (r: seq<Block>)
    requires k <= j <= |fl|
    ensures |r| == k + |mid| + |fl| - j
    ensures forall i {:trigger r[i]} :: 0 <= i < k ==> r[i] == fl[i]
    ensures forall i {:trigger r[i]} :: k <= i < k + |mid| ==> r[i] == mid[i - k]
    ensures forall i {:trigger r[i]} :: k + |mid| <= i < |r| ==> r[i] == fl[i - k - |mid| + j]
  {
    fl[..k] + mid + fl[j..]
  }

  lemma SpliceWf(fl: seq<Block>, k: nat, j: nat, mid: seq<Block>)
    requires Wf(fl) && 1 <= k <= j <= |fl| && |mid| <= 1
    requires |mid| == 1 ==> mid[0].units >= 1 && Before(fl[k - 1], mid[0])
    requires |mid| == 1 && j < |fl| ==> Before(mid[0], fl[j])
    ensures Wf(Splice(fl, k, j, mid))
  {
    var r := Splice(fl, k, j, mid);
    var d := j - k - |mid|;
    forall x, y | 0 <= x < y < |r| ensures Before(r[x], r[y]) {
      if |mid| == 1 && x == k {
        if y > j - d { assert Before(fl[j], fl[y + d]); }
      } else if |mid| == 1 && y == k {
        if x < k - 1 { assert Before(fl[x], fl[k - 1]); }
      } else {
        assert Before(fl[if x < k then x else x + d], fl[if y < k then y else y + d]);
      }
    }
  }

  /** A splice keeps the units of the blocks outside `k .. j` and adds those of `mid`. */
  lemma SpliceCovers(fl: seq<Block>, k: nat, j: nat, mid: seq<Block>, u: nat)
    requires k <= j <= |fl|
    ensures Covers(Splice(fl, k, j, mid), u) <==>
            Covers(mid, u) || exists i :: 0 <= i < |fl| && !(k <= i < j) && fl[i].Has(u)
  {
    var r := Splice(fl, k, j, mid);
    var d := j - k - |mid|;
    if Covers(r, u) {
      var i :| 0 <= i < |r| && r[i].Has(u);
      if i < k {
        assert fl[i].Has(u);
      } else if i < k + |mid| {
        assert mid[i - k].Has(u);
      } else {
        assert fl[i + d].Has(u);
      }
    }
    if Covers(mid, u) {
      var i :| 0 <= i < |mid| && mid[i].Has(u);
      assert r[k + i].Has(u);
    }
    if i :| 0 <= i < |fl| && !(k <= i < j) && fl[i].Has(u) {
      assert r[if i < k then i else i - d].Has(u);
    }
  }

  // ---------------------------------------------------------------- insertion

  /** Index of the last block that starts below `a`. */
  function Place(fl: seq<Block>, a: nat): (p: nat)
    requires |fl| >= 1 && fl[0].addr < a
    ensures p < |fl| && fl[p].addr < a
    ensures p + 1 < |fl| ==> a <= fl[p + 1].addr
  {
    if fl[|fl| - 1].addr < a then |fl| - 1 else Place(fl[..|fl| - 1], a)
  }

  predicate TouchesPrevious(fl: seq<Block>, p: nat, b: Block)
    requires p < |fl|
  {
    fl[p].End == b.addr
  }

  predicate TouchesNext(fl: seq<Block>, p: nat, b: Block)
    requires p < |fl|
  {
    p + 1 < |fl| && b.End == fl[p + 1].addr
  }

  /** `b` grown over the neighbours it touches. */
  function Merged(fl: seq<Block>, p: nat, b: Block): Block
    requires p < |fl|
  {
    var lo := if TouchesPrevious(fl, p, b) then fl[p].units else 0;
    var hi := if TouchesNext(fl, p, b) then fl[p + 1].units else 0;
    Block(if TouchesPrevious(fl, p, b) then fl[p].addr else b.addr, lo + b.units + hi)
  }

  /** The list with `b` placed after entry `p`, coalesced on both sides. */
  function InsertAt(fl: seq<Block>, p: nat, b: Block): seq<Block>
    requires p < |fl|
  {
    Splice(fl,
           if TouchesPrevious(fl, p, b) then p else p + 1,
           if TouchesNext(fl, p, b) then p + 2 else p + 1,
           [Merged(fl, p, b)])
  }

  function Insert(fl: seq<Block>, b: Block): seq<Block>
    requires |fl| >= 1 && fl[0].addr < b.addr
  {
    InsertAt(fl, Place(fl, b.addr), b)
  }

  lemma InsertWf(fl: seq<Block>, b: Block)
    requires Wf(fl) && Outside(fl, b)
    ensures Wf(Insert(fl, b))
  {
    var p := Place(fl, b.addr);
    var k := if TouchesPrevious(fl, p, b) then p else p + 1;
    var j := if TouchesNext(fl, p, b) then p + 2 else p + 1;
    assert fl[p].Apart(b);
    if p + 1 < |fl| { assert fl[p + 1].Apart(b); }
    if k == p { assert Before(fl[p - 1], fl[p]); }
    if j == p + 2 && j < |fl| { assert Before(fl[p + 1], fl[p + 2]); }
    SpliceWf(fl, k, j, [Merged(fl, p, b)]);
  }

  /** Insertion adds exactly the units of `b` to the free units. */
  lemma InsertCovers(fl: seq<Block>, b: Block, u: nat)
    requires Wf(fl) && Outside(fl, b)
    ensures Covers(Insert(fl, b), u) <==> Covers(fl, u) || b.Has(u)
  {
    var p := Place(fl, b.addr);
    var k := if TouchesPrevious(fl, p, b) then p else p + 1;
    var j := if TouchesNext(fl, p, b) then p + 2 else p + 1;
    var m := Merged(fl, p, b);
    SpliceCovers(fl, k, j, [m], u);
    assert Covers([m], u) <==> m.Has(u) by {
      if m.Has(u) { assert [m][0].Has(u); }
    }
    assert m.Has(u) <==> b.Has(u) || (k == p && fl[p].Has(u)) || (j == p + 2 && fl[p + 1].Has(u));
  }

  // ---------------------------------------------------------------- removal

  /** The list after cutting `n` units off the tail of block `i` (all of it on an exact fit). */
  function Take(fl: seq<Block>, i: nat, n: nat): seq<Block>
    requires i < |fl| && n <= fl[i].units
  {
    Splice(fl, i, i + 1, if fl[i].units == n then [] else [Block(fl[i].addr, fl[i].units - n)])
  }

  /** The block that `Take` hands out. */
  function Cut(fl: seq<Block>, i: nat, n: nat): Block
    requires i < |fl| && n <= fl[i].units
  {
    Block(fl[i].End - n, n)
  }

  lemma TakeWf(fl: seq<Block>, i: nat, n: nat)
    requires Wf(fl) && 1 <= i < |fl| && 1 <= n <= fl[i].units
    ensures Wf(Take(fl, i, n))
  {
    assert Before(fl[i - 1], fl[i]);
    if i + 1 < |fl| { assert Before(fl[i], fl[i + 1]); }
    SpliceWf(fl, i, i + 1, if fl[i].units == n then [] else [Block(fl[i].addr, fl[i].units - n)]);
  }

  lemma TakeCovers(fl: seq<Block>, i: nat, n: nat, u: nat)
    requires Wf(fl) && 1 <= i < |fl| && 1 <= n <= fl[i].units
    ensures Covers(Take(fl, i, n), u) <==> Covers(fl, u) && !Cut(fl, i, n).Has(u)
  {
    var mid := if fl[i].units == n then [] else [Block(fl[i].addr, fl[i].units - n)];
    SpliceCovers(fl, i, i + 1, mid, u);
    assert Covers(mid, u) <==> fl[i].Has(u) && !Cut(fl, i, n).Has(u) by {
      if fl[i].Has(u) && !Cut(fl, i, n).Has(u) { assert mid[0].Has(u); }
    }
    forall x | 0 <= x < |fl| && x != i && fl[x].Has(u) ensures !Cut(fl, i, n).Has(u) {
      assert if x < i then Before(fl[x], fl[i]) else Before(fl[i], fl[x]);
    }
  }

  /** What was cut out no longer overlaps a free block. */
  lemma CutOutside(fl: seq<Block>, i: nat, n: nat)
    requires Wf(fl) && 1 <= i < |fl| && 1 <= n <= fl[i].units
    ensures Outside(Take(fl, i, n), Cut(fl, i, n))
  {
    var r := Take(fl, i, n);
    assert Before(fl[0], fl[i]);
    forall x | 0 <= x < |r| ensures r[x].Apart(Cut(fl, i, n)) {
      var y := if x < i || fl[i].units != n then x else x + 1;
      if y != i {
        assert if y < i then Before(fl[y], fl[i]) else Before(fl[i], fl[y]);
        assert r[x] == fl[y];
      }
    }
  }

  // ---------------------------------------------------------------- canonical form

  lemma FirstBlock(fl: seq<Block>, u: nat)
    requires Wf(fl) && Covers(fl, u)
    ensures |fl| > 1 && fl[1].addr <= u
  {
    var i :| 0 <= i < |fl| && fl[i].Has(u);
    if i > 1 { assert Before(fl[1], fl[i]); }
  }

  /** The unit just past the first block is not free: neighbours never touch. */
  lemma FirstEnds(fl: seq<Block>)
    requires Wf(fl) && |fl| > 1
    ensures fl[1].Has(fl[1].addr) && Covers(fl, fl[1].addr)
    ensures !Covers(fl, fl[1].End)
  {
    assert fl[1].Has(fl[1].addr);
    forall i | 0 <= i < |fl| ensures !fl[i].Has(fl[1].End) {
      if i > 1 { assert Before(fl[1], fl[i]); }
    }
  }

  lemma SameFirst(f: seq<Block>, g: seq<Block>)
    requires Wf(f) && Wf(g) && |f| > 1
    requires forall u: nat :: Covers(f, u) <==> Covers(g, u)
    ensures |g| > 1 && f[1] == g[1]
  {
    FirstEnds(f);
    FirstBlock(g, f[1].addr);
    FirstEnds(g);
    FirstBlock(f, g[1].addr);
    assert !g[1].Has(f[1].End);
    assert !f[1].Has(g[1].End);
  }

  lemma CoversTail(fl: seq<Block>, u: nat)
    requires Wf(fl) && |fl| > 1
    ensures Covers(Splice(fl, 1, 2, []), u) <==> Covers(fl, u) && !fl[1].Has(u)
  {
    SpliceCovers(fl, 1, 2, [], u);
    forall x | 0 <= x < |fl| && x != 1 && fl[x].Has(u) ensures !fl[1].Has(u) {
      assert x > 1 ==> Before(fl[1], fl[x]);
    }
  }

  /** A well-formed free list is determined by the set of free units: its blocks are the
      maximal runs. So the list after any history depends only on what is free, not on the
      order of the frees, the splits or the growths that led there. */
  lemma {:induction false} Canonical(f: seq<Block>, g: seq<Block>)
    requires Wf(f) && Wf(g)
    requires forall u: nat :: Covers(f, u) <==> Covers(g, u)
    ensures f == g
    decreases |f|
  {
    if |f| == 1 {
      if |g| > 1 {
        FirstEnds(g);
        FirstBlock(f, g[1].addr);
        assert false;
      }
    } else {
      SameFirst(f, g);
      var f', g' := Splice(f, 1, 2, []), Splice(g, 1, 2, []);
      forall u: nat ensures Covers(f', u) <==> Covers(g', u) {
        CoversTail(f, u);
        CoversTail(g, u);
      }
      SpliceWf(f, 1, 2, []);
      SpliceWf(g, 1, 2, []);
      Canonical(f', g');
      assert f == [f[0], f[1]] + f'[1..];
      assert g == [g[0], g[1]] + g'[1..];
    }
  }

  /** Freeing a block straight after it was cut restores the free list exactly. */
  lemma FreeUndoesMalloc(fl: seq<Block>, i: nat, n: nat)
    requires Wf(fl) && 1 <= i < |fl| && 1 <= n <= fl[i].units
    ensures Outside(Take(fl, i, n), Cut(fl, i, n))
    ensures Insert(Take(fl, i, n), Cut(fl, i, n)) == fl
  {
    var t, b := Take(fl, i, n), Cut(fl, i, n);
    TakeWf(fl, i, n);
    CutOutside(fl, i, n);
    InsertWf(t, b);
    forall u: nat ensures Covers(Insert(t, b), u) <==> Covers(fl, u) {
      InsertCovers(t, b, u);
      TakeCovers(fl, i, n, u);
      if b.Has(u) { assert fl[i].Has(u); }
    }
    Canonical(Insert(t, b), fl);
  }

  lemma StaysOutside(fl: seq<Block>, a: Block, b: Block)
    requires Wf(fl) && Outside(fl, a) && Outside(fl, b) && a.Apart(b)
    ensures Outside(Insert(fl, a), b)
  {
    var r, p := Insert(fl, a), Place(fl, a.addr);
    var k := if TouchesPrevious(fl, p, a) then p else p + 1;
    var j := if TouchesNext(fl, p, a) then p + 2 else p + 1;
    assert fl[p].Apart(b) && (p + 1 < |fl| ==> fl[p + 1].Apart(b));
    forall i | 0 <= i < |r| ensures r[i].Apart(b) {
      if i < k {
        assert fl[i].Apart(b);
      } else if i > k {
        assert fl[i - k - 1 + j].Apart(b);
      }
    }
  }

  /** Frees commute: the coalesced list does not depend on the order blocks are returned. */
  lemma FreesCommute(fl: seq<Block>, a: Block, b: Block)
    requires Wf(fl) && Outside(fl, a) && Outside(fl, b) && a.Apart(b)
    ensures Insert(Insert(fl, a), b) == Insert(Insert(fl, b), a)
  {
    StaysOutside(fl, a, b);
    StaysOutside(fl, b, a);
    var x, y := Insert(fl, a), Insert(fl, b);
    InsertWf(fl, a);
    InsertWf(fl, b);
    InsertWf(x, b);
    InsertWf(y, a);
    forall u: nat ensures Covers(Insert(x, b), u) <==> Covers(Insert(y, a), u) {
      InsertCovers(fl, a, u);
      InsertCovers(fl, b, u);
      InsertCovers(x, b, u);
      InsertCovers(y, a, u);
    }
    Canonical(Insert(x, b), Insert(y, a));
  }
}
