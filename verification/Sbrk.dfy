/** The user heap break: `sbrk` with its two page loops. */
module Sbrk {
  import opened Options
  import KernelPages
  import opened PageTables
  import opened Frames
  import opened SpaceRuns
  import opened MemoryPaging
  import opened Fork
  import opened HeapGrowth
  import Bitmap

  /** USER_HEAP_VIRTUAL_CEILING, in bytes and in pages. */
  const CEILING: nat := 0xBFEF_D000
  const TOP: nat := 786173

  // ---------------------------------------------------------------- the price of growing

  /** The `k`-th new page is the first to need the table of its slot. */
  predicate NeedsTable(m: Mem, d: nat, v: nat, k: nat)
    requires Shaped(m.ram) && d < |m.ram| && v + k < 786432
  {
    !Present(m.ram[d][(v + k) / 1024]) && (k == 0 || (v + k) % 1024 == 0)
  }

  /** Frames that mapping `n` pages from page `v` on takes. */
  function Cost(m: Mem, d: nat, v: nat, n: nat): nat
    requires Shaped(m.ram) && d < |m.ram| && v + n <= 786432
  {
    if n == 0 then 0 else Cost(m, d, v, n - 1) + if NeedsTable(m, d, v, n - 1) then 2 else 1
  }

  /** How many of `n` pages `free` frames pay for. */
  function Affordable(m: Mem, d: nat, v: nat, n: nat, free: nat): (k: nat)
    requires Shaped(m.ram) && d < |m.ram| && v + n <= 786432
    ensures k <= n && Cost(m, d, v, k) <= free
    ensures k < n ==> free < Cost(m, d, v, k + 1)
  {
    if n == 0 || Cost(m, d, v, n) <= free then n else Affordable(m, d, v, n - 1, free)
  }

  /** Costs grow with the number of pages, so the affordable number is the only one of its kind. */
  lemma {:induction false} CostGrows(m: Mem, d: nat, v: nat, k: nat, n: nat)
    requires Shaped(m.ram) && d < |m.ram| && v + n <= 786432 && k <= n
    ensures Cost(m, d, v, k) + (n - k) <= Cost(m, d, v, n)
  {
    if k < n { CostGrows(m, d, v, k, n - 1); }
  }

  lemma {:induction false} AffordableIs(m: Mem, d: nat, v: nat, n: nat, free: nat, k: nat)
    requires Shaped(m.ram) && d < |m.ram| && v + n <= 786432 && k <= n
    requires Cost(m, d, v, k) <= free && (k < n ==> free < Cost(m, d, v, k + 1))
    ensures Affordable(m, d, v, n, free) == k
  {
    var a := Affordable(m, d, v, n, free);
    if a < k { CostGrows(m, d, v, a + 1, k); }
    if k < a { CostGrows(m, d, v, k + 1, a); }
  }

  // ---------------------------------------------------------------- progress

  /** The slots of `d` that have a table: those that had one, and those of the pages added. */
  ghost predicate Slots(m: Mem, r: Mem, d: nat, v: nat, hi: nat)
    requires Shaped(m.ram) && Shaped(r.ram) && d < |m.ram| == |r.ram|
  {
    forall i {:trigger r.ram[d][i]} :: 0 <= i < 1024 ==>
      && Present(r.ram[d][i]) == (Present(m.ram[d][i]) || (v < hi && v / 1024 <= i <= (hi - 1) / 1024))
      && (Present(m.ram[d][i]) ==> Frame(r.ram[d][i]) == Frame(m.ram[d][i]))
  }

  ghost predicate Progress(s0: State, s: State, d: nat, v: nat, k: nat) {
    && v + k <= 786432 && Grown(s0, s, d, v, v + k, None) && Shaped(s0.m.ram) && Shaped(s.m.ram)
       && d < |s0.m.ram| == |s.m.ram|
    && Slots(s0.m, s.m, d, v, v + k) && |Frees(s.marks)| + Cost(s0.m, d, v, k) == |Frees(s0.marks)|
  }

  lemma ProgressStart(s: State, d: nat, v: nat)
    requires Sound(s) && IsDir(s.m, d) && v <= 786432
    ensures Progress(s, s, d, v, 0)
  {
    hide Walk, Backed, Frees;
    Parts(s);
    GrownStart(s, d, v);
  }

  /** A table is missing at page `k` exactly if the count says so. */
  lemma TableMissing(s0: State, s: State, d: nat, v: nat, k: nat)
    requires Progress(s0, s, d, v, k) && v + k < 786432
    ensures Present(s.m.ram[d][(v + k) / 1024]) <==> !NeedsTable(s0.m, d, v, k)
  {
    hide Grown, Present, Frees;
    var i := (v + k) / 1024;
    assert Present(s.m.ram[d][i]) == (Present(s0.m.ram[d][i]) || (0 < k && v / 1024 <= i <= (v + k - 1) / 1024));
  }

  /** The next page can be paid for. */
  lemma ProgressStep(s0: State, s: State, d: nat, v: nat, k: nat)
    requires Progress(s0, s, d, v, k) && v + k < 786432 && Walk(s0.m.ram, d, (v + k) / 1024, (v + k) % 1024) == None
    requires |Frees(s.marks)| >= if NeedsTable(s0.m, d, v, k) then 2 else 1
    ensures var i, j := (v + k) / 1024, (v + k) % 1024;
            OwnSlot(s, d, i) && Walk(s.m.ram, d, i, j) == None && Alloc(s).1 != 0
              && (Present(s.m.ram[d][i]) ==> Frame(s.m.ram[d][i]) < |s.m.ram|)
            && MapFresh(s, d, i, j, 7).1 && Progress(s0, MapFresh(s, d, i, j, 7).0, d, v, k + 1)
  {
    hide Walk, Backed, Frees, Present, Frame, NeedsTable, MapFresh, Accounts, Private;
    var hi := v + k;
    var i, j := hi / 1024, hi % 1024;
    TableMissing(s0, s, d, v, k);
    LowSlotOwn(s, d, i);
    SpaceRuns.Basics(s, d, i);
    assert Walk(s.m.ram, d, i, j) == Walk(s.m.ram, d, i, j);
    Index(hi);
    AllocFrees(s);
    AllocFrees(Alloc(s).0);
    NoneLeft(s);
    GrowStep(s0, s, d, v, hi, None);
    Mapped(s, d, i, j);
    MappedFrees(s, d, i, j);
    Parts(MapFresh(s, d, i, j, 7).0);
    MappedSlots(s0, s, MapFresh(s, d, i, j, 7).0, d, v, hi);
  }

  lemma NoneLeft(s: State)
    ensures |Frees(s.marks)| > 0 <==> Frees(s.marks) != {}
  {}

  lemma MappedFrees(s: State, d: nat, i: nat, j: nat)
    requires Sound(s) && OwnSlot(s, d, i) && j < 1024 && Walk(s.m.ram, d, i, j) == None
    requires Alloc(s).1 != 0 && (Present(s.m.ram[d][i]) || Alloc(Alloc(s).0).1 != 0)
    ensures |Frees(MapFresh(s, d, i, j, 7).0.marks)| == |Frees(s.marks)| - if Present(s.m.ram[d][i]) then 1 else 2
  {
    hide Walk, Backed, Frees, Present, Frame, Private;
    SpaceRuns.Basics(s, d, i);
    AllocFrees(s);
    AllocFrees(Alloc(s).0);
  }

  lemma MappedSlots(s0: State, s: State, r: State, d: nat, v: nat, hi: nat)
    requires Shaped(s0.m.ram) && Shaped(s.m.ram) && Shaped(r.m.ram) && d < |s0.m.ram| == |s.m.ram| == |r.m.ram|
    requires Slots(s0.m, s.m, d, v, hi) && v <= hi < 786432 && Present(r.m.ram[d][hi / 1024])
    requires Present(s.m.ram[d][hi / 1024]) ==> Frame(r.m.ram[d][hi / 1024]) == Frame(s.m.ram[d][hi / 1024])
    requires forall a {:trigger r.m.ram[d][a]} :: 0 <= a < 1024 && a != hi / 1024 ==> r.m.ram[d][a] == s.m.ram[d][a]
    ensures Slots(s0.m, r.m, d, v, hi + 1)
  {
    hide Present, Frame;
    forall i | 0 <= i < 1024
      ensures Present(r.m.ram[d][i]) == (Present(s0.m.ram[d][i]) || v / 1024 <= i <= hi / 1024)
      ensures Present(s0.m.ram[d][i]) ==> Frame(r.m.ram[d][i]) == Frame(s0.m.ram[d][i])
    {
      assert Present(s.m.ram[d][i]) == (Present(s0.m.ram[d][i]) || (v < hi && v / 1024 <= i <= (hi - 1) / 1024));
    }
  }

  // ---------------------------------------------------------------- the heap invariant

  /** Start and break are page aligned, the break is between start and ceiling, and of the pages from
      the start to the ceiling exactly those below the break are mapped, readable and writable. */
  ghost predicate HeapOk(s: State, d: nat, start: nat, brk: nat) {
    && Sound(s) && IsDir(s.m, d) && Shaped(s.m.ram) && d < |s.m.ram|
    && start % 4096 == 0 && brk % 4096 == 0 && start <= brk <= CEILING
    && (forall u: nat {:trigger HeapPage(s.m, d, u)} :: start / 4096 <= u < brk / 4096 ==> HeapPage(s.m, d, u))
    && (forall u: nat {:trigger Vacant(s.m, d, u)} :: brk / 4096 <= u < TOP ==> Vacant(s.m, d, u))
  }

  ghost predicate Vacant(m: Mem, d: nat, u: nat)
    requires Shaped(m.ram) && d < |m.ram| && u < 786432
  {
    Walk(m.ram, d, u / 1024, u % 1024) == None
  }

  /** The frames behind heap pages are in use, and different for different pages. */
  lemma HeapFrames(s: State, d: nat, start: nat, brk: nat, u: nat, w: nat)
    requires HeapOk(s, d, start, brk) && start / 4096 <= u < w < brk / 4096
    ensures var p, q := Walk(s.m.ram, d, u / 1024, u % 1024), Walk(s.m.ram, d, w / 1024, w % 1024);
            p.Some? && q.Some? && p.value.frame < |s.marks| && q.value.frame < |s.marks|
            && s.marks[p.value.frame] && s.marks[q.value.frame] && p.value.frame != q.value.frame
  {
    hide Present, Frame, Flags, Writable, User, Private;
    Index(u);
    Index(w);
    assert HeapPage(s.m, d, u) && HeapPage(s.m, d, w);
    Leaf(s.m, d, u / 1024, u % 1024);
    Leaf(s.m, d, w / 1024, w % 1024);
  }

  /** After `n` more pages the invariant holds with the higher break. */
  lemma HeapGrew(s0: State, s: State, d: nat, start: nat, brk: nat, n: nat)
    requires HeapOk(s0, d, start, brk) && brk + 4096 * n <= CEILING && Grown(s0, s, d, brk / 4096, brk / 4096 + n, None)
    ensures HeapOk(s, d, start, brk + 4096 * n)
  {
    hide Backed, Walk, Accounts;
    Parts(s);
    var v := brk / 4096;
    assert (brk + 4096 * n) / 4096 == v + n;
    forall u: nat | start / 4096 <= u < v + n ensures HeapPage(s.m, d, u) {
      if u < v {
        Index(u);
        assert HeapPage(s0.m, d, u);
        assert Walk(s.m.ram, d, u / 1024, u % 1024) == Walk(s0.m.ram, d, u / 1024, u % 1024);
      }
    }
    forall u: nat | v + n <= u < TOP ensures Vacant(s.m, d, u) {
      Index(u);
      assert Vacant(s0.m, d, u);
      assert Walk(s.m.ram, d, u / 1024, u % 1024) == Walk(s0.m.ram, d, u / 1024, u % 1024);
    }
  }

  /** After giving back the uppermost `n` pages it holds with the lower break. */
  lemma HeapShrunk(s0: State, s: State, d: nat, start: nat, brk: nat, n: nat)
    requires HeapOk(s0, d, start, brk) && start + 4096 * n <= brk && Grown(s, s0, d, brk / 4096 - n, brk / 4096, None)
    ensures HeapOk(s, d, start, brk - 4096 * n)
  {
    hide Backed, Walk, Accounts;
    Parts(s);
    Parts(s0);
    var v := brk / 4096;
    assert (brk - 4096 * n) / 4096 == v - n;
    forall u: nat | start / 4096 <= u < v - n ensures HeapPage(s.m, d, u) {
      Index(u);
      assert HeapPage(s0.m, d, u);
      assert Walk(s0.m.ram, d, u / 1024, u % 1024) == Walk(s.m.ram, d, u / 1024, u % 1024);
    }
    forall u: nat | v - n <= u < TOP ensures Vacant(s.m, d, u) {
      Index(u);
      assert u >= v ==> Vacant(s0.m, d, u);
      assert Walk(s0.m.ram, d, u / 1024, u % 1024) == Walk(s0.m.ram, d, u / 1024, u % 1024);
    }
  }

  /** After an unwinding it holds with the old break. */
  lemma HeapRestored(s0: State, s: State, d: nat, start: nat, brk: nat, w: nat, leak: Option<nat>)
    requires HeapOk(s0, d, start, brk) && Grown(s0, s, d, w, w, leak)
    ensures HeapOk(s, d, start, brk)
  {
    hide Backed, Walk, Accounts;
    Parts(s);
    forall u: nat | start / 4096 <= u < brk / 4096 ensures HeapPage(s.m, d, u) {
      Index(u);
      assert HeapPage(s0.m, d, u);
      assert Walk(s.m.ram, d, u / 1024, u % 1024) == Walk(s0.m.ram, d, u / 1024, u % 1024);
    }
    forall u: nat | brk / 4096 <= u < TOP ensures Vacant(s.m, d, u) {
      Index(u);
      assert Vacant(s0.m, d, u);
      assert Walk(s.m.ram, d, u / 1024, u % 1024) == Walk(s0.m.ram, d, u / 1024, u % 1024);
    }
  }

  /** With the last page left out, the break moved over an unmapped page. */
  lemma HeapBroken(s0: State, s: State, d: nat, start: nat, brk: nat, n: nat, leak: Option<nat>)
    requires HeapOk(s0, d, start, brk) && 0 < n && brk + 4096 * n <= CEILING
             && Grown(s0, s, d, brk / 4096, brk / 4096 + n - 1, leak)
    ensures !HeapOk(s, d, start, brk + 4096 * n)
  {
    hide Backed, Walk, Accounts;
    Parts(s);
    Parts(s0);
    var u := brk / 4096 + n - 1;
    assert (brk + 4096 * n) / 4096 == u + 1;
    Index(u);
    assert Vacant(s0.m, d, u);
    assert Walk(s.m.ram, d, u / 1024, u % 1024) == Walk(s0.m.ram, d, u / 1024, u % 1024);
    assert !HeapPage(s.m, d, u);
  }

  /** If every table was there already, unwinding has restored the bitmap and the owners as well. */
  lemma BitmapRestored(s0: State, s: State, d: nat, v: nat, hi: nat)
    requires Grown(s0, s, d, hi, hi, None) && Shaped(s0.m.ram) && Shaped(s.m.ram) && d < |s0.m.ram|
             && Slots(s0.m, s.m, d, v, hi)
    requires forall i {:trigger s0.m.ram[d][i]} :: 0 <= i < 1024 && v < hi && v / 1024 <= i <= (hi - 1) / 1024 ==>
               Present(s0.m.ram[d][i])
    ensures s.marks == s0.marks && s.m.owner == s0.m.owner
  {
    hide Walk, Frame, Flags, Writable, User, Present;
    assert Accounts(s0, s, d, hi, hi, None);
    forall f | f in s.m.owner ensures f in s0.m.owner {
      assert s.m.owner[f] == s.m.owner[f];
      if s.m.owner[f].Table? && s.m.owner[f].dir == d {
        assert Seated(s.m, f);
        var i := s.m.owner[f].i;
        assert Present(s.m.ram[d][i]);
        assert Present(s0.m.ram[d][i]);
        assert SlotOk(s0.m, d, i);
      }
    }
    forall f | 0 <= f < |s.marks| ensures s.marks[f] == s0.marks[f] {}
    assert s.m.owner.Keys == s0.m.owner.Keys;
    forall f | f in s0.m.owner ensures s.m.owner[f] == s0.m.owner[f] {}
  }

  lemma GrownFacts(s0: State, s: State, d: nat, lo: nat, hi: nat, leak: Option<nat>)
    requires Grown(s0, s, d, lo, hi, leak)
    ensures Sound(s0) && Sound(s) && IsDir(s0.m, d) && IsDir(s.m, d) && |s.m.ram| == |s0.m.ram|
  {}

  /** Unmapping never touches the directory. */
  lemma UnmapSlots(s: State, d: nat, i: nat, j: nat)
    requires Sound(s) && OwnSlot(s, d, i) && j < 1024 && (Present(s.m.ram[d][i]) ==> Frame(s.m.ram[d][i]) < |s.m.ram|)
    ensures var r := UnmapFree(s, d, i, j); |r.m.ram| == |s.m.ram| && r.m.ram[d] == s.m.ram[d]
  {}

  /** What growing by `n` pages from break `brk` comes to. With `k` the number of pages that the free
      frames pay for: all of them; or too few, and everything is unwound; or one frame too few, for
      the table of page `k`, and the frame meant for page `k` stays in use without an owner. Then the
      caller learns of it only if another page was to follow. */
  ghost predicate GrowResult(s0: State, s: State, d: nat, brk: nat, n: nat, ok: bool, brk': nat)
    requires Shaped(s0.m.ram) && Shaped(s.m.ram) && d < |s0.m.ram| == |s.m.ram| && brk / 4096 + n <= 786432
  {
    var v, free := brk / 4096, |Frees(s0.marks)|;
    var k := Affordable(s0.m, d, v, n, free);
    if k == n then ok && brk' == brk + 4096 * n && Grown(s0, s, d, v, v + n, None)
    else if free == Cost(s0.m, d, v, k) then
      !ok && brk' == brk && Grown(s0, s, d, v + k, v + k, None) && Slots(s0.m, s.m, d, v, v + k)
    else if k + 1 == n then ok && brk' == brk + 4096 * n && exists f :: Grown(s0, s, d, v, v + k, Some(f))
    else !ok && brk' == brk && exists f :: Grown(s0, s, d, v + k, v + k, Some(f))
  }

  /** The last page needs a table, and there is one frame less than all pages and tables need. */
  ghost predicate LosesLastPage(s: State, d: nat, brk: nat, n: nat)
    requires Shaped(s.m.ram) && d < |s.m.ram| && brk / 4096 + n <= 786432 && 0 < n
  {
    NeedsTable(s.m, d, brk / 4096, n - 1) && |Frees(s.marks)| + 1 == Cost(s.m, d, brk / 4096, n)
  }

  lemma {:induction false} ShortByOne(m: Mem, d: nat, v: nat, n: nat, free: nat)
    requires Shaped(m.ram) && d < |m.ram| && v + n <= 786432 && 0 < n
    ensures var k := Affordable(m, d, v, n, free);
            (NeedsTable(m, d, v, n - 1) && free + 1 == Cost(m, d, v, n)) <==> (k + 1 == n && free != Cost(m, d, v, k))
  {
    var k := Affordable(m, d, v, n, free);
    if k < n { CostGrows(m, d, v, k + 1, n); }
    if k + 1 < n { CostGrows(m, d, v, k + 1, n - 1); }
  }

  /** Growing keeps the heap invariant unless exactly one frame is missing and it is the one for the
      table of the last page. */
  lemma {:induction false} GrowVerdict(s0: State, s: State, d: nat, start: nat, brk: nat, n: nat, ok: bool, brk': nat)
    requires HeapOk(s0, d, start, brk) && Shaped(s0.m.ram) && Shaped(s.m.ram) && d < |s.m.ram| == |s0.m.ram|
             && brk + 4096 * n <= CEILING && 0 < n
    requires GrowResult(s0, s, d, brk, n, ok, brk')
    ensures HeapOk(s, d, start, brk') <==>
            !LosesLastPage(s0, d, brk, n)
  {
    hide Grown, HeapOk, Walk, Present, Frees, Accounts, Slots, Cost, NeedsTable, Affordable, Shaped;
    var v, free := brk / 4096, |Frees(s0.marks)|;
    ShortByOne(s0.m, d, v, n, free);
    var k := Affordable(s0.m, d, v, n, free);
    if k == n {
      HeapGrew(s0, s, d, start, brk, n);
    } else if free == Cost(s0.m, d, v, k) {
      HeapRestored(s0, s, d, start, brk, v + k, None);
    } else if k + 1 == n {
      var f :| Grown(s0, s, d, v, v + k, Some(f));
      HeapBroken(s0, s, d, start, brk, n, Some(f));
    } else {
      var f :| Grown(s0, s, d, v + k, v + k, Some(f));
      HeapRestored(s0, s, d, start, brk, v + k, Some(f));
    }
  }

  /** Over tables that are all there, a growth that runs out of frames gives back everything: break,
      map, bitmap and owners are as before. */
  lemma {:induction false} GrowRestores(s0: State, s: State, d: nat, start: nat, brk: nat, n: nat, ok: bool, brk': nat)
    requires HeapOk(s0, d, start, brk) && Shaped(s0.m.ram) && Shaped(s.m.ram) && d < |s0.m.ram| == |s.m.ram|
    requires brk + 4096 * n <= CEILING && GrowResult(s0, s, d, brk, n, ok, brk') && |Frees(s0.marks)| < n
    requires forall i {:trigger s0.m.ram[d][i]} ::
               0 <= i < 1024 && brk / 4096 / 1024 <= i <= (brk / 4096 + n - 1) / 1024 ==> Present(s0.m.ram[d][i])
    ensures !ok && brk' == brk && s.marks == s0.marks && s.m.owner == s0.m.owner && Untouched(s0.m, s.m)
  {
    hide Grown, HeapOk, Present, Frees, Accounts, Slots, Affordable;
    var v, free := brk / 4096, |Frees(s0.marks)|;
    FlatCost(s0.m, d, v, n, free);
    FlatCost(s0.m, d, v, n, free + 1);
    AffordableIs(s0.m, d, v, n, free, free);
    BitmapRestored(s0, s, d, v, v + free);
    Unwound(s0, s, d, v + free);
  }

  lemma Unwound(s0: State, s: State, d: nat, hi: nat)
    requires Grown(s0, s, d, hi, hi, None)
    ensures Tabled(s0.m) && Tabled(s.m) && |s.m.ram| == |s0.m.ram| && Untouched(s0.m, s.m)
  {
    hide Walk;
  }

  /** With every table present a page costs one frame. */
  lemma {:induction false} FlatCost(m: Mem, d: nat, v: nat, n: nat, k: nat)
    requires Shaped(m.ram) && d < |m.ram| && v + n <= 786432 && k <= n
    requires forall i {:trigger m.ram[d][i]} :: 0 <= i < 1024 && v / 1024 <= i <= (v + n - 1) / 1024 ==>
               Present(m.ram[d][i])
    ensures Cost(m, d, v, k) == k
  {
    if k > 0 {
      FlatCost(m, d, v, n, k - 1);
      assert Present(m.ram[d][(v + k - 1) / 1024]);
    }
  }

  class UserHeap {
    const paging: Paging
    const dir: nat
    const isUser: bool
    const start: nat
    var brk: nat

    ghost predicate Valid()
      reads this, paging
    {
      HeapOk(paging.Abs(), dir, start, brk)
    }

    constructor (paging: Paging, dir: nat, isUser: bool, start: nat)
      requires HeapOk(paging.Abs(), dir, start, start)
      ensures Valid() && brk == start && this.paging == paging && this.dir == dir && this.isUser == isUser
              && this.start == start
    {
      this.paging, this.dir, this.isUser, this.start, this.brk := paging, dir, isUser, start, start;
    }

    /** The unwinding loop over pages `v` to `to`; a last page without a table is skipped by it. */
    method Unwind(v: nat, to: nat, ghost s0: State, ghost hi: nat, ghost leak: Option<nat>)
      requires Grown(s0, paging.Abs(), dir, v, hi, leak) && Shaped(s0.m.ram) && Shaped(paging.ram)
               && dir < |s0.m.ram| == |paging.ram|
      requires Slots(s0.m, paging.M(), dir, v, hi)
      requires to == hi || (to == hi + 1 <= 786432 && !Present(paging.ram[dir][hi / 1024]))
      modifies paging
      ensures Grown(s0, paging.Abs(), dir, hi, hi, leak) && Shaped(paging.ram) && dir < |paging.ram| == |s0.m.ram|
      ensures Slots(s0.m, paging.M(), dir, v, hi)
    {
      hide Backed, Present, Frame, Private, Walk, Slots, UnmapFree, Accounts;
      ghost var ram := paging.ram;
      ghost var s := paging.Abs();
      var u := v;
      while u < to
        invariant v <= u <= to && Shaped(paging.ram) && |paging.ram| == |s0.m.ram| && paging.ram[dir] == ram[dir]
        invariant Grown(s0, paging.Abs(), dir, if u <= hi then u else hi, hi, leak)
        invariant Slots(s0.m, paging.M(), dir, v, hi)
      {
        s := paging.Abs();
        Index(u);
        LowSlotOwn(s, dir, u / 1024);
        SpaceRuns.Basics(s, dir, u / 1024);
        UnmapSlots(s, dir, u / 1024, u % 1024);
        if u < hi { UnwindStep(s0, s, dir, u, hi, leak); } else { UnmapNothing(s, dir, u / 1024, u % 1024); }
        paging.ReleasePage(dir, u * 4096);
        Parts(paging.Abs());
        SlotsKept(s0.m, s.m, paging.M(), dir, v, hi);
        u := u + 1;
      }
    }

    lemma SoundValid()
      requires Sound(paging.Abs())
      ensures paging.Valid()
    {}

    /** One page of the growing loop, when the frames for it are there. */
    method AddPage(u: nat, ghost s0: State, ghost v: nat, ghost k: nat) returns (got: bool, mapped: bool)
      requires u == v + k < 786432 && Sound(paging.Abs()) && Shaped(s0.m.ram) && dir < |s0.m.ram|
      requires Shaped(paging.ram) && |paging.ram| == |s0.m.ram| && Walk(s0.m.ram, dir, u / 1024, u % 1024) == None
      requires Frees(paging.marks) != {} ==> Progress(s0, paging.Abs(), dir, v, k)
      modifies paging
      ensures Shaped(paging.ram) && dir < |paging.ram| == |s0.m.ram|
      ensures var free, need := |Frees(old(paging.marks))|, if NeedsTable(s0.m, dir, v, k) then 2 else 1;
              && Shaped(s0.m.ram) && got == (free > 0) && mapped == (free >= need)
              && (mapped ==> Progress(s0, paging.Abs(), dir, v, k + 1))
              && (!got ==> paging.Abs() == old(paging.Abs()))
              && (got && !mapped ==>
                     Frees(paging.marks) == {} && Slots(s0.m, paging.M(), dir, v, u)
                     && !Present(paging.ram[dir][u / 1024]))
              && (got && !mapped ==> Grown(s0, paging.Abs(), dir, v, u, Some(Alloc(old(paging.Abs())).1)))
    {
      hide Backed, Present, Frame, Flags, Writable, User, Private, Walk, Slots, Grown, NeedsTable, Frees, MapTo,
           Bitmap.NextFree, Tabled, Pde, Pte;
      ghost var s := paging.Abs();
      Parts(s);
      NoneLeft(s);
      AllocFrees(s);
      if Frees(s.marks) != {} { PageReady(s0, s, dir, v, k); AllocFrees(Alloc(s).0); }
      var f := paging.AllocateFrame();
      if f == 0 { return false, false; }
      AllocSound(s);
      SoundValid();
      mapped := paging.Map(dir, f, u * 4096, HEAP_FLAGS);
      got := true;
      if mapped {
        paging.owner := paging.owner[f := Data(dir, u / 1024, u % 1024)];
      }
    }

    /** `syscall_sbrk_allocate_physical_memory`. */
    method GrowBy(bytes: nat) returns (ok: bool)
      requires Valid() && 0 < bytes < 0x8000_0000
      modifies this`brk, paging
      ensures Shaped(paging.ram) && Shaped(old(paging.ram)) && dir < |paging.ram| == |old(paging.ram)|
      ensures var n := (bytes + 4095) / 4096;
              if old(brk) + 4096 * n > CEILING then !ok && brk == old(brk) && paging.Abs() == old(paging.Abs())
              else GrowResult(old(paging.Abs()), paging.Abs(), dir, old(brk), n, ok, brk)
    {
      hide Backed, Present, Frame, Flags, Writable, User, Private, Walk, Slots, NeedsTable, Frees, Bitmap.NextFree,
           Tabled, Cost, Affordable,
        Accounts, GrowResult, Progress, Stranded, HeapPage, Grown, Alloc;
      var n := (bytes + 4095) / 4096;
      ghost var s0 := paging.Abs();
      Parts(s0);
      if brk + 4096 * n > CEILING { return false; }
      var v := brk / 4096;
      ProgressStart(s0, dir, v);
      ghost var stranded := false;
      ghost var leak: nat := 0;
      for k := 0 to n
        invariant brk == old(brk) && Sound(paging.Abs()) && Shaped(paging.ram) && |paging.ram| == |s0.m.ram|
        invariant if stranded then 0 < k && Stranded(s0, paging.Abs(), dir, v, k - 1, leak)
                  else Progress(s0, paging.Abs(), dir, v, k)
      {
        ghost var s := paging.Abs();
        assert Vacant(s0.m, dir, v + k);
        if stranded { StrandedFacts(s0, s, dir, v, k - 1, leak); } else { ProgressFacts(s0, s, dir, v, k); }
        var got, mapped := AddPage(v + k, s0, v, k);
        if !got {
          Unwind(v, v + k, s0, if stranded then v + k - 1 else v + k, if stranded then Some(leak) else None);
          if stranded {
            ResultStrandedMid(s0, s, paging.Abs(), dir, brk, k - 1, n, leak);
          } else {
            ResultShort(s0, s, paging.Abs(), dir, brk, k, n);
          }
          return false;
        }
        if !mapped {
          stranded, leak := true, Alloc(s).1;
          StrandedNow(s0, s, paging.Abs(), dir, v, k, leak);
        }
        if mapped {
          ProgressFacts(s0, paging.Abs(), dir, v, k + 1);
        } else {
          StrandedFacts(s0, paging.Abs(), dir, v, k, leak);
        }
      }
      if stranded {
        ResultStrandedLast(s0, paging.Abs(), dir, brk, n, leak);
      } else {
        ResultAll(s0, paging.Abs(), dir, brk, n);
      }
      brk := brk + 4096 * n;
      return true;
    }

    /** `syscall_sbrk_free_physical_memory`: compared with what is left, exactly the pages above the
        new break were there before. */
    method ShrinkBy(bytes: nat)
      requires Valid() && start + bytes <= brk
      modifies this`brk, paging
      ensures Valid() && brk == old(brk) - 4096 * ((bytes + 4095) / 4096) && |paging.ram| == |old(paging.ram)|
      ensures Grown(paging.Abs(), old(paging.Abs()), dir, brk / 4096, old(brk) / 4096, None)
    {
      hide Backed, Present, Frame, Flags, Writable, User, Private, Walk, Accounts, UnmapFree, HeapPage, Vacant, Grown;
      var n := (bytes + 4095) / 4096;
      ghost var s0 := paging.Abs();
      ghost var hi := brk / 4096;
      Parts(s0);
      GrownStart(s0, dir, hi);
      var address := brk;
      for k := 0 to n
        invariant address == 4096 * (hi - k) && brk == old(brk)
        invariant Grown(paging.Abs(), s0, dir, hi - k, hi, None)
      {
        address := address - 4096;
        ghost var s := paging.Abs();
        ghost var u := hi - k - 1;
        assert HeapPage(s0.m, dir, u);
        GrownFacts(s, s0, dir, hi - k, hi, None);
        LowSlotOwn(s, dir, u / 1024);
        SpaceRuns.Basics(s, dir, u / 1024);
        Index(u);
        ShrinkStep(s, s0, dir, hi - k, hi);
        paging.ReleasePage(dir, address);
      }
      GrownFacts(paging.Abs(), s0, dir, hi - n, hi, None);
      HeapShrunk(s0, paging.Abs(), dir, start, brk, n);
      brk := brk - 4096 * n;
    }

    /** `syscall_sbrk`: the old break, or minus an error code (1 failure, 4 out of memory). */
    method Sbrk(delta: int) returns (r: int)
      requires Valid() && -0x8000_0000 <= delta < 0x8000_0000
      modifies this`brk, paging
      ensures Shaped(paging.ram) && Shaped(old(paging.ram)) && dir < |paging.ram| == |old(paging.ram)|
      ensures var target := old(brk) + delta; var n := ((if delta > 0 then delta else -delta) + 4095) / 4096;
              if !isUser || (delta != 0 && (old(brk) == 0 || target >= CEILING || target < start)) then
                r == (if isUser && old(brk) != 0 && target >= CEILING then -4 else -1) && brk == old(brk)
                  && paging.Abs() == old(paging.Abs())
              else if delta == 0 then r == brk == old(brk) && paging.Abs() == old(paging.Abs())
              else if delta < 0 then
                && Valid() && r == old(brk) && brk == old(brk) - 4096 * n
                && Grown(paging.Abs(), old(paging.Abs()), dir, brk / 4096, old(brk) / 4096, None)
              else
                && (r == old(brk) || r == -4)
                   && GrowResult(old(paging.Abs()), paging.Abs(), dir, old(brk), n, r == old(brk), brk)
                && (Valid() <==> !LosesLastPage(old(paging.Abs()), dir, old(brk), n))
    {
      hide Backed, Grown, GrowResult, HeapPage, Vacant, Shaped, LosesLastPage;
      ghost var s0 := paging.Abs();
      Parts(paging.Abs());
      if !isUser { return -1; }
      r := brk;
      if delta == 0 { return; }
      if r == 0 { return -1; }
      var target := brk + delta;
      if target >= CEILING { return -4; }
      if target < start { return -1; }
      if delta > 0 {
        var ok := GrowBy(delta);
        GrowVerdict(s0, paging.Abs(), dir, start, old(brk), (delta + 4095) / 4096, ok, brk);
        if !ok { return -4; }
      } else {
        ShrinkBy(-delta);
        Parts(paging.Abs());
      }
    }
  }

  /** The facts the growing loop needs at page `k`. */
  lemma PageReady(s0: State, s: State, d: nat, v: nat, k: nat)
    requires v + k < 786432 && Progress(s0, s, d, v, k) && Walk(s0.m.ram, d, (v + k) / 1024, (v + k) % 1024) == None
    ensures var u := v + k; var i, j := u / 1024, u % 1024; var free := |Frees(s.marks)|;
            && Sound(s) && OwnSlot(s, d, i) && Shaped(s.m.ram) && Shaped(s0.m.ram) && d < |s.m.ram| == |s0.m.ram|
            && IsDir(s.m, d) && (Present(s.m.ram[d][i]) ==> Frame(s.m.ram[d][i]) < |s.m.ram| && Private(s.m, d, i))
            && Pde(u * 4096) == i < 768 && Pte(u * 4096) == j && Slots(s0.m, s.m, d, v, u)
            && (Present(s.m.ram[d][i]) <==> !NeedsTable(s0.m, d, v, k))
            && (free >= (if NeedsTable(s0.m, d, v, k) then 2 else 1) ==>
                  MapFresh(s, d, i, j, 7).1 && Progress(s0, MapFresh(s, d, i, j, 7).0, d, v, k + 1))
            && (free > 0 ==> Alloc(s).1 != 0 && Grown(s0, Alloc(s).0, d, v, u, Some(Alloc(s).1)))
  {
    hide Walk, Backed, Frees, Present, Frame, NeedsTable, MapFresh, Accounts, Private, Slots;
    var u := v + k;
    Index(u);
    LowSlotOwn(s, d, u / 1024);
    SpaceRuns.Basics(s, d, u / 1024);
    TableMissing(s0, s, d, v, k);
    if |Frees(s.marks)| >= (if NeedsTable(s0.m, d, v, k) then 2 else 1) { ProgressStep(s0, s, d, v, k); }
    NoneLeft(s);
    AllocFrees(s);
    if |Frees(s.marks)| > 0 { StrandStep(s0, s, d, v, u); }
  }

  lemma ProgressFacts(s0: State, s: State, d: nat, v: nat, k: nat)
    requires Progress(s0, s, d, v, k)
    ensures Sound(s) && Shaped(s0.m.ram) && Shaped(s.m.ram) && d < |s0.m.ram| == |s.m.ram|
    ensures v + k <= 786432 && Grown(s0, s, d, v, v + k, None) && Slots(s0.m, s.m, d, v, v + k)
  {}

  /** Page `k` got a frame, its table did not. */
  ghost predicate Stranded(s0: State, s: State, d: nat, v: nat, k: nat, leak: nat) {
    && v + k < 786432 && Grown(s0, s, d, v, v + k, Some(leak)) && Shaped(s0.m.ram) && Shaped(s.m.ram)
       && d < |s0.m.ram| == |s.m.ram|
    && Slots(s0.m, s.m, d, v, v + k) && Frees(s.marks) == {} && !Present(s.m.ram[d][(v + k) / 1024])
    && NeedsTable(s0.m, d, v, k) && |Frees(s0.marks)| == Cost(s0.m, d, v, k) + 1
  }

  lemma StrandedFacts(s0: State, s: State, d: nat, v: nat, k: nat, leak: nat)
    requires Stranded(s0, s, d, v, k, leak)
    ensures Sound(s) && Shaped(s0.m.ram) && Shaped(s.m.ram) && d < |s0.m.ram| == |s.m.ram| && v + k < 786432
    ensures Grown(s0, s, d, v, v + k, Some(leak)) && Slots(s0.m, s.m, d, v, v + k) && Frees(s.marks) == {}
            && !Present(s.m.ram[d][(v + k) / 1024])
  {}

  lemma StrandedNow(s0: State, s: State, r: State, d: nat, v: nat, k: nat, leak: nat)
    requires Progress(s0, s, d, v, k) && v + k < 786432 && Shaped(r.m.ram) && |r.m.ram| == |s0.m.ram|
    requires 0 < |Frees(s.marks)| < (if NeedsTable(s0.m, d, v, k) then 2 else 1)
    requires Grown(s0, r, d, v, v + k, Some(leak)) && Slots(s0.m, r.m, d, v, v + k) && Frees(r.marks) == {}
             && !Present(r.m.ram[d][(v + k) / 1024])
    ensures Stranded(s0, r, d, v, k, leak)
  {
    hide Grown, Slots, Cost, NeedsTable, Present;
  }

  lemma {:induction false} ResultAll(s0: State, s: State, d: nat, brk: nat, n: nat)
    requires Progress(s0, s, d, brk / 4096, n)
    ensures Shaped(s0.m.ram) && Shaped(s.m.ram) && d < |s0.m.ram| == |s.m.ram| && brk / 4096 + n <= 786432
    ensures GrowResult(s0, s, d, brk, n, true, brk + 4096 * n)
  {
    hide Grown, Slots, Affordable;
    AffordableIs(s0.m, d, brk / 4096, n, |Frees(s0.marks)|, n);
  }

  lemma {:induction false} ResultShort(s0: State, s: State, r: State, d: nat, brk: nat, k: nat, n: nat)
    requires Progress(s0, s, d, brk / 4096, k) && k < n && brk / 4096 + n <= 786432 && Frees(s.marks) == {}
    requires Shaped(r.m.ram) && |r.m.ram| == |s.m.ram| && Slots(s0.m, r.m, d, brk / 4096, brk / 4096 + k)
    requires Grown(s0, r, d, brk / 4096 + k, brk / 4096 + k, None)
    ensures GrowResult(s0, r, d, brk, n, false, brk)
  {
    hide Grown, Slots, Affordable;
    AffordableIs(s0.m, d, brk / 4096, n, |Frees(s0.marks)|, k);
  }

  lemma {:induction false} ResultStrandedLast(s0: State, s: State, d: nat, brk: nat, n: nat, leak: nat)
    requires 0 < n && Stranded(s0, s, d, brk / 4096, n - 1, leak)
    ensures Shaped(s0.m.ram) && Shaped(s.m.ram) && d < |s0.m.ram| == |s.m.ram| && brk / 4096 + n <= 786432
    ensures GrowResult(s0, s, d, brk, n, true, brk + 4096 * n)
  {
    hide Grown, Slots, Affordable;
    AffordableIs(s0.m, d, brk / 4096, n, |Frees(s0.marks)|, n - 1);
  }

  lemma {:induction false} ResultStrandedMid(s0: State, s: State, r: State, d: nat, brk: nat, k: nat, n: nat, leak: nat)
    requires Stranded(s0, s, d, brk / 4096, k, leak) && k + 1 < n && brk / 4096 + n <= 786432
    requires Shaped(r.m.ram) && |r.m.ram| == |s.m.ram| && Grown(s0, r, d, brk / 4096 + k, brk / 4096 + k, Some(leak))
    ensures GrowResult(s0, r, d, brk, n, false, brk)
  {
    hide Grown, Slots, Affordable;
    AffordableIs(s0.m, d, brk / 4096, n, |Frees(s0.marks)|, k);
  }

  lemma UnmapNothing(s: State, d: nat, i: nat, j: nat)
    requires Sound(s) && OwnSlot(s, d, i) && j < 1024 && d < |s.m.ram| && Shaped(s.m.ram) && !Present(s.m.ram[d][i])
    ensures UnmapFree(s, d, i, j) == s
  {}

  lemma SlotsKept(m: Mem, a: Mem, r: Mem, d: nat, v: nat, hi: nat)
    requires Shaped(m.ram) && Shaped(a.ram) && Shaped(r.ram) && d < |m.ram| == |a.ram| == |r.ram|
    requires Slots(m, a, d, v, hi) && r.ram[d] == a.ram[d]
    ensures Slots(m, r, d, v, hi)
  {
    hide Present, Frame;
    forall i | 0 <= i < 1024
      ensures Present(r.ram[d][i]) == (Present(m.ram[d][i]) || (v < hi && v / 1024 <= i <= (hi - 1) / 1024))
      ensures Present(m.ram[d][i]) ==> Frame(r.ram[d][i]) == Frame(m.ram[d][i])
    {
      assert a.ram[d][i] == r.ram[d][i];
    }
  }

  // ---------------------------------------------------------------- a heap that loses its page

  /** One address space in frame 2 and one frame left: growing its empty heap at 4 MB by a page takes
      that frame for the page, finds none for the table, and reports success. */
  lemma HeapCanLosePage()
    ensures exists s, d, brk :: HeapOk(s, d, brk, brk) && LosesLastPage(s, d, brk, 1)
  {
    hide Backed, Walk, NewDir, KernelPages.TinyKernel, LosesLastPage;
    KernelPages.TinyKernelOk();
    var m0 := KernelPages.TinyKernel();
    NewDirOk(m0, 2);
    NewDirShape(m0, 2);
    var s := State(NewDir(m0, 2), [true, true, true, false], 0);
    TinyHeap(m0, s);
    assert HeapOk(s, 2, 4194304, 4194304) && LosesLastPage(s, 2, 4194304, 1);
  }

  lemma TinyHeap(m0: Mem, s: State)
    requires Backed(m0) && |m0.ram| == 4 && m0.kernel == 1 && m0.owner == map[1 := Kernel]
    requires s == State(NewDir(m0, 2), [true, true, true, false], 0) && Backed(s.m)
             && s.m.owner == m0.owner[2 := Directory] && |s.m.ram| == 4
    requires forall i, j {:trigger Walk(s.m.ram, 2, i, j)} :: 0 <= i < 1023 && 0 <= j < 1024 ==>
               Walk(s.m.ram, 2, i, j) == if i < 768 then None else Walk(m0.ram, 1, i, j)
    ensures HeapOk(s, 2, 4194304, 4194304) && LosesLastPage(s, 2, 4194304, 1)
  {
    hide Walk, HeapPage;
    assert Sound(s);
    Parts(s);
    forall u: nat | 1024 <= u < TOP ensures Vacant(s.m, 2, u) { Index(u); }
    Constants();
    assert s.m.ram[2][1] == 0;
    assert NeedsTable(s.m, 2, 1024, 0);
    assert Frees(s.marks) == {3};
    assert Cost(s.m, 2, 1024, 1) == 2 by { assert Cost(s.m, 2, 1024, 0) == 0; }
  }
}
