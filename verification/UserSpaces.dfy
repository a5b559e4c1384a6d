/** The user pages of an address space as its directory maps them, and mapping a run of fresh pages. */
module UserSpaces {
  import opened Options
  import opened PageTables
  import opened Frames
  import opened SpaceRuns
  import opened MemoryPaging
  import opened Fork
  import opened HeapGrowth
  import opened Sbrk
  import opened UserMemory

  /** Mapped bytes keep their contents and pages stay mapped. */
  ghost predicate Extends(pages: map<nat, nat>, frames: Contents, pages': map<nat, nat>, frames': Contents) {
    && Laid(pages, frames) && Laid(pages', frames') && |frames| == |frames'|
    && (forall p {:trigger p in pages'} {:trigger pages[p]} :: p in pages ==> p in pages' && pages'[p] == pages[p])
    && (forall a: nat {:trigger ByteAt(pages', frames', a)} :: a / 4096 in pages ==>
           a / 4096 in pages' && ByteAt(pages', frames', a) == ByteAt(pages, frames, a))
  }

  lemma ExtendsTrans(p: map<nat, nat>, f: Contents, q: map<nat, nat>, g: Contents, r: map<nat, nat>, h: Contents)
    requires Extends(p, f, q, g) && Extends(q, g, r, h)
    ensures Extends(p, f, r, h)
  {
    forall a: nat | a / 4096 in p ensures a / 4096 in r && ByteAt(r, h, a) == ByteAt(p, f, a) {
      assert ByteAt(q, g, a) == ByteAt(p, f, a);
    }
  }

  lemma ExtendsSame(pages: map<nat, nat>, frames: Contents)
    requires Laid(pages, frames)
    ensures Extends(pages, frames, pages, frames)
  {}

  // ---------------------------------------------------------------- from walks to pages

  /** The user pages of a directory, as its walks give them. */
  ghost function PagesOf(m: Mem, d: nat): map<nat, nat>
    requires Shaped(m.ram) && d < |m.ram|
  {
    map u: nat | u < 786432 && Walk(m.ram, d, u / 1024, u % 1024).Some? ::
        Walk(m.ram, d, u / 1024, u % 1024).value.frame
  }

  /** They have frames of their own, all in use: what a process space is made of. */
  lemma PagesLaid(s: State, d: nat, frames: Contents)
    requires Sound(s) && IsDir(s.m, d) && Sized(frames) && |frames| == |s.m.ram|
    ensures Shaped(s.m.ram) && d < |s.m.ram| && Laid(PagesOf(s.m, d), frames)
    ensures forall u {:trigger PagesOf(s.m, d)[u]} :: u in PagesOf(s.m, d) ==> s.marks[PagesOf(s.m, d)[u]]
  {
    hide Present, Frame, Flags, Writable, User, Private, Walk;
    Parts(s);
    var pages := PagesOf(s.m, d);
    forall u | u in pages ensures 0 < pages[u] < |frames| && Is(s.m, pages[u], Data(d, u / 1024, u % 1024)) {
      Index(u);
      Leaf(s.m, d, u / 1024, u % 1024);
    }
    forall u, w | u in pages && w in pages && pages[u] == pages[w] ensures u == w {
      assert Is(s.m, pages[u], Data(d, u / 1024, u % 1024)) && Is(s.m, pages[w], Data(d, w / 1024, w % 1024));
      Index(u);
      Index(w);
    }
  }

  /** A map changes the pages at one place. */
  lemma PagesMapped(s: State, r: State, d: nat, u: nat, f: nat)
    requires Sound(s) && Sound(r) && IsDir(s.m, d) && |r.m.ram| == |s.m.ram| && Shaped(s.m.ram) && Shaped(r.m.ram)
             && d < |s.m.ram|
    requires u < 786432 && OnlyAt(s.m, r.m, d, u / 1024, u % 1024)
    requires Walk(r.m.ram, d, u / 1024, u % 1024).Some? && Walk(r.m.ram, d, u / 1024, u % 1024).value.frame == f
    ensures PagesOf(r.m, d) == PagesOf(s.m, d)[u := f]
  {
    hide Walk, Backed;
    var a, b := PagesOf(s.m, d), PagesOf(r.m, d);
    forall w: nat | w < 786432 && w != u
      ensures Walk(r.m.ram, d, w / 1024, w % 1024) == Walk(s.m.ram, d, w / 1024, w % 1024) {
      Index(w);
      Index(u);
    }
  }

  /** The space shows what directory `d` maps. */
  ghost predicate Coupled(s: Space, p: Paging, d: nat)
    reads s, p
  {
    && s.Valid() && Sound(p.Abs()) && IsDir(p.M(), d) && Shaped(p.ram) && d < |p.ram|
    && |s.frames| == |p.ram| && s.pages == PagesOf(p.M(), d)
  }

  /** Without enough frames for the page and its table the map fails and changes nothing. */
  lemma MapFreshShort(s: State, d: nat, i: nat, j: nat)
    requires Sound(s) && OwnSlot(s, d, i) && j < 1024 && Walk(s.m.ram, d, i, j) == None
    requires |Frees(s.marks)| < if Present(s.m.ram[d][i]) then 1 else 2
    ensures Present(s.m.ram[d][i]) ==> Frame(s.m.ram[d][i]) < |s.m.ram|
    ensures var (r, ok) := MapFresh(s, d, i, j, 7); !ok && r.m == s.m && r.marks == s.marks
  {
    hide Walk, Backed, Frees, Present, Frame, Private;
    SpaceRuns.Basics(s, d, i);
    MapFreshOk(s, d, i, j, 7);
    NoneLeft(s);
    NoneLeft(Alloc(s).0);
    AllocFrees(s);
    AllocFrees(Alloc(s).0);
  }

  /** One page of the mapping loop. */
  method MapOne(s: Space, p: Paging, d: nat, u: nat, ghost s0: State, ghost v: nat, ghost k: nat) returns (ok: bool)
    requires Coupled(s, p, d) && u == v + k < 786432 && u !in s.pages && Progress(s0, p.Abs(), d, v, k)
    requires Shaped(s0.m.ram) && d < |s0.m.ram| && Walk(s0.m.ram, d, u / 1024, u % 1024) == None
    modifies s`pages, p
    ensures Coupled(s, p, d) && Extends(old(s.pages), s.frames, s.pages, s.frames)
    ensures Shaped(s0.m.ram) && d < |s0.m.ram| && |p.ram| == |s0.m.ram|
    ensures ok == (|Frees(old(p.marks))| >= if NeedsTable(s0.m, d, v, k) then 2 else 1)
    ensures ok ==> Progress(s0, p.Abs(), d, v, k + 1) && u in s.pages && s.pages.Keys == old(s.pages.Keys) + {u}
    ensures !ok ==> s.pages == old(s.pages) && Progress(s0, p.Abs(), d, v, k)
  {
    hide Walk, Backed, Frees, Present, Frame, Private, Progress, Grown, Slots, NeedsTable, PagesOf, Extends, MapFresh,
         OnlyAt;
    ghost var before := p.Abs();
    PageReady(s0, before, d, v, k);
    var i, j := u / 1024, u % 1024;
    Index(u);
    assert Walk(before.m.ram, d, i, j) == None by { NotYet(before.m, d, u); }
    MapFreshOk(before, d, i, j, 7);
    if |Frees(before.marks)| < (if NeedsTable(s0.m, d, v, k) then 2 else 1) { MapFreshShort(before, d, i, j); }
    PagesLaid(before, d, s.frames);
    ok := p.MapFreshPage(d, u * 4096, HEAP_FLAGS);
    if !ok {
      ExtendsSame(s.pages, s.frames);
      ProgressSame(s0, before, p.Abs(), d, v, k);
      return;
    }
    Parts(p.Abs());
    SpaceRuns.Basics(p.Abs(), d, i);
    var physical := p.Translate(d, u * 4096);
    var f := physical / 4096;
    PagesMapped(before, p.Abs(), d, u, f);
    PagesLaid(p.Abs(), d, s.frames);
    PageAdded(s.pages, s.frames, u, f);
    s.pages := s.pages[u := f];
  }

  lemma NotYet(m: Mem, d: nat, u: nat)
    requires Shaped(m.ram) && d < |m.ram| && u < 786432 && u !in PagesOf(m, d)
    ensures Walk(m.ram, d, u / 1024, u % 1024) == None
  {}

  lemma PageAdded(pages: map<nat, nat>, frames: Contents, u: nat, f: nat)
    requires Laid(pages, frames) && Laid(pages[u := f], frames) && u !in pages
    ensures Extends(pages, frames, pages[u := f], frames)
  {}

  /** A failed map moves the allocator's hint at most. */
  lemma ProgressSame(s0: State, s: State, r: State, d: nat, v: nat, k: nat)
    requires Progress(s0, s, d, v, k) && r.m == s.m && r.marks == s.marks && Sound(r)
    ensures Progress(s0, r, d, v, k)
  {
    hide Walk, Accounts, Backed, Frees;
    Parts(s0);
    Parts(s);
    assert Accounts(s0, s, d, v, v + k, None);
    AccountsSame(s0, s, r, d, v, v + k);
    forall x, a, b | (IsDir(s0.m, x) || x == s0.m.kernel) && 0 <= a < 1023 && 0 <= b < 1024
      ensures if x == d && v <= a * 1024 + b < v + k then Walk(s0.m.ram, x, a, b) == None
              else Walk(r.m.ram, x, a, b) == Walk(s0.m.ram, x, a, b)
    {
      assert Walk(s.m.ram, x, a, b) == Walk(r.m.ram, x, a, b);
    }
  }

  lemma AccountsSame(s0: State, s: State, r: State, d: nat, lo: nat, hi: nat)
    requires Accounts(s0, s, d, lo, hi, None) && r.m == s.m && r.marks == s.marks
    ensures Accounts(s0, r, d, lo, hi, None)
  {
    forall f | 0 <= f < |r.marks| ensures r.marks[f] == (s0.marks[f] || (f in r.m.owner && f !in s0.m.owner)) {
      assert s.marks[f] == (s0.marks[f] || (f in s.m.owner && f !in s0.m.owner));
    }
    forall f | f in s0.m.owner ensures f in r.m.owner && r.m.owner[f] == s0.m.owner[f] {
      assert s.m.owner[f] == s0.m.owner[f];
    }
  }

  /** A mapping loop over `n` pages from page `v` on, where nothing is mapped: it maps as many of them, in
      order, as there are frames for pages and missing tables. A run that fails keeps what it mapped. */
  method MapRange(s: Space, p: Paging, d: nat, v: nat, n: nat) returns (ok: bool)
    requires Coupled(s, p, d) && v + n <= 786432 && forall u: nat {:trigger u in s.pages} :: v <= u < v + n ==>
               u !in s.pages
    modifies s`pages, p
    ensures Coupled(s, p, d) && Extends(old(s.pages), s.frames, s.pages, s.frames) && Shaped(old(p.ram))
            && d < |old(p.ram)| == |p.ram|
    ensures ok == (Cost(old(p.M()), d, v, n) <= |Frees(old(p.marks))|)
    ensures var k := Affordable(old(p.M()), d, v, n, |Frees(old(p.marks))|);
            && ok == (k == n) && Progress(old(p.Abs()), p.Abs(), d, v, k)
            && (forall u: nat {:trigger u in s.pages} :: u in s.pages <==> u in old(s.pages) || v <= u < v + k)
            && (!ok ==> |Frees(p.marks)| < if NeedsTable(old(p.M()), d, v, k) then 2 else 1)
  {
    hide Walk, Backed, Frees, Progress, PagesOf, Extends, Laid, Cost, Present, Frame, Affordable, NeedsTable;
    ghost var s0, pages, frames := p.Abs(), s.pages, s.frames;
    ProgressStart(s0, d, v);
    ExtendsSame(pages, frames);
    for k := 0 to n
      invariant Coupled(s, p, d) && Progress(s0, p.Abs(), d, v, k) && s.frames == frames
                && Extends(pages, frames, s.pages, frames)
      invariant |p.ram| == |s0.m.ram|
      invariant forall u: nat {:trigger u in s.pages} :: u in s.pages <==> u in pages || v <= u < v + k
    {
      ghost var p1, free := s.pages, |Frees(p.marks)|;
      NotYet(s0.m, d, v + k);
      PaidSoFar(s0, p.Abs(), d, v, k);
      ok := MapOne(s, p, d, v + k, s0, v, k);
      ExtendsTrans(pages, frames, p1, frames, s.pages, frames);
      if !ok {
        TooDear(s0.m, d, v, k, n, |Frees(s0.marks)|, free);
        PaidSoFar(s0, p.Abs(), d, v, k);
        return;
      }
    }
    PaidSoFar(s0, p.Abs(), d, v, n);
    AffordableIs(s0.m, d, v, n, |Frees(s0.marks)|, n);
    ok := true;
  }

  lemma PaidSoFar(s0: State, s: State, d: nat, v: nat, k: nat)
    requires Progress(s0, s, d, v, k)
    ensures Shaped(s0.m.ram) && d < |s0.m.ram| && v + k <= 786432
            && |Frees(s.marks)| + Cost(s0.m, d, v, k) == |Frees(s0.marks)|
  {}

  lemma {:induction false} TooDear(m: Mem, d: nat, v: nat, k: nat, n: nat, all: nat, free: nat)
    requires Shaped(m.ram) && d < |m.ram| && v + n <= 786432 && k < n && free + Cost(m, d, v, k) == all
    requires free < if NeedsTable(m, d, v, k) then 2 else 1
    ensures all < Cost(m, d, v, n) && Affordable(m, d, v, n, all) == k
  {
    hide Affordable;
    CostGrows(m, d, v, k + 1, n);
    AffordableIs(m, d, v, n, all, k);
  }

  // ---------------------------------------------------------------- what a directory has taken

  /** Since `s0` nothing but `d` took frames, each of them free before, and nothing was given back. */
  ghost predicate Taken(s0: State, s: State, d: nat) {
    && |s.marks| == |s0.marks|
    && (forall f {:trigger s.marks[f]} :: 0 <= f < |s.marks| ==>
          s.marks[f] == (s0.marks[f] || (f in s.m.owner && f !in s0.m.owner)))
    && (forall f {:trigger s0.m.owner[f]} :: f in s0.m.owner ==> f in s.m.owner && s.m.owner[f] == s0.m.owner[f])
    && (forall f {:trigger s.m.owner[f]} :: f in s.m.owner && f !in s0.m.owner ==>
          f < |s0.marks| && !s0.marks[f] && Mine(s.m.owner, f, d))
  }

  lemma TakenNothing(s: State, d: nat)
    ensures Taken(s, s, d)
  {}

  lemma TakenProgress(s0: State, s: State, d: nat, v: nat, k: nat)
    requires Progress(s0, s, d, v, k)
    ensures Taken(s0, s, d)
  {
    hide Walk, Frees, Cost, Slots, Sound;
    assert Accounts(s0, s, d, v, v + k, None);
  }

  lemma TakenTrans(a: State, b: State, c: State, d: nat)
    requires Taken(a, b, d) && Taken(b, c, d)
    ensures Taken(a, c, d)
  {
    forall f | f in c.m.owner && f !in a.m.owner ensures f < |a.marks| && !a.marks[f] && Mine(c.m.owner, f, d) {
      if f in b.m.owner { assert c.m.owner[f] == b.m.owner[f]; } else { assert !b.marks[f]; }
    }
    forall f | 0 <= f < |c.marks| ensures c.marks[f] == (a.marks[f] || (f in c.m.owner && f !in a.m.owner)) {
      assert b.marks[f] == (a.marks[f] || (f in b.m.owner && f !in a.m.owner));
      assert f in b.m.owner ==> f in c.m.owner;
      assert f in a.m.owner ==> f in b.m.owner;
    }
    forall f | f in a.m.owner ensures f in c.m.owner && c.m.owner[f] == a.m.owner[f] {
      assert b.m.owner[f] == a.m.owner[f];
    }
  }

  /** Without the frames of `d` the map and the owners are as they were. */
  lemma TakenOthers(s0: State, s: State, d: nat)
    requires Taken(s0, s, d)
    ensures SameOthers(s0, s, d)
  {
    var a, b := OthersMarks(s0.marks, s0.m.owner, d), OthersMarks(s.marks, s.m.owner, d);
    forall f | 0 <= f < |a| ensures a[f] == b[f] {
      assert s.marks[f] == (s0.marks[f] || (f in s.m.owner && f !in s0.m.owner));
      if f in s0.m.owner { assert s.m.owner[f] == s0.m.owner[f]; }
      if f in s.m.owner && f !in s0.m.owner { assert s.m.owner[f] == s.m.owner[f]; }
    }
    var x, y := OthersOwners(s0.m.owner, d), OthersOwners(s.m.owner, d);
    forall f ensures f in x <==> f in y {
      if f in s0.m.owner { assert s.m.owner[f] == s0.m.owner[f]; }
      if f in s.m.owner && f !in s0.m.owner { assert s.m.owner[f] == s.m.owner[f]; }
    }
    forall f | f in x ensures x[f] == y[f] { assert s.m.owner[f] == s0.m.owner[f]; }
  }

  /** The map is as before exactly if as many frames are free as before. */
  lemma TakenCount(s0: State, s: State, d: nat)
    requires Taken(s0, s, d)
    ensures |Frees(s.marks)| <= |Frees(s0.marks)|
    ensures s.marks == s0.marks <==> |Frees(s.marks)| == |Frees(s0.marks)|
  {
    var a, b := Frees(s0.marks), Frees(s.marks);
    assert a == b + (a - b);
    assert a - b == {} <==> a == b;
    if a == b {
      forall f | 0 <= f < |s.marks| ensures s.marks[f] == s0.marks[f] { assert f in a <==> f in b; }
      assert s.marks == s0.marks;
    }
  }

  // ---------------------------------------------------------------- the price in slots

  /** The user slots of `d` that have a table. */
  ghost function HasTable(m: Mem, d: nat): set<nat>
    requires Shaped(m.ram) && d < |m.ram|
  {
    set i: nat | i < 768 && Present(m.ram[d][i])
  }

  /** The slots that `n` pages from page `v` on lie in. */
  function SlotsOf(v: nat, n: nat): set<nat> { set i: nat | i < 768 && Reaches(v, n, i) }

  predicate Reaches(v: nat, n: nat, i: nat) { n > 0 && v / 1024 <= i <= (v + n - 1) / 1024 }

  /** A run costs a frame for each page and for each of its slots that has no table. */
  lemma {:induction false} CostInSlots(m: Mem, d: nat, v: nat, n: nat)
    requires Shaped(m.ram) && d < |m.ram| && v + n <= 786432
    ensures Cost(m, d, v, n) == n + |SlotsOf(v, n) - HasTable(m, d)|
  {
    hide Present, NeedsTable, SlotsOf, HasTable;
    if n == 0 {
      NoSlots(v);
      assert SlotsOf(v, 0) - HasTable(m, d) == {};
    } else {
      CostInSlots(m, d, v, n - 1);
      LastSlot(v, n);
      TableNeeded(m, d, v, n);
      OneMore(SlotsOf(v, n - 1), HasTable(m, d), (v + n - 1) / 1024);
    }
  }

  lemma NoSlots(v: nat)
    ensures SlotsOf(v, 0) == {}
  {}

  lemma OneMore(a: set<nat>, b: set<nat>, i: nat)
    ensures |(a + {i}) - b| == |a - b| + if i in a || i in b then 0 else 1
  {
    if i in a || i in b { assert (a + {i}) - b == a - b; } else { assert (a + {i}) - b == (a - b) + {i}; }
  }

  lemma TableNeeded(m: Mem, d: nat, v: nat, n: nat)
    requires Shaped(m.ram) && d < |m.ram| && 0 < n && v + n <= 786432
    ensures var i := (v + n - 1) / 1024; NeedsTable(m, d, v, n - 1) <==> i !in SlotsOf(v, n - 1) && i !in HasTable(m, d)
  {
    hide Present;
    LastSlot(v, n);
  }

  lemma LastSlot(v: nat, n: nat)
    requires 0 < n && v + n <= 786432
    ensures SlotsOf(v, n) == SlotsOf(v, n - 1) + {(v + n - 1) / 1024}
    ensures (v + n - 1) / 1024 in SlotsOf(v, n - 1) <==> n > 1 && (v + n - 1) % 1024 != 0
  {
    assert n > 1 && (v + n - 1) % 1024 != 0 ==> (v + n - 2) / 1024 == (v + n - 1) / 1024;
    assert (v + n - 1) % 1024 == 0 ==> (v + n - 1) / 1024 == v / 1024 || (v + n - 2) / 1024 < (v + n - 1) / 1024;
  }

  /** After the run its slots have tables. */
  lemma TablesAfter(s0: State, s: State, d: nat, v: nat, n: nat)
    requires Progress(s0, s, d, v, n)
    ensures Shaped(s0.m.ram) && Shaped(s.m.ram) && d < |s0.m.ram| && d < |s.m.ram|
    ensures HasTable(s.m, d) == HasTable(s0.m, d) + SlotsOf(v, n)
  {
    hide Grown, Present, Frame, Frees;
    forall i: nat ensures i in HasTable(s.m, d) <==> i in HasTable(s0.m, d) + SlotsOf(v, n) {
      if i < 768 {
        assert Present(s.m.ram[d][i]) ==
                 (Present(s0.m.ram[d][i]) || (v < v + n && v / 1024 <= i <= (v + n - 1) / 1024));
      }
    }
  }
}
