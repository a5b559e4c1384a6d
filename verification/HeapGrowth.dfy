/** Growing and unwinding a user heap page by page: what is mapped, what is in use, and what is lost.
    Pages are numbered from the bottom of the address space, 1024 to a table. */
module HeapGrowth {
  import opened Options
  import opened PageTables
  import opened Frames
  import opened SpaceRuns
  import opened MemoryPaging
  import opened Fork
  import Bitmap

  /** A page of the user's, readable and writable. */
  ghost predicate HeapPage(m: Mem, d: nat, u: nat)
    requires Shaped(m.ram) && d < |m.ram| && u < 786432
  {
    var w := Walk(m.ram, d, u / 1024, u % 1024);
    w.Some? && w.value.writable && w.value.user
  }

  /** `PAGE_PRESENT | PAGE_USER | PAGE_READ_WRITE`. */
  const HEAP_FLAGS: nat := 7

  /** Frames in use are those of `s0`, those newly owned, and the one that got lost. */
  ghost predicate Accounts(s0: State, s: State, d: nat, lo: nat, hi: nat, leak: Option<nat>) {
    && |s.marks| == |s0.marks|
    && (forall f {:trigger s.marks[f]} :: 0 <= f < |s.marks| ==>
          s.marks[f] == (s0.marks[f] || (f in s.m.owner && f !in s0.m.owner) || leak == Some(f)))
    && (forall f {:trigger s0.m.owner[f]} :: f in s0.m.owner ==> f in s.m.owner && s.m.owner[f] == s0.m.owner[f])
    && (forall f {:trigger s.m.owner[f]} :: f in s.m.owner && f !in s0.m.owner ==>
          && f < |s0.marks| && !s0.marks[f]
          && match s.m.owner[f]
             case Table(e, _) => e == d
             case Data(e, i, j) => e == d && lo <= i * 1024 + j < hi
             case _ => false)
    && (leak.Some? ==> leak.value < |s.marks| && !s0.marks[leak.value] && leak.value !in s.m.owner)
  }

  /** Compared with `s0` exactly the pages from `lo` to `hi` of `d` have been added. */
  ghost predicate Grown(s0: State, s: State, d: nat, lo: nat, hi: nat, leak: Option<nat>) {
    && Sound(s0) && Sound(s) && IsDir(s0.m, d) && IsDir(s.m, d) && |s.m.ram| == |s0.m.ram| && s.m.kernel == s0.m.kernel
    && lo <= hi <= 786432
    && (forall x, a, b {:trigger Walk(s.m.ram, x, a, b)} ::
           (IsDir(s0.m, x) || x == s0.m.kernel) && 0 <= a < 1023 && 0 <= b < 1024 ==>
          if x == d && lo <= a * 1024 + b < hi then Walk(s0.m.ram, x, a, b) == None
            else Walk(s.m.ram, x, a, b) == Walk(s0.m.ram, x, a, b))
    && (forall u: nat {:trigger HeapPage(s.m, d, u)} :: lo <= u < hi ==> HeapPage(s.m, d, u))
    && Accounts(s0, s, d, lo, hi, leak)
  }

  lemma GrownStart(s: State, d: nat, v: nat)
    requires Sound(s) && IsDir(s.m, d) && v <= 786432
    ensures Grown(s, s, d, v, v, None)
  {
    hide Walk;
  }

  lemma Index(u: nat)
    requires u < 786432
    ensures u / 1024 < 768 && u % 1024 < 1024 && u == u / 1024 * 1024 + u % 1024 && Pde(u * 4096) == u / 1024
            && Pte(u * 4096) == u % 1024
  {
    assert u * 4096 / 4194304 == u / 1024;
  }

  /** The state after a page has been mapped, with its frame and, if needed, the frame of its table. */
  lemma Mapped(s: State, d: nat, i: nat, j: nat)
    requires Sound(s) && OwnSlot(s, d, i) && j < 1024 && Walk(s.m.ram, d, i, j) == None
    requires Alloc(s).1 != 0 && (Present(s.m.ram[d][i]) || Alloc(Alloc(s).0).1 != 0)
    ensures var r := MapFresh(s, d, i, j, 7).0; var f := Alloc(s).1; var t := Alloc(Alloc(s).0).1;
            && MapFresh(s, d, i, j, 7).1 && Sound(r) && IsDir(r.m, d) && |r.m.ram| == |s.m.ram|
               && r.m.kernel == s.m.kernel
            && OnlyAt(s.m, r.m, d, i, j) && Walk(r.m.ram, d, i, j) == Some(Mapping(f, 7, true, true))
            && r.m.owner == (if Present(s.m.ram[d][i]) then s.m.owner
                 else s.m.owner[t := Table(d, i)])[f := Data(d, i, j)]
            && r.marks == (if Present(s.m.ram[d][i]) then s.marks[f := true] else s.marks[f := true][t := true])
            && Present(r.m.ram[d][i]) && (Present(s.m.ram[d][i]) ==> Frame(r.m.ram[d][i]) == Frame(s.m.ram[d][i]))
            && forall a {:trigger r.m.ram[d][a]} :: 0 <= a < 1024 && a != i ==> r.m.ram[d][a] == s.m.ram[d][a]
  {
    hide Backed, Private, Walk, Present, Frame, Flags, Writable, User, MapTo, Bitmap.NextFree, Tabled, OnlyAt, Kept,
         OrPresent;
    SpaceRuns.Basics(s, d, i);
    AllocSound(s);
    AllocSound(Alloc(s).0);
    HeapFlags();
    var f := Alloc(s).1;
    var t := if Present(s.m.ram[d][i]) then 0 else Alloc(Alloc(s).0).1;
    MapWith(s.m, d, i, j, f, 7, t);
    MapKept(s.m, d, i, j, f, 7, t);
    if Present(s.m.ram[d][i]) { SeatKept(s.m, MapFresh(s, d, i, j, 7).0.m, d, i); }
  }

  /** A table that keeps its role keeps its seat. */
  lemma SeatKept(m: Mem, r: Mem, d: nat, i: nat)
    requires Tabled(m) && Backed(r) && IsDir(m, d) && i < 1023 && Private(m, d, i)
    requires forall f {:trigger m.owner[f]} :: f in m.owner ==> f in r.owner && r.owner[f] == m.owner[f]
    ensures d < |r.ram| && Shaped(r.ram) && Frame(r.ram[d][i]) == Frame(m.ram[d][i])
  {
    hide Present, Frame, Flags, Writable, User;
    var t := Frame(m.ram[d][i]);
    assert m.owner[t] == Table(d, i);
    assert Seated(r, t);
  }

  lemma HeapFlags()
    ensures Writable(7) && User(7) && OrPresent(7) == 7
  {}

  /** One more page at the upper end. */
  lemma GrowStep(s0: State, s: State, d: nat, lo: nat, hi: nat, leak: Option<nat>)
    requires Grown(s0, s, d, lo, hi, leak) && hi < 786432 && OwnSlot(s, d, hi / 1024)
             && Walk(s0.m.ram, d, hi / 1024, hi % 1024) == None
    requires Alloc(s).1 != 0 && (Present(s.m.ram[d][hi / 1024]) || Alloc(Alloc(s).0).1 != 0)
    ensures var r := MapFresh(s, d, hi / 1024, hi % 1024, 7).0; Grown(s0, r, d, lo, hi + 1, leak)
  {
    hide Backed, Private, Walk, Present, Frame, Flags, Writable, User, MapFresh, Bitmap.NextFree, Accounts;
    Parts(s0);
    SpaceRuns.Basics(s, d, hi / 1024);
    var i, j := hi / 1024, hi % 1024;
    Index(hi);
    assert Walk(s.m.ram, d, i, j) == None;
    Mapped(s, d, i, j);
    var r := MapFresh(s, d, i, j, 7).0;
    AccountsGrow(s0, s, r, d, lo, hi, leak);
    GrownWalks(s0, s, r, d, lo, hi, leak);
  }

  lemma GrownWalks(s0: State, s: State, r: State, d: nat, lo: nat, hi: nat, leak: Option<nat>)
    requires Grown(s0, s, d, lo, hi, leak) && hi < 786432 && Walk(s0.m.ram, d, hi / 1024, hi % 1024) == None
    requires Sound(r) && IsDir(r.m, d) && |r.m.ram| == |s.m.ram| && r.m.kernel == s.m.kernel
             && OnlyAt(s.m, r.m, d, hi / 1024, hi % 1024)
    requires Walk(r.m.ram, d, hi / 1024, hi % 1024).Some? && HeapPage(r.m, d, hi)
             && Accounts(s0, r, d, lo, hi + 1, leak)
    ensures Grown(s0, r, d, lo, hi + 1, leak)
  {
    hide Backed, Walk, Accounts;
    Parts(s0);
    Parts(s);
    Parts(r);
    Index(hi);
    forall x, a, b | (IsDir(s0.m, x) || x == s0.m.kernel) && 0 <= a < 1023 && 0 <= b < 1024
      ensures if x == d && lo <= a * 1024 + b < hi + 1 then Walk(s0.m.ram, x, a, b) == None
              else Walk(r.m.ram, x, a, b) == Walk(s0.m.ram, x, a, b)
    {
      if IsDir(s0.m, x) { DirsStay(s0, s, d, lo, hi, leak, x); }
      assert Walk(s.m.ram, x, a, b) == Walk(s.m.ram, x, a, b);
      if (x, a, b) != (d, hi / 1024, hi % 1024) { assert Walk(r.m.ram, x, a, b) == Walk(s.m.ram, x, a, b); }
    }
    forall u: nat | lo <= u < hi + 1 ensures HeapPage(r.m, d, u) {
      Index(u);
      if u != hi {
        assert HeapPage(s.m, d, u);
        assert Walk(r.m.ram, d, u / 1024, u % 1024) == Walk(s.m.ram, d, u / 1024, u % 1024);
      }
    }
  }

  lemma DirsStay(s0: State, s: State, d: nat, lo: nat, hi: nat, leak: Option<nat>, x: nat)
    requires Accounts(s0, s, d, lo, hi, leak) && IsDir(s0.m, x)
    ensures IsDir(s.m, x)
  {
    assert s0.m.owner[x] == Directory;
  }

  lemma AccountsGrow(s0: State, s: State, r: State, d: nat, lo: nat, hi: nat, leak: Option<nat>)
    requires Grown(s0, s, d, lo, hi, leak) && hi < 786432 && Sound(r)
    requires Alloc(s).1 != 0 && (Present(s.m.ram[d][hi / 1024]) || Alloc(Alloc(s).0).1 != 0)
    requires var f := Alloc(s).1; var t := Alloc(Alloc(s).0).1; var i, j := hi / 1024, hi % 1024;
             && r.m.owner == (if Present(s.m.ram[d][i]) then s.m.owner
                  else s.m.owner[t := Table(d, i)])[f := Data(d, i, j)]
             && r.marks == (if Present(s.m.ram[d][i]) then s.marks[f := true] else s.marks[f := true][t := true])
    ensures Accounts(s0, r, d, lo, hi + 1, leak)
  {
    hide Backed, Walk, Present, Bitmap.NextFree, Tabled;
    Parts(s0);
    Parts(s);
    AllocSound(s);
    AllocSound(Alloc(s).0);
    Index(hi);
    var f, t := Alloc(s).1, Alloc(Alloc(s).0).1;
    assert Accounts(s0, s, d, lo, hi, leak);
    assert !s.marks[f] && (Present(s.m.ram[d][hi / 1024]) || !s.marks[t]);
    forall g | 0 <= g < |r.marks|
      ensures r.marks[g] == (s0.marks[g] || (g in r.m.owner && g !in s0.m.owner) || leak == Some(g)) {
      assert s.marks[g] == (s0.marks[g] || (g in s.m.owner && g !in s0.m.owner) || leak == Some(g));
    }
    forall g | g in s0.m.owner ensures g in r.m.owner && r.m.owner[g] == s0.m.owner[g] {
      assert s.m.owner[g] == s0.m.owner[g];
    }
  }

  /** Frame for the page but none for its table: the frame is in use and nobody's. */
  lemma StrandStep(s0: State, s: State, d: nat, lo: nat, hi: nat)
    requires Grown(s0, s, d, lo, hi, None) && Alloc(s).1 != 0
    ensures Grown(s0, Alloc(s).0, d, lo, hi, Some(Alloc(s).1))
  {
    hide Backed, Walk, Bitmap.NextFree;
    Parts(s0);
    Parts(s);
    AllocSound(s);
    var (r, f) := Alloc(s);
    assert Accounts(s0, s, d, lo, hi, None);
    forall g | 0 <= g < |r.marks|
      ensures r.marks[g] == (s0.marks[g] || (g in r.m.owner && g !in s0.m.owner) || f == g) {
      assert s.marks[g] == (s0.marks[g] || (g in s.m.owner && g !in s0.m.owner));
    }
    assert !s.marks[f];
    assert Accounts(s0, r, d, lo, hi, Some(f));
    forall x, a, b | (IsDir(s0.m, x) || x == s0.m.kernel) && 0 <= a < 1023 && 0 <= b < 1024
      ensures if x == d && lo <= a * 1024 + b < hi then Walk(s0.m.ram, x, a, b) == None
              else Walk(r.m.ram, x, a, b) == Walk(s0.m.ram, x, a, b)
    {
      assert Walk(s.m.ram, x, a, b) == Walk(r.m.ram, x, a, b);
    }
  }

  /** Taking the lowest page away again. */
  lemma UnwindStep(s0: State, s: State, d: nat, lo: nat, hi: nat, leak: Option<nat>)
    requires Grown(s0, s, d, lo, hi, leak) && lo < hi && OwnSlot(s, d, lo / 1024)
    ensures var r := UnmapFree(s, d, lo / 1024, lo % 1024); Grown(s0, r, d, lo + 1, hi, leak)
  {
    hide Backed, Private, Walk, Present, Frame, Flags, Writable, User, UnmapFree, Accounts;
    Parts(s0);
    Parts(s);
    var i, j := lo / 1024, lo % 1024;
    Index(lo);
    SpaceRuns.Basics(s, d, i);
    assert HeapPage(s.m, d, lo);
    UnmapFreeOk(s, d, i, j);
    var r := UnmapFree(s, d, i, j);
    Parts(r);
    UnmapOwner(s, d, i, j);
    AccountsUnwind(s0, s, r, d, lo, hi, leak, Walk(s.m.ram, d, i, j).value.frame);
    assert Walk(s.m.ram, d, i, j) == Walk(s.m.ram, d, i, j);
    forall x, a, b | (IsDir(s0.m, x) || x == s0.m.kernel) && 0 <= a < 1023 && 0 <= b < 1024
      ensures if x == d && lo + 1 <= a * 1024 + b < hi then Walk(s0.m.ram, x, a, b) == None
              else Walk(r.m.ram, x, a, b) == Walk(s0.m.ram, x, a, b)
    {
      if IsDir(s0.m, x) { DirsStay(s0, s, d, lo, hi, leak, x); }
      assert Walk(s.m.ram, x, a, b) == Walk(s.m.ram, x, a, b);
    }
    forall u: nat | lo + 1 <= u < hi ensures HeapPage(r.m, d, u) {
      Index(u);
      assert HeapPage(s.m, d, u);
      assert Walk(r.m.ram, d, u / 1024, u % 1024) == Walk(s.m.ram, d, u / 1024, u % 1024);
    }
  }

  lemma UnmapOwner(s: State, d: nat, i: nat, j: nat)
    requires Sound(s) && OwnSlot(s, d, i) && i < 768 && j < 1024 && Walk(s.m.ram, d, i, j).Some?
    requires Present(s.m.ram[d][i]) ==> Frame(s.m.ram[d][i]) < |s.m.ram|
    ensures var f := Walk(s.m.ram, d, i, j).value.frame;
            f < |s.marks| && Is(s.m, f, Data(d, i, j)) && UnmapFree(s, d, i, j).m.owner == s.m.owner - {f}
              && UnmapFree(s, d, i, j).m.kernel == s.m.kernel
  {
    Leaf(s.m, d, i, j);
  }

  lemma AccountsUnwind(s0: State, s: State, r: State, d: nat, lo: nat, hi: nat, leak: Option<nat>, f: nat)
    requires Grown(s0, s, d, lo, hi, leak) && lo < hi && f < |s.marks|
    requires Is(s.m, f, Data(d, lo / 1024, lo % 1024)) && r.m.owner == s.m.owner - {f} && r.marks == s.marks[f := false]
    ensures Accounts(s0, r, d, lo + 1, hi, leak)
  {
    hide Walk, Present, Frame, Flags, Writable, User;
    Index(lo);
    var i, j := lo / 1024, lo % 1024;
    assert Accounts(s0, s, d, lo, hi, leak);
    Parts(s);
    assert Walk(s.m.ram, d, i, j) == Walk(s.m.ram, d, i, j);
    assert Walk(s0.m.ram, d, i, j) == None;
    if f in s0.m.owner {
      assert s0.m.owner[f] == s.m.owner[f];
      NotHome(s0, f, d, i, j);
      assert false;
    }
    forall g | 0 <= g < |r.marks|
      ensures r.marks[g] == (s0.marks[g] || (g in r.m.owner && g !in s0.m.owner) || leak == Some(g)) {
      assert s.marks[g] == (s0.marks[g] || (g in s.m.owner && g !in s0.m.owner) || leak == Some(g));
      assert f in s.m.owner && s.m.owner[f] == s.m.owner[f];
    }
    forall g | g in s0.m.owner ensures g in r.m.owner && r.m.owner[g] == s0.m.owner[g] {
      assert s.m.owner[g] == s0.m.owner[g];
    }
    forall g | g in r.m.owner && g !in s0.m.owner ensures
      && g < |s0.marks| && !s0.marks[g]
      && match r.m.owner[g]
         case Table(e, _) => e == d
         case Data(e, a, b) => e == d && lo + 1 <= a * 1024 + b < hi
         case _ => false
    {
      assert s.m.owner[g] == r.m.owner[g];
      if s.m.owner[g].Data? && s.m.owner[g].i * 1024 + s.m.owner[g].j == lo { SamePlace(s, f, g, lo); }
    }
  }

  lemma NotHome(s: State, f: nat, d: nat, i: nat, j: nat)
    requires Sound(s) && Is(s.m, f, Data(d, i, j))
    ensures IsDir(s.m, d) && d < |s.m.ram| && i < 1023 && j < 1024 && Walk(s.m.ram, d, i, j).Some?
  {
    assert Homed(s.m, f);
    WalkPrivate(s.m, d, i, j);
  }

  /** A page has one frame. */
  lemma SamePlace(s: State, f: nat, g: nat, u: nat)
    requires Sound(s) && u < 786432 && g in s.m.owner && s.m.owner[g].Data?
             && s.m.owner[g].i * 1024 + s.m.owner[g].j == u
    requires Is(s.m, f, Data(s.m.owner[g].dir, u / 1024, u % 1024))
    ensures f == g
  {
    assert Homed(s.m, f) && Homed(s.m, g);
    Index(u);
  }

  /** Taking pages away from the upper end is growing read backwards: `s` has the pages from `lo - 1` on
      beyond what is left. */
  lemma ShrinkStep(r: State, s: State, d: nat, lo: nat, hi: nat)
    requires Grown(r, s, d, lo, hi, None) && 0 < lo && OwnSlot(r, d, (lo - 1) / 1024)
    requires Shaped(s.m.ram) && d < |s.m.ram| && HeapPage(s.m, d, lo - 1)
    ensures Grown(UnmapFree(r, d, (lo - 1) / 1024, (lo - 1) % 1024), s, d, lo - 1, hi, None)
  {
    hide Backed, Private, Walk, Present, Frame, Flags, Writable, User, UnmapFree, Accounts;
    var u := lo - 1;
    var i, j := u / 1024, u % 1024;
    Parts(r);
    Index(u);
    SpaceRuns.Basics(r, d, i);
    assert Walk(s.m.ram, d, i, j) == Walk(r.m.ram, d, i, j);
    UnmapFreeOk(r, d, i, j);
    UnmapOwner(r, d, i, j);
    var q := UnmapFree(r, d, i, j);
    Parts(q);
    AccountsShrink(r, s, q, d, lo, hi, Walk(r.m.ram, d, i, j).value.frame);
    forall x, a, b | (IsDir(q.m, x) || x == q.m.kernel) && 0 <= a < 1023 && 0 <= b < 1024
      ensures if x == d && u <= a * 1024 + b < hi then Walk(q.m.ram, x, a, b) == None
              else Walk(s.m.ram, x, a, b) == Walk(q.m.ram, x, a, b)
    {
      assert IsDir(q.m, x) ==> IsDir(r.m, x);
      assert Walk(s.m.ram, x, a, b) == Walk(s.m.ram, x, a, b);
      if (x, a, b) != (d, i, j) { assert Walk(q.m.ram, x, a, b) == Walk(r.m.ram, x, a, b); }
    }
  }

  lemma AccountsShrink(r: State, s: State, q: State, d: nat, lo: nat, hi: nat, f: nat)
    requires Accounts(r, s, d, lo, hi, None) && 0 < lo <= hi && f < |r.marks|
    requires Is(r.m, f, Data(d, (lo - 1) / 1024, (lo - 1) % 1024)) && q.m.owner == r.m.owner - {f}
             && q.marks == r.marks[f := false]
    requires r.marks[f]
    ensures Accounts(q, s, d, lo - 1, hi, None)
  {
    assert r.m.owner[f] == s.m.owner[f];
    forall g | 0 <= g < |s.marks| ensures s.marks[g] == (q.marks[g] || (g in s.m.owner && g !in q.m.owner)) {
      assert s.marks[g] == (r.marks[g] || (g in s.m.owner && g !in r.m.owner));
    }
    forall g | g in q.m.owner ensures g in s.m.owner && s.m.owner[g] == q.m.owner[g] {
      assert r.m.owner[g] == s.m.owner[g];
    }
  }
}
