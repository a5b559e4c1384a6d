/** Fork: the child gets a copy of every user page of its parent, on frames of its own. */
module Fork {
  import opened Options
  import opened PageTables
  import opened Frames
  import opened SpaceRuns
  import opened MemoryPaging
  import Bitmap

  // ---------------------------------------------------------------- isolation

  /** The word at offset `k` of page (`i`, `j`) as seen through directory `d`. */
  function Peek(ram: Ram, d: nat, i: nat, j: nat, k: nat): Option<nat>
    requires Shaped(ram) && d < |ram| && i < 1024 && j < 1024 && k < 1024
  {
    match Walk(ram, d, i, j)
    case None => None
    case Some(p) => if p.frame < |ram| then Some(ram[p.frame][k]) else None
  }

  /** In a private slot a walk is what the table entry says. */
  lemma WalkPrivate(m: Mem, d: nat, i: nat, j: nat)
    requires Shaped(m.ram) && d < |m.ram| && i < 1024 && j < 1024 && Private(m, d, i)
    ensures var w := m.ram[Frame(m.ram[d][i])][j];
            Walk(m.ram, d, i, j) == if Present(w) then Some(Mapping(Frame(w), Flags(w), Writable(w), User(w))) else None
  {}

  /** A write through a private page is seen at that page alone: every other private page of every
      directory keeps its contents, and no walk changes. */
  lemma StoreIsolated(m: Mem, d: nat, i: nat, j: nat, k: nat, w: nat)
    requires Backed(m) && IsDir(m, d) && i < 1023 && j < 1024 && k < 1024 && Private(m, d, i)
             && Walk(m.ram, d, i, j).Some?
    ensures var f := Walk(m.ram, d, i, j).value.frame;
            f < |m.ram| && var r := Put(m.ram, f, k, w);
            && (forall x, a, b {:trigger Walk(r, x, a, b)} ::
                   (IsDir(m, x) || x == m.kernel) && 0 <= a < 1023 && 0 <= b < 1024 ==>
                  Walk(r, x, a, b) == Walk(m.ram, x, a, b))
            && (forall x: nat, a: nat, b: nat, l: nat {:trigger Peek(r, x, a, b, l)} ::
                   IsDir(m, x) && 0 <= a < 1023 && Private(m, x, a) && 0 <= b < 1024 && 0 <= l < 1024 ==>
                  Peek(r, x, a, b, l) == if (x, a, b, l) == (d, i, j, k) then Some(w) else Peek(m.ram, x, a, b, l))
  {
    hide Present, Frame, Flags, Writable, User, Put;
    WalkPrivate(m, d, i, j);
    assert Backs(m, d, i, j);
    var f := Walk(m.ram, d, i, j).value.frame;
    var r := Put(m.ram, f, k, w);
    forall x, a, b | (IsDir(m, x) || x == m.kernel) && 0 <= a < 1023 && 0 <= b < 1024
      ensures Walk(r, x, a, b) == Walk(m.ram, x, a, b) {
      if x == m.kernel { assert KernelSlot(m, a); } else { assert SlotOk(m, x, a); }
    }
    forall x: nat, a: nat, b: nat, l: nat | IsDir(m, x) && 0 <= a < 1023 && Private(m, x, a) && 0 <= b < 1024
      && 0 <= l < 1024
      ensures Peek(r, x, a, b, l) == if (x, a, b, l) == (d, i, j, k) then Some(w) else Peek(m.ram, x, a, b, l)
    {
      WalkPrivate(m, x, a, b);
      assert Backs(m, x, a, b);
      assert Walk(r, x, a, b) == Walk(m.ram, x, a, b);
    }
  }

  // ---------------------------------------------------------------- what a copy keeps

  /** Every frame but the directory `d` and its tables has its role and its contents. */
  ghost predicate Kept(m: Mem, r: Mem, d: nat) {
    && |m.ram| == |r.ram| && m.kernel == r.kernel
    && forall f {:trigger f in m.owner} {:trigger r.ram[f]} :: f in m.owner && f < |m.ram| ==>
         && f in r.owner && r.owner[f] == m.owner[f]
         && (f != d && !(m.owner[f].Table? && m.owner[f].dir == d) ==> r.ram[f] == m.ram[f])
  }

  /** Every owned frame has its contents. */
  ghost predicate Same(m: Mem, r: Mem) {
    && |m.ram| == |r.ram| && m.kernel == r.kernel && r.owner == m.owner
    && forall f {:trigger r.ram[f]} :: f in m.owner && f < |m.ram| ==> r.ram[f] == m.ram[f]
  }

  lemma KeptTrans(a: Mem, b: Mem, c: Mem, d: nat)
    requires Kept(a, b, d) && Kept(b, c, d)
    ensures Kept(a, c, d)
  {}

  /** So every other directory maps what it mapped. */
  lemma KeptWalks(m: Mem, r: Mem, d: nat, x: nat, a: nat, b: nat)
    requires Tabled(m) && Tabled(r) && Kept(m, r, d) && IsDir(m, d) && (IsDir(m, x) || x == m.kernel) && x != d
             && a < 1023 && b < 1024
    ensures Walk(r.ram, x, a, b) == Walk(m.ram, x, a, b)
  {
    hide Present, Frame, Flags, Writable, User;
    if x == m.kernel { assert KernelSlot(m, a); } else { assert SlotOk(m, x, a); }
    assert x in m.owner;
    if Present(m.ram[x][a]) { assert Frame(m.ram[x][a]) in m.owner; }
  }

  /** A frame without an owner can be filled with anything. */
  lemma ScratchOk(m: Mem, f: nat, page: seq<nat>)
    requires Backed(m) && f !in m.owner && f < |m.ram| && |page| == 1024
    ensures var r := m.(ram := m.ram[f := page]); Backed(r) && Tabled(r) && Same(m, r) && Untouched(m, r)
  {
    hide Present, Frame, Flags, Writable, User;
    var r := m.(ram := m.ram[f := page]);
    forall x: nat, a: nat | IsDir(r, x) && a < 1024 ensures SlotOk(r, x, a) { assert SlotOk(m, x, a); }
    forall a | 0 <= a < 1024 ensures KernelSlot(r, a) { assert KernelSlot(m, a); }
    forall x | x in r.owner ensures Seated(r, x) { assert Seated(m, x); }
    forall x: nat, a: nat, b: nat | IsDir(r, x) && a < 1023 && b < 1024 ensures Backs(r, x, a, b) {
      assert Backs(m, x, a, b); assert SlotOk(m, x, a);
    }
    forall g | g in r.owner ensures Homed(r, g) { assert Homed(m, g); }
    forall x, a, b | (IsDir(m, x) || x == m.kernel) && 0 <= a < 1023 && 0 <= b < 1024
      ensures Walk(r.ram, x, a, b) == Walk(m.ram, x, a, b) {
      if x == m.kernel { assert KernelSlot(m, a); } else { assert SlotOk(m, x, a); }
    }
  }

  /** Mapping a page writes to nothing but the directory and its table. */
  lemma MapKept(m: Mem, d: nat, i: nat, j: nat, phys: nat, flags: nat, t: nat)
    requires MayMap(m, d, i, t) && j < 1024 && flags < 4096
    ensures var r := MapTo(m, d, i, j, phys, flags, t);
            && Kept(m, r, d)
            && (forall f {:trigger r.ram[f]} :: 0 <= f < |m.ram| && f !in m.owner && f != t ==> r.ram[f] == m.ram[f])
            && (forall a {:trigger r.ram[d][a]} :: 0 <= a < 1024 && a != i ==> r.ram[d][a] == m.ram[d][a])
            && Present(r.ram[d][i])
  {
    hide Put, Clear, Present, Frame, Flags, Writable, User, OrUser, Entry, AddTable, SetUser, SetPte;
    var m1 := if Present(m.ram[d][i]) then m else AddTable(m, d, i, t);
    if !Present(m.ram[d][i]) { AddTableOk(m, d, i, t); AddTableBasics(m, d, i, t); }
    var m2 := if User(flags) then SetUser(m1, d, i) else m1;
    if User(flags) { SetUserOk(m1, d, i); SetUserBasics(m1, d, i); }
    var w := Entry(phys, flags);
    SetPteOk(m2, d, i, j, w);
    SetPteBasics(m2, d, i, j, w);
  }

  // ---------------------------------------------------------------- enough frames

  ghost function Frees(marks: seq<bool>): set<nat> { set f | 0 <= f < |marks| && !marks[f] }

  lemma AllocFrees(s: State)
    requires s.hint <= |s.marks| && 0 < |s.marks| && s.marks[0]
    ensures var (r, f) := Alloc(s);
            (f == 0 <==> Frees(s.marks) == {}) && (f != 0 ==> |Frees(r.marks)| == |Frees(s.marks)| - 1)
  {
    var (r, f) := Alloc(s);
    if f != 0 {
      assert f in Frees(s.marks);
      assert Frees(r.marks) == Frees(s.marks) - {f};
    }
  }

  /** Present entries of table `t` from `j` on. */
  ghost function PagesFrom(ram: Ram, t: nat, j: nat): nat
    requires Shaped(ram) && t < |ram| && j <= 1024
    decreases 1024 - j
  {
    if j == 1024 then 0 else (if Present(ram[t][j]) then 1 else 0) + PagesFrom(ram, t, j + 1)
  }

  /** Frames that copying slot `i` takes: its pages, and a table if there is any page. */
  ghost function SlotNeed(ram: Ram, d: nat, i: nat): nat
    requires Shaped(ram) && d < |ram| && i < 1024
  {
    if !Present(ram[d][i]) || Frame(ram[d][i]) >= |ram| then 0
    else var n := PagesFrom(ram, Frame(ram[d][i]), 0); if n == 0 then 0 else n + 1
  }

  ghost function NeedFrom(ram: Ram, d: nat, i: nat): nat
    requires Shaped(ram) && d < |ram| && i <= 768
    decreases 768 - i
  {
    if i == 768 then 0 else SlotNeed(ram, d, i) + NeedFrom(ram, d, i + 1)
  }

  // ---------------------------------------------------------------- the copy

  /** Page (`a`, `b`) of `dst` in `r` is a copy of that of `src` in `m`: mapped if and only if it is, with
      the same flags and rights and the same words, on another frame, which is the child's own. */
  ghost predicate SamePage(m: Mem, r: Mem, src: nat, dst: nat, a: nat, b: nat)
    requires Shaped(m.ram) && Shaped(r.ram) && src < |m.ram| && dst < |r.ram| && a < 1024 && b < 1024
  {
    match Walk(m.ram, src, a, b)
    case None => Walk(r.ram, dst, a, b) == None
    case Some(p) =>
      && Walk(r.ram, dst, a, b).Some?
      && var q := Walk(r.ram, dst, a, b).value;
      && q.flags == p.flags && q.writable == p.writable && q.user == p.user
      && q.frame < |r.ram| && p.frame < |m.ram| && q.frame != p.frame && Is(r, q.frame, Data(dst, a, b))
         && r.ram[q.frame] == m.ram[p.frame]
  }

  /** The copy has reached entry (`i`, `j`). */
  ghost predicate Copied(m: Mem, r: Mem, src: nat, dst: nat, i: nat, j: nat)
    requires Shaped(m.ram) && Shaped(r.ram) && src < |m.ram| && dst < |r.ram|
  {
    forall a: nat, b: nat {:trigger SamePage(m, r, src, dst, a, b)} {:trigger Walk(r.ram, dst, a, b)} ::
        a < 768 && b < 1024 ==>
      if a < i || (a == i && b < j) then SamePage(m, r, src, dst, a, b) else Walk(r.ram, dst, a, b) == None
  }

  lemma LowSlotOwn(s: State, d: nat, i: nat)
    requires Sound(s) && IsDir(s.m, d) && i < 768
    ensures OwnSlot(s, d, i)
  {
    assert SlotOk(s.m, d, i);
  }

  /** The leaf entry behind a walk through a private slot. */
  lemma Leaf(m: Mem, d: nat, i: nat, j: nat)
    requires Backed(m) && IsDir(m, d) && i < 768 && j < 1024 && Walk(m.ram, d, i, j).Some?
    ensures Private(m, d, i) && Frame(m.ram[d][i]) < |m.ram|
    ensures var w := m.ram[Frame(m.ram[d][i])][j];
            && Walk(m.ram, d, i, j) == Some(Mapping(Frame(w), Flags(w), Writable(w), User(w)))
            && Present(w) && 0 < Frame(w) < |m.ram| && Is(m, Frame(w), Data(d, i, j))
            && Flags(w) < 4096 && OrPresent(Flags(w)) == Flags(w) && Writable(Flags(w)) == Writable(w)
               && User(Flags(w)) == User(w)
  {
    assert SlotOk(m, d, i);
    WalkPrivate(m, d, i, j);
    assert Backs(m, d, i, j);
  }

  function CopyOf(m: Mem, src: nat, dst: nat, i: nat, j: nat, f: nat, t: nat): Mem
    requires Shaped(m.ram) && src < |m.ram| && dst < |m.ram| && i < 1024 && j < 1024 && f < |m.ram| && t < |m.ram|
             && f != dst
    requires Frame(m.ram[src][i]) < |m.ram| && Frame(m.ram[Frame(m.ram[src][i])][j]) < |m.ram|
    requires Present(m.ram[dst][i]) ==> Frame(m.ram[dst][i]) < |m.ram|
  {
    var w := m.ram[Frame(m.ram[src][i])][j];
    var m1 := m.(ram := m.ram[f := m.ram[Frame(w)]]);
    Adopt(MapTo(m1, dst, i, j, f, Flags(w), t), f, dst, i, j)
  }

  lemma CopyOne(m: Mem, src: nat, dst: nat, i: nat, j: nat, f: nat, t: nat)
    requires Backed(m) && IsDir(m, src) && IsDir(m, dst) && src != dst && i < 768 && j < 1024
    requires Walk(m.ram, src, i, j).Some? && Walk(m.ram, dst, i, j) == None
    requires MayMap(m, dst, i, t) && t < |m.ram| && f !in m.owner && 0 < f < |m.ram| && f != t
    ensures Frame(m.ram[src][i]) < |m.ram| && Frame(m.ram[Frame(m.ram[src][i])][j]) < |m.ram|
    ensures Present(m.ram[dst][i]) ==> Frame(m.ram[dst][i]) < |m.ram|
    ensures var r := CopyOf(m, src, dst, i, j, f, t);
            && Backed(r) && Tabled(r) && Kept(m, r, dst) && OnlyAt(m, r, dst, i, j) && SamePage(m, r, src, dst, i, j)
               && Present(r.ram[dst][i])
            && r.owner == (if Present(m.ram[dst][i]) then m.owner
                 else m.owner[t := Table(dst, i)])[f := Data(dst, i, j)]
  {
    hide Private, Present, Frame, Flags, Writable, User, MapTo, Backed, Walk, OrPresent;
    Shapes(m);
    Leaf(m, src, i, j);
    var w := m.ram[Frame(m.ram[src][i])][j];
    ScratchOk(m, f, m.ram[Frame(w)]);
    var m1 := m.(ram := m.ram[f := m.ram[Frame(w)]]);
    SlotFrame(m, dst, i, t);
    StillMayMap(m, m1, dst, i, t);
    MapWith(m1, dst, i, j, f, Flags(w), t);
    MapKept(m1, dst, i, j, f, Flags(w), t);
    AdoptKept(m, m1, MapTo(m1, dst, i, j, f, Flags(w), t), f, dst, i, j);
  }

  lemma Shapes(m: Mem)
    requires Backed(m)
    ensures Tabled(m)
  {}

  lemma SlotFrame(m: Mem, d: nat, i: nat, t: nat)
    requires MayMap(m, d, i, t)
    ensures Present(m.ram[d][i]) ==> Frame(m.ram[d][i]) < |m.ram|
  {}

  lemma StillMayMap(m: Mem, r: Mem, d: nat, i: nat, t: nat)
    requires MayMap(m, d, i, t) && Tabled(r) && Same(m, r)
    ensures MayMap(r, d, i, t)
  {
    hide Present, Frame, Flags, Writable, User;
    assert d in m.owner;
    assert r.ram[d] == m.ram[d];
    if Present(m.ram[d][i]) { assert r.ram[Frame(m.ram[d][i])] == m.ram[Frame(m.ram[d][i])]; }
  }

  lemma AdoptKept(m: Mem, m1: Mem, r: Mem, f: nat, d: nat, i: nat, j: nat)
    requires Same(m, m1) && Kept(m1, r, d) && f !in m.owner
    ensures Kept(m, Adopt(r, f, d, i, j), d)
  {}

  lemma Split(i: nat, j: nat)
    requires i < 1024 && j < 1024
    ensures Pde(i * 4194304 + j * 4096) == i && Pte(i * 4194304 + j * 4096) == j
  {
    assert (i * 4194304 + j * 4096) / 4096 == i * 1024 + j;
  }

  ghost predicate MayCopy(s: State, src: nat, dst: nat, i: nat, j: nat) {
    && Sound(s) && IsDir(s.m, src) && IsDir(s.m, dst) && src != dst && i < 768 && j < 1024
    && Walk(s.m.ram, src, i, j).Some? && Walk(s.m.ram, dst, i, j) == None
    && |Frees(s.marks)| >= if Present(s.m.ram[dst][i]) then 1 else 2
  }

  /** The state after copying one page, allocating first the page and then a missing table. */
  ghost function AfterCopy(s: State, src: nat, dst: nat, i: nat, j: nat): State
    requires MayCopy(s, src, dst, i, j)
  {
    var (s1, f) := Alloc(s);
    var (s2, t) := if Present(s.m.ram[dst][i]) then (s1, 0) else Alloc(s1);
    CopyReady(s, src, dst, i, j, f, t);
    State(CopyOf(s.m, src, dst, i, j, f, t), s2.marks, s2.hint)
  }

  lemma CopyReady(s: State, src: nat, dst: nat, i: nat, j: nat, f: nat, t: nat)
    requires MayCopy(s, src, dst, i, j)
    requires f == Alloc(s).1 && t == if Present(s.m.ram[dst][i]) then 0 else Alloc(Alloc(s).0).1
    ensures f != 0 && f !in s.m.owner && f < |s.m.ram| && t < |s.m.ram| && f != t && MayMap(s.m, dst, i, t)
    ensures Frame(s.m.ram[src][i]) < |s.m.ram| && Frame(s.m.ram[Frame(s.m.ram[src][i])][j]) < |s.m.ram|
    ensures Present(s.m.ram[dst][i]) ==> Frame(s.m.ram[dst][i]) < |s.m.ram|
  {
    hide Private, Present, Frame, Flags, Writable, User, Backed, Bitmap.NextFree, Frees, Walk;
    LowSlotOwn(s, dst, i);
    SpaceRuns.Basics(s, dst, i);
    Leaf(s.m, src, i, j);
    AllocFrees(s);
    AllocSound(s);
    AllocFrees(Alloc(s).0);
    AllocSound(Alloc(s).0);
  }

  lemma CopyPlan(s: State, src: nat, dst: nat, i: nat, j: nat)
    requires MayCopy(s, src, dst, i, j)
    ensures var r := AfterCopy(s, src, dst, i, j);
            && Sound(r) && Kept(s.m, r.m, dst) && OnlyAt(s.m, r.m, dst, i, j) && SamePage(s.m, r.m, src, dst, i, j)
               && Present(r.m.ram[dst][i])
            && |Frees(r.marks)| == |Frees(s.marks)| - if Present(s.m.ram[dst][i]) then 1 else 2
  {
    hide Private, Present, Frame, Flags, Writable, User, Backed, Bitmap.NextFree, Frees, Walk, SamePage, OnlyAt, CopyOf,
         MayMap;
    LowSlotOwn(s, dst, i);
    SpaceRuns.Basics(s, dst, i);
    var (s1, f) := Alloc(s);
    var t := if Present(s.m.ram[dst][i]) then 0 else Alloc(s1).1;
    CopyReady(s, src, dst, i, j, f, t);
    CopyOne(s.m, src, dst, i, j, f, t);
    AllocFrees(s);
    AllocFrees(s1);
  }

  /** One page of the copy loop of `memory_paging_copy_mapped_memory`. */
  method CopyPage(p: Paging, src: nat, dst: nat, i: nat, j: nat)
    requires MayCopy(p.Abs(), src, dst, i, j)
    modifies p
    ensures Sound(p.Abs()) && Kept(old(p.M()), p.M(), dst) && OnlyAt(old(p.M()), p.M(), dst, i, j)
    ensures SamePage(old(p.M()), p.M(), src, dst, i, j) && Present(p.ram[dst][i])
    ensures |Frees(p.marks)| == |Frees(old(p.marks))| - if old(Present(p.ram[dst][i])) then 1 else 2
  {
    hide Private, Present, Frame, Flags, Writable, User, Backed, Bitmap.NextFree, MapTo, Frees, Entry, Pde, Pte, Kept,
         OnlyAt, SamePage, Walk, Untouched;
    ghost var s, m := p.Abs(), p.M();
    LowSlotOwn(s, dst, i);
    SpaceRuns.Basics(s, dst, i);
    CopyPlan(s, src, dst, i, j);
    ghost var t := if Present(m.ram[dst][i]) then 0 else Alloc(Alloc(s).0).1;
    CopyReady(s, src, dst, i, j, Alloc(s).1, t);
    Leaf(m, src, i, j);
    AllocSound(s);
    var f := p.AllocateFrame();
    var w := p.ram[Frame(p.ram[src][i])][j];
    p.ram := p.ram[f := p.ram[Frame(w)]];
    ScratchOk(m, f, m.ram[Frame(w)]);
    StillMayMap(m, p.M(), dst, i, t);
    Split(i, j);
    var ok := p.Map(dst, f, i * 4194304 + j * 4096, Flags(w));
    p.owner := p.owner[f := Data(dst, i, j)];
  }

  /** Copying one more page moves the frontier on. */
  lemma CopiedMore(m: Mem, a: Mem, r: Mem, src: nat, dst: nat, i: nat, j: nat)
    requires Tabled(m) && Backed(a) && Tabled(r) && IsDir(m, src) && IsDir(m, dst) && IsDir(a, dst) && src != dst
             && i < 768 && j < 1024
    requires Kept(m, a, dst) && Kept(a, r, dst) && OnlyAt(a, r, dst, i, j) && Copied(m, a, src, dst, i, j)
             && SamePage(a, r, src, dst, i, j)
    requires Walk(a.ram, src, i, j).Some? && IsDir(a, src) && Backed(m)
    ensures Copied(m, r, src, dst, i, j + 1)
  {
    hide Present, Frame, Flags, Writable, User, Walk, Private;
    KeptWalks(m, a, dst, src, i, j);
    assert Walk(m.ram, src, i, j) == Walk(a.ram, src, i, j);
    Leaf(m, src, i, j);
    forall x: nat, y: nat | x < 768 && y < 1024
      ensures if x < i || (x == i && y < j + 1) then SamePage(m, r, src, dst, x, y) else Walk(r.ram, dst, x, y) == None
    {
      if (x, y) != (i, j) {
        assert Walk(r.ram, dst, x, y) == Walk(a.ram, dst, x, y);
        if x < i || (x == i && y < j) { assert SamePage(m, a, src, dst, x, y); }
      }
    }
  }

  /** An absent page needs no copy. */
  lemma CopiedSkip(m: Mem, r: Mem, src: nat, dst: nat, i: nat, j: nat)
    requires Shaped(m.ram) && Shaped(r.ram) && src < |m.ram| && dst < |r.ram| && i < 768 && j < 1024
    requires Copied(m, r, src, dst, i, j) && Walk(m.ram, src, i, j) == None
    ensures Copied(m, r, src, dst, i, j + 1)
  {
    hide Walk;
    forall x: nat, y: nat | x < 768 && y < 1024
      ensures if x < i || (x == i && y < j + 1) then SamePage(m, r, src, dst, x, y) else Walk(r.ram, dst, x, y) == None
    {
      assert Walk(r.ram, dst, x, y) == Walk(r.ram, dst, x, y);
    }
  }

  /** Nor does an absent table; the end of a table is the start of the next one. */
  lemma CopiedSlot(m: Mem, r: Mem, src: nat, dst: nat, i: nat, j: nat)
    requires Shaped(m.ram) && Shaped(r.ram) && src < |m.ram| && dst < |r.ram| && i < 768 && j <= 1024
    requires Copied(m, r, src, dst, i, j) && forall b :: j <= b < 1024 ==> Walk(m.ram, src, i, b) == None
    ensures Copied(m, r, src, dst, i + 1, 0)
  {
    hide Walk;
    forall x: nat, y: nat | x < 768 && y < 1024
      ensures if x < i + 1 then SamePage(m, r, src, dst, x, y) else Walk(r.ram, dst, x, y) == None
    {
      assert Walk(r.ram, dst, x, y) == Walk(r.ram, dst, x, y);
    }
  }

  /** What the copy loops maintain, at entry (`i`, `j`), for a copy that started in `m`. */
  ghost predicate CopyInv(s: State, m: Mem, src: nat, dst: nat, i: nat, j: nat) {
    && Sound(s) && Backed(m) && IsDir(m, src) && IsDir(m, dst) && src != dst && Kept(m, s.m, dst)
    && IsDir(s.m, src) && IsDir(s.m, dst) && Copied(m, s.m, src, dst, i, j)
  }

  ghost function TableNeed(s: State, m: Mem, src: nat, dst: nat, i: nat, j: nat): nat
    requires CopyInv(s, m, src, dst, i, j) && i < 768 && j <= 1024 && Frame(m.ram[src][i]) < |m.ram|
  {
    var n := PagesFrom(m.ram, Frame(m.ram[src][i]), j);
    n + (if n == 0 || Present(s.m.ram[dst][i]) then 0 else 1)
  }

  /** The parent's directory and its tables are as they were. */
  lemma SourceTable(s: State, m: Mem, src: nat, dst: nat, i: nat, j: nat)
    requires CopyInv(s, m, src, dst, i, j) && i < 768 && j <= 1024
    ensures Shaped(m.ram) && Shaped(s.m.ram) && |s.m.ram| == |m.ram| && src < |m.ram| && dst < |m.ram|
            && s.m.ram[src] == m.ram[src]
    ensures Private(m, src, i) ==>
              var t := Frame(m.ram[src][i]); Present(m.ram[src][i]) && t < |m.ram| && s.m.ram[t] == m.ram[t]
    ensures Present(m.ram[src][i]) ==> Private(m, src, i)
  {
    hide Present, Frame, Flags, Writable, User, Walk, Copied;
    assert src in m.owner;
    assert SlotOk(m, src, i);
    if Private(m, src, i) { assert Frame(m.ram[src][i]) in m.owner; }
  }

  /** Entry (`i`, `j`) decides whether there is a page to copy. */
  lemma CopyStep(s: State, m: Mem, src: nat, dst: nat, i: nat, j: nat)
    requires CopyInv(s, m, src, dst, i, j) && i < 768 && j < 1024 && Private(m, src, i)
             && Frame(m.ram[src][i]) < |m.ram|
    ensures var w := m.ram[Frame(m.ram[src][i])][j]; var t := Frame(m.ram[src][i]);
            && (Walk(m.ram, src, i, j) == None <==> !Present(w))
            && (Present(w) ==> Walk(s.m.ram, src, i, j).Some? && Walk(s.m.ram, dst, i, j) == None)
            && PagesFrom(m.ram, t, j) == (if Present(w) then 1 else 0) + PagesFrom(m.ram, t, j + 1)
  {
    hide Present, Frame, Flags, Writable, User;
    WalkPrivate(m, src, i, j);
    KeptWalks(m, s.m, dst, src, i, j);
    assert !SamePage(m, s.m, src, dst, i, j) || SamePage(m, s.m, src, dst, i, j);
  }

  lemma CopyStepped(s: State, a: State, m: Mem, src: nat, dst: nat, i: nat, j: nat)
    requires CopyInv(a, m, src, dst, i, j) && i < 768 && j < 1024 && Walk(a.m.ram, src, i, j).Some?
    requires Sound(s) && Kept(a.m, s.m, dst) && OnlyAt(a.m, s.m, dst, i, j) && SamePage(a.m, s.m, src, dst, i, j)
    ensures CopyInv(s, m, src, dst, i, j + 1)
  {
    hide Present, Frame, Flags, Writable, User, Walk, Copied, SamePage, OnlyAt, Private;
    assert src in m.owner && dst in m.owner && src in a.m.owner && dst in a.m.owner;
    KeptTrans(m, a.m, s.m, dst);
    CopiedMore(m, a.m, s.m, src, dst, i, j);
  }

  /** The inner loop: one table of the parent. */
  method CopyTable(p: Paging, src: nat, dst: nat, i: nat, ghost m: Mem, ghost spare: nat)
    requires CopyInv(p.Abs(), m, src, dst, i, 0) && i < 768 && Private(m, src, i)
    requires |Frees(p.marks)| >= TableNeed(p.Abs(), m, src, dst, i, 0) + spare
    modifies p
    ensures CopyInv(p.Abs(), m, src, dst, i + 1, 0) && |Frees(p.marks)| >= spare
  {
    hide Private, Present, Frame, Flags, Writable, User, Backed, Bitmap.NextFree, Frees, Walk, Kept, Copied, OnlyAt,
         SamePage, PagesFrom;
    SourceTable(p.Abs(), m, src, dst, i, 0);
    var table := Frame(p.ram[src][i]);
    for j := 0 to 1024
      invariant CopyInv(p.Abs(), m, src, dst, i, j)
      invariant |Frees(p.marks)| >= TableNeed(p.Abs(), m, src, dst, i, j) + spare
    {
      ghost var a := p.Abs();
      SourceTable(p.Abs(), m, src, dst, i, j);
      CopyStep(p.Abs(), m, src, dst, i, j);
      if Present(p.ram[table][j]) {
        CopyPage(p, src, dst, i, j);
        CopyStepped(p.Abs(), a, m, src, dst, i, j);
      } else {
        CopiedSkip(m, p.M(), src, dst, i, j);
      }
    }
    SourceTable(p.Abs(), m, src, dst, i, 1024);
    CopiedSlot(m, p.M(), src, dst, i, 1024);
  }

  /** `memory_paging_copy_mapped_memory`, with enough frames left: afterwards every user page of the
      child is a copy of the parent's, and nothing but the child's own tables was written to. */
  method CopyMapped(p: Paging, src: nat, dst: nat)
    requires Sound(p.Abs()) && IsDir(p.M(), src) && IsDir(p.M(), dst) && src != dst
    requires forall a, b {:trigger Walk(p.ram, dst, a, b)} :: 0 <= a < 768 && 0 <= b < 1024 ==>
               Walk(p.ram, dst, a, b) == None
    requires |Frees(p.marks)| >= NeedFrom(p.ram, src, 0)
    modifies p
    ensures Sound(p.Abs()) && Kept(old(p.M()), p.M(), dst)
    ensures forall a: nat, b: nat {:trigger SamePage(old(p.M()), p.M(), src, dst, a, b)} :: a < 768 && b < 1024 ==>
              SamePage(old(p.M()), p.M(), src, dst, a, b)
  {
    hide Private, Present, Frame, Flags, Writable, User, Backed, Bitmap.NextFree, Frees, Walk, Kept, OnlyAt, SamePage,
         PagesFrom;
    ghost var m := p.M();
    CopyStart(p.Abs(), src, dst);
    for i := 0 to 768
      invariant CopyInv(p.Abs(), m, src, dst, i, 0) && src < |m.ram| && Shaped(m.ram)
      invariant |Frees(p.marks)| >= NeedFrom(m.ram, src, i)
    {
      SourceTable(p.Abs(), m, src, dst, i, 0);
      if !Present(p.ram[src][i]) {
        EmptySlot(m, src, i);
        CopiedSlot(m, p.M(), src, dst, i, 0);
        continue;
      }
      CopyTable(p, src, dst, i, m, NeedFrom(m.ram, src, i + 1));
    }
  }

  lemma CopyStart(s: State, src: nat, dst: nat)
    requires Sound(s) && IsDir(s.m, src) && IsDir(s.m, dst) && src != dst
    requires forall a, b {:trigger Walk(s.m.ram, dst, a, b)} :: 0 <= a < 768 && 0 <= b < 1024 ==>
               Walk(s.m.ram, dst, a, b) == None
    ensures CopyInv(s, s.m, src, dst, 0, 0) && src < |s.m.ram| && Shaped(s.m.ram)
  {}

  lemma EmptySlot(m: Mem, d: nat, i: nat)
    requires Shaped(m.ram) && d < |m.ram| && i < 768 && !Present(m.ram[d][i])
    ensures forall b {:trigger Walk(m.ram, d, i, b)} :: 0 <= b < 1024 ==> Walk(m.ram, d, i, b) == None
  {}
}
