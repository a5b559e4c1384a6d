/** Frames and who holds them: every private page is backed by a frame of its own, and creating,
    mapping, unmapping and destroying address spaces takes and returns exactly those frames. */
module Frames {
  import opened Options
  import opened PageTables

  // ---------------------------------------------------------------- backing

  /** A present entry (`i`, `j`) of `d` points to the data frame of that page. */
  ghost predicate Backs(m: Mem, d: nat, i: nat, j: nat)
    requires Shaped(m.ram) && d < |m.ram| && i < 1024 && j < 1024
  {
    Private(m, d, i) ==>
      var w := m.ram[Frame(m.ram[d][i])][j]; Present(w) ==> Is(m, Frame(w), Data(d, i, j))
  }

  /** A data frame is mapped at the page its role names. */
  ghost predicate Homed(m: Mem, f: nat)
    requires Shaped(m.ram) && f in m.owner
  {
    m.owner[f].Data? ==>
      var d, i, j := m.owner[f].dir, m.owner[f].i, m.owner[f].j;
      && IsDir(m, d) && d < |m.ram| && i < 1023 && j < 1024 && Private(m, d, i)
      && Present(m.ram[Frame(m.ram[d][i])][j]) && Frame(m.ram[Frame(m.ram[d][i])][j]) == f
  }

  ghost predicate Backed(m: Mem) {
    && Tabled(m)
    && (forall d, i, j {:trigger Backs(m, d, i, j)} :: IsDir(m, d) && 0 <= i < 1023 && 0 <= j < 1024 ==>
           Backs(m, d, i, j))
    && (forall f {:trigger Homed(m, f)} :: f in m.owner ==> Homed(m, f))
  }

  lemma AddTableBacked(m: Mem, d: nat, i: nat, t: nat)
    requires Backed(m) && IsDir(m, d) && i < 1023 && !Present(m.ram[d][i]) && t !in m.owner && 0 < t < |m.ram|
    ensures Backed(AddTable(m, d, i, t))
  {
    hide AddTable, Entry, Present, Frame, Flags, Writable, User;
    var r := AddTable(m, d, i, t);
    AddTableOk(m, d, i, t);
    AddTableBasics(m, d, i, t);
    Constants();
    forall x: nat, a: nat, b: nat | IsDir(r, x) && a < 1023 && b < 1024 ensures Backs(r, x, a, b) {
      assert Backs(m, x, a, b);
      assert SlotOk(m, x, a);
    }
    forall f | f in r.owner ensures Homed(r, f) {
      if f != t { assert Homed(m, f); }
    }
  }

  lemma SetUserBacked(m: Mem, d: nat, i: nat)
    requires Backed(m) && IsDir(m, d) && i < 1023 && Private(m, d, i)
    ensures Backed(SetUser(m, d, i))
  {
    hide SetUser, Entry, Present, Frame, Flags, Writable, User;
    var r := SetUser(m, d, i);
    SetUserOk(m, d, i);
    SetUserBasics(m, d, i);
    forall x: nat, a: nat, b: nat | IsDir(r, x) && a < 1023 && b < 1024 ensures Backs(r, x, a, b) {
      assert Backs(m, x, a, b);
      assert SlotOk(m, x, a);
    }
    forall f | f in r.owner ensures Homed(r, f) { assert Homed(m, f); }
  }

  /** A frame that nobody holds becomes the data frame of an empty page. */
  function Adopt(m: Mem, f: nat, d: nat, i: nat, j: nat): Mem { m.(owner := m.owner[f := Data(d, i, j)]) }

  lemma AdoptBacked(m: Mem, d: nat, i: nat, j: nat, w: nat)
    requires Backed(m) && IsDir(m, d) && i < 1023 && j < 1024 && Private(m, d, i)
             && !Present(m.ram[Frame(m.ram[d][i])][j])
    requires Present(w) && (User(w) ==> User(m.ram[d][i])) && Frame(w) !in m.owner && 0 < Frame(w) < |m.ram|
    ensures Backed(Adopt(SetPte(m, d, i, j, w), Frame(w), d, i, j))
  {
    hide SetPte, Entry, Present, Frame, Flags, Writable, User;
    var p := SetPte(m, d, i, j, w);
    var r := Adopt(p, Frame(w), d, i, j);
    SetPteOk(m, d, i, j, w);
    SetPteBasics(m, d, i, j, w);
    AdoptTabled(p, Frame(w), d, i, j);
    forall x: nat, a: nat, b: nat | IsDir(r, x) && a < 1023 && b < 1024 ensures Backs(r, x, a, b) {
      assert Backs(m, x, a, b);
      assert SlotOk(m, x, a);
    }
    forall f | f in r.owner ensures Homed(r, f) {
      if f != Frame(w) { assert Homed(m, f); }
    }
  }

  lemma AdoptTabled(m: Mem, f: nat, d: nat, i: nat, j: nat)
    requires Tabled(m) && f !in m.owner && 0 < f < |m.ram|
    ensures var r := Adopt(m, f, d, i, j); Tabled(r) && forall x {:trigger IsDir(r, x)} :: IsDir(r, x) <==> IsDir(m, x)
    ensures forall x, a :: IsDir(m, x) && 0 <= a < 1023 && Private(m, x, a) ==> Private(Adopt(m, f, d, i, j), x, a)
  {
    hide Entry, Present, Frame, Flags, Writable, User;
    var r := Adopt(m, f, d, i, j);
    forall x: nat, a: nat | IsDir(r, x) && a < 1024 ensures SlotOk(r, x, a) { assert SlotOk(m, x, a); }
    forall a | 0 <= a < 1024 ensures KernelSlot(r, a) { assert KernelSlot(m, a); }
    forall x | x in r.owner ensures Seated(r, x) { if x != f { assert Seated(m, x); } }
  }

  /** Mapping a fresh frame at an empty page keeps every page backed by its own frame. */
  lemma MapBacked(m: Mem, d: nat, i: nat, j: nat, phys: nat, flags: nat, t: nat)
    requires Backed(m) && MayMap(m, d, i, t) && j < 1024 && flags < 4096 && Walk(m.ram, d, i, j) == None
    requires phys !in m.owner && 0 < phys < |m.ram| && (!Present(m.ram[d][i]) ==> phys != t)
    ensures Backed(Adopt(MapTo(m, d, i, j, phys, flags, t), phys, d, i, j))
  {
    hide Put, Clear, Present, Frame, Flags, Writable, User, OrUser, Entry, AddTable, SetUser, SetPte;
    Constants();
    var m1 := if Present(m.ram[d][i]) then m else AddTable(m, d, i, t);
    if !Present(m.ram[d][i]) { AddTableBacked(m, d, i, t); AddTableOk(m, d, i, t); AddTableBasics(m, d, i, t); }
    var m2 := if User(flags) then SetUser(m1, d, i) else m1;
    if User(flags) { SetUserBacked(m1, d, i); SetUserOk(m1, d, i); SetUserBasics(m1, d, i); }
    var w := Entry(phys, flags);
    SetPteBasics(m2, d, i, j, w);
    assert !Present(m2.ram[Frame(m2.ram[d][i])][j]);
    AdoptBacked(m2, d, i, j, w);
  }

  /** Clearing an entry and dropping its frame keeps the rest backed. */
  function Drop(m: Mem, d: nat, i: nat, j: nat): Mem
    requires Shaped(m.ram) && d < |m.ram| && i < 1024 && j < 1024 && Frame(m.ram[d][i]) < |m.ram|
  {
    var w := m.ram[Frame(m.ram[d][i])][j];
    var r := SetPte(m, d, i, j, 0);
    if Present(w) then r.(owner := r.owner - {Frame(w)}) else r
  }

  lemma DropBacked(m: Mem, d: nat, i: nat, j: nat)
    requires Backed(m) && IsDir(m, d) && i < 1023 && j < 1024 && Private(m, d, i)
    ensures var r := Drop(m, d, i, j); Backed(r) && Tabled(r) && Private(r, d, i)
  {
    hide SetPte, Entry, Present, Frame, Flags, Writable, User;
    Constants();
    var w := m.ram[Frame(m.ram[d][i])][j];
    var r := Drop(m, d, i, j);
    SetPteOk(m, d, i, j, 0);
    SetPteBasics(m, d, i, j, 0);
    assert Backs(m, d, i, j);
    forall x: nat, a: nat | IsDir(r, x) && a < 1024 ensures SlotOk(r, x, a) {
      assert SlotOk(SetPte(m, d, i, j, 0), x, a);
    }
    forall a | 0 <= a < 1024 ensures KernelSlot(r, a) { assert KernelSlot(SetPte(m, d, i, j, 0), a); }
    forall x | x in r.owner ensures Seated(r, x) { assert Seated(SetPte(m, d, i, j, 0), x); }
    forall x: nat, a: nat, b: nat | IsDir(r, x) && a < 1023 && b < 1024 ensures Backs(r, x, a, b) {
      assert Backs(m, x, a, b);
      assert SlotOk(m, x, a);
    }
    forall f | f in r.owner ensures Homed(r, f) { assert Homed(m, f); }
  }

  // ---------------------------------------------------------------- new directories

  function Fresh(ram: Ram, kernel: nat, d: nat): (p: seq<nat>)
    requires Shaped(ram) && kernel < |ram|
    ensures |p| == 1024
    ensures forall k {:trigger p[k]} :: 0 <= k < 1024 ==>
              p[k] == if k == 1023 then Entry(d, 2) else if k >= 768 then ram[kernel][k] else 0
  {
    seq(1024, k requires 0 <= k < 1024 => if k == 1023 then Entry(d, 2) else if k >= 768 then ram[kernel][k] else 0)
  }

  /** `memory_paging_create_page_directory` in frame `d`. */
  function NewDir(m: Mem, d: nat): Mem
    requires Shaped(m.ram) && m.kernel < |m.ram| && d < |m.ram|
  {
    Mem(m.ram[d := Fresh(m.ram, m.kernel, d)], m.owner[d := Directory], m.kernel)
  }

  /** A new directory shares the kernel's tables, maps nothing below them, and disturbs nobody. */
  lemma NewDirOk(m: Mem, d: nat)
    requires Backed(m) && d !in m.owner && 0 < d < |m.ram|
    ensures var r := NewDir(m, d);
            && Backed(r) && IsDir(r, d) && Untouched(m, r)
            && (forall i, j {:trigger Walk(r.ram, d, i, j)} :: 0 <= i < 1023 && 0 <= j < 1024 ==>
                  Walk(r.ram, d, i, j) == if i < 768 then None else Walk(m.ram, m.kernel, i, j))
  {
    hide Entry, Present, Frame, Flags, Writable, User, Fresh;
    Constants();
    var r := NewDir(m, d);
    assert forall f {:trigger r.ram[f]} :: 0 <= f < |m.ram| && f != d ==> r.ram[f] == m.ram[f];
    forall x: nat, a: nat | IsDir(r, x) && a < 1024 ensures SlotOk(r, x, a) {
      if x != d { assert SlotOk(m, x, a); } else { assert KernelSlot(m, a); }
    }
    forall a | 0 <= a < 1024 ensures KernelSlot(r, a) { assert KernelSlot(m, a); }
    forall x | x in r.owner ensures Seated(r, x) { if x != d { assert Seated(m, x); } }
    forall x: nat, a: nat, b: nat | IsDir(r, x) && a < 1023 && b < 1024 ensures Backs(r, x, a, b) {
      if x != d { assert Backs(m, x, a, b); assert SlotOk(m, x, a); } else { assert KernelSlot(m, a); }
    }
    forall f | f in r.owner ensures Homed(r, f) { if f != d { assert Homed(m, f); } }
    NewDirWalks(m, d);
  }

  lemma NewDirWalks(m: Mem, d: nat)
    requires Backed(m) && d !in m.owner && 0 < d < |m.ram|
    ensures var r := NewDir(m, d);
            && (forall x, i, j {:trigger Walk(r.ram, x, i, j)} ::
                   (IsDir(m, x) || x == m.kernel) && 0 <= i < 1023 && 0 <= j < 1024 ==>
                  Walk(r.ram, x, i, j) == Walk(m.ram, x, i, j))
            && (forall i, j {:trigger Walk(r.ram, d, i, j)} :: 0 <= i < 1023 && 0 <= j < 1024 ==>
                  Walk(r.ram, d, i, j) == if i < 768 then None else Walk(m.ram, m.kernel, i, j))
  {
    hide Entry, Present, Frame, Flags, Writable, User, Fresh;
    Constants();
    var r := NewDir(m, d);
    assert forall f {:trigger r.ram[f]} :: 0 <= f < |m.ram| && f != d ==> r.ram[f] == m.ram[f];
    forall x, i, j | (IsDir(m, x) || x == m.kernel) && 0 <= i < 1023 && 0 <= j < 1024
      ensures Walk(r.ram, x, i, j) == Walk(m.ram, x, i, j) {
      if x == m.kernel { assert KernelSlot(m, i); } else { assert SlotOk(m, x, i); }
    }
    forall i, j | 0 <= i < 1023 && 0 <= j < 1024
      ensures Walk(r.ram, d, i, j) == if i < 768 then None else Walk(m.ram, m.kernel, i, j) {
      assert KernelSlot(m, i);
    }
  }

  // ---------------------------------------------------------------- the frames of one directory

  /** `f` is the directory `d` itself, one of its tables or one of its pages. */
  predicate Mine(owner: map<nat, Role>, f: nat, d: nat) {
    f in owner && (f == d || (owner[f].Table? && owner[f].dir == d) || (owner[f].Data? && owner[f].dir == d))
  }

  /** The owners and the marks without the frames of `d`. */
  function OthersOwners(owner: map<nat, Role>, d: nat): map<nat, Role> {
    map f | f in owner && !Mine(owner, f, d) :: owner[f]
  }

  function OthersMarks(marks: seq<bool>, owner: map<nat, Role>, d: nat): (r: seq<bool>)
    ensures |r| == |marks|
    ensures forall f {:trigger r[f]} :: 0 <= f < |marks| ==> r[f] == (marks[f] && !Mine(owner, f, d))
  {
    seq(|marks|, f requires 0 <= f < |marks| => marks[f] && !Mine(owner, f, d))
  }

  /** Without a directory and all its frames the others are as well formed as before. */
  lemma DestroyBacked(m: Mem, d: nat)
    requires Backed(m) && IsDir(m, d)
    ensures var r := m.(owner := OthersOwners(m.owner, d)); Backed(r) && Untouched(r, m)
  {
    hide Entry, Present, Frame, Flags, Writable, User;
    var r := m.(owner := OthersOwners(m.owner, d));
    forall x: nat, a: nat | IsDir(r, x) && a < 1024 ensures SlotOk(r, x, a) { assert SlotOk(m, x, a); }
    forall a | 0 <= a < 1024 ensures KernelSlot(r, a) { assert KernelSlot(m, a); }
    forall x | x in r.owner ensures Seated(r, x) { assert Seated(m, x); }
    forall x: nat, a: nat, b: nat | IsDir(r, x) && a < 1023 && b < 1024 ensures Backs(r, x, a, b) {
      assert Backs(m, x, a, b); assert SlotOk(m, x, a);
    }
    forall f | f in r.owner ensures Homed(r, f) { assert Homed(m, f); }
  }
}
