/** The paging code as it edits memory in place: tables and directories are frames of `ram`, reached
    here by their physical frame number. */
module MemoryPaging {
  import opened KernelPages
  import opened Options
  import opened PageTables
  import opened Frames
  import opened SpaceRuns
  import Bitmap

  /** Directory and table index of a virtual address. */
  function Pde(address: nat): nat { address / 4194304 % 1024 }
  function Pte(address: nat): nat { address / 4096 % 1024 }

  /** Frames of `d` that the sweep has reached when it is at entry (`i`, `j`). */
  predicate Passed(owner: map<nat, Role>, f: nat, d: nat, i: nat, j: nat) {
    f in owner && match owner[f]
                  case Table(e, a) => e == d && a < i
                  case Data(e, a, b) => e == d && (a < i || (a == i && b < j))
                  case _ => false
  }

  function Swept(marks: seq<bool>, owner: map<nat, Role>, d: nat, i: nat, j: nat): (r: seq<bool>)
    ensures |r| == |marks|
    ensures forall f {:trigger r[f]} :: 0 <= f < |marks| ==> r[f] == (marks[f] && !Passed(owner, f, d, i, j))
  {
    seq(|marks|, f requires 0 <= f < |marks| => marks[f] && !Passed(owner, f, d, i, j))
  }

  /** One entry further: the frame it holds, if any, is the only one the sweep passes. */
  lemma SweepPage(m: Mem, marks: seq<bool>, d: nat, i: nat, j: nat)
    requires Backed(m) && IsDir(m, d) && i < 1023 && j < 1024 && Private(m, d, i) && |marks| == |m.ram|
    requires forall f {:trigger f in m.owner} :: f in m.owner ==> marks[f]
    ensures var w := m.ram[Frame(m.ram[d][i])][j]; var now := Swept(marks, m.owner, d, i, j);
            if Present(w) then Frame(w) < |marks| && now[Frame(w)]
              && now[Frame(w) := false] == Swept(marks, m.owner, d, i, j + 1)
            else now == Swept(marks, m.owner, d, i, j + 1)
  {
    hide Present, Frame, Flags, Writable, User;
    var w := m.ram[Frame(m.ram[d][i])][j];
    var next := Swept(marks, m.owner, d, i, j + 1);
    var now := Swept(marks, m.owner, d, i, j);
    assert Backs(m, d, i, j);
    var then_ := if Present(w) then now[Frame(w) := false] else now;
    forall f | 0 <= f < |marks| ensures then_[f] == next[f] {
      if f in m.owner { assert Homed(m, f); }
    }
  }

  /** Behind the last entry of a table comes the table itself. */
  lemma SweepTable(m: Mem, marks: seq<bool>, d: nat, i: nat)
    requires Backed(m) && IsDir(m, d) && i < 1023 && Private(m, d, i) && |marks| == |m.ram|
    requires forall f {:trigger f in m.owner} :: f in m.owner ==> marks[f]
    ensures var t := Frame(m.ram[d][i]); var now := Swept(marks, m.owner, d, i, 1024);
            t < |marks| && now[t] && now[t := false] == Swept(marks, m.owner, d, i + 1, 0)
  {
    hide Present, Frame, Flags, Writable, User;
    var t := Frame(m.ram[d][i]);
    var now, next := Swept(marks, m.owner, d, i, 1024), Swept(marks, m.owner, d, i + 1, 0);
    forall f | 0 <= f < |marks| ensures now[t := false][f] == next[f] {
      if f in m.owner { assert Homed(m, f); assert Seated(m, f); }
    }
  }

  /** A slot that is empty or the kernel's has nothing to give back. */
  lemma SweepNothing(m: Mem, marks: seq<bool>, d: nat, i: nat)
    requires Backed(m) && IsDir(m, d) && i < 1023 && !Private(m, d, i) && |marks| == |m.ram|
    ensures Swept(marks, m.owner, d, i, 0) == Swept(marks, m.owner, d, i + 1, 0)
  {
    hide Present, Frame, Flags, Writable, User;
    var now, next := Swept(marks, m.owner, d, i, 0), Swept(marks, m.owner, d, i + 1, 0);
    assert SlotOk(m, d, i);
    forall f | 0 <= f < |marks| ensures now[f] == next[f] {
      if f in m.owner { assert Homed(m, f); assert Seated(m, f); }
    }
  }

  lemma SweepStart(m: Mem, marks: seq<bool>, d: nat)
    ensures Swept(marks, m.owner, d, 0, 0) == marks
  {
    var now := Swept(marks, m.owner, d, 0, 0);
    forall f | 0 <= f < |marks| ensures now[f] == marks[f] {}
  }

  lemma SweepEnd(m: Mem, marks: seq<bool>, d: nat)
    requires Backed(m) && IsDir(m, d) && |marks| == |m.ram| && marks[d]
    ensures var now := Swept(marks, m.owner, d, 1023, 0); now[d] && now[d := false] == OthersMarks(marks, m.owner, d)
  {
    hide Present, Frame, Flags, Writable, User, Private, SlotOk;
    var now, next := Swept(marks, m.owner, d, 1023, 0), OthersMarks(marks, m.owner, d);
    forall f | 0 <= f < |marks| ensures now[d := false][f] == next[f] {
      if f in m.owner { assert Homed(m, f); assert Seated(m, f); }
    }
  }

  /** The test of the code for a table of the kernel is exact. */
  lemma SharedTest(m: Mem, d: nat, i: nat)
    requires Tabled(m) && IsDir(m, d) && i < 1023 && Present(m.ram[d][i])
    ensures Private(m, d, i) <==> Frame(m.ram[d][i]) != Frame(m.ram[m.kernel][i])
  {
    hide Present, Frame, Flags, Writable, User;
    Constants();
    assert SlotOk(m, d, i) && KernelSlot(m, i);
  }

  /** `Put` one word at a time clears a frame. */
  lemma ClearedSoFar(old_: Ram, ram: Ram, f: nat)
    requires Shaped(old_) && f < |old_| && Shaped(ram) && |ram| == |old_|
    requires (forall g :: 0 <= g < |ram| && g != f ==> ram[g] == old_[g]) && forall k :: 0 <= k < 1024 ==>
               ram[f][k] == 0
    ensures ram == Clear(old_, f)
  {
    var c := Clear(old_, f);
    assert ram[f] == c[f];
    forall g | 0 <= g < |ram| ensures ram[g] == c[g] {}
  }

  lemma BuiltDirectory(old_: Ram, kernel: nat, ram: Ram, d: nat)
    requires Shaped(old_) && kernel < |old_| && d < |old_| && d != kernel && Shaped(ram) && |ram| == |old_|
    requires forall g :: 0 <= g < |ram| && g != d ==> ram[g] == old_[g]
    requires forall k :: 0 <= k < 1024 ==>
               ram[d][k] == if k == 1023 then Entry(d, 2) else if k >= 768 then old_[kernel][k] else 0
    ensures ram == old_[d := Fresh(old_, kernel, d)]
  {
    var c := old_[d := Fresh(old_, kernel, d)];
    assert ram[d] == c[d];
    forall g | 0 <= g < |ram| ensures ram[g] == c[g] {}
  }

  class Paging {
    var ram: Ram
    var marks: seq<bool>
    var hint: nat
    const kernel: nat
    ghost var owner: map<nat, Role>

    ghost function M(): Mem
      reads this
    {
      Mem(ram, owner, kernel)
    }

    ghost function Abs(): State
      reads this
    {
      State(M(), marks, hint)
    }

    /** The part of `Sound` that does not speak about data frames. */
    ghost predicate Valid()
      reads this
    {
      && Tabled(M()) && |marks| == |ram| && hint <= |marks| && marks[0]
      && forall f {:trigger f in owner} :: f in owner ==> marks[f]
    }

    constructor (ram: Ram, marks: seq<bool>, hint: nat, kernel: nat, ghost owner: map<nat, Role>)
      requires Sound(State(Mem(ram, owner, kernel), marks, hint))
      ensures Sound(Abs()) && Abs() == State(Mem(ram, owner, kernel), marks, hint)
    {
      this.ram, this.marks, this.hint, this.kernel := ram, marks, hint, kernel;
      this.owner := owner;
    }

    method AllocateFrame() returns (f: nat)
      requires hint <= |marks| && 0 < |marks| && marks[0]
      modifies this`marks, this`hint
      ensures (Abs(), f) == Alloc(old(Abs()))
    {
      f := Bitmap.NextFree(marks, |marks|, hint);
      if f == |marks| { return 0; }
      marks, hint := marks[f := true], f;
    }

    /** Only a frame in use may be given back. */
    method FreeFrame(f: nat)
      requires f < |marks| && marks[f] && hint <= |marks|
      modifies this`marks, this`hint
      ensures Abs() == Free(old(Abs()), f)
    {
      marks := marks[f := false];
      if f < hint { hint := f; }
    }

    /** `memory_paging_reset_entry`. */
    method Reset(f: nat)
      requires Shaped(ram) && f < |ram|
      modifies this`ram
      ensures ram == Clear(old(ram), f)
    {
      for k := 0 to 1024
        invariant Shaped(ram) && |ram| == |old(ram)|
        invariant forall g {:trigger ram[g]} :: 0 <= g < |ram| && g != f ==> ram[g] == old(ram)[g]
        invariant forall l {:trigger ram[f][l]} :: 0 <= l < k ==> ram[f][l] == 0
      {
        ram := Put(ram, f, k, 0);
      }
      ClearedSoFar(old(ram), ram, f);
    }

    /** `memory_paging_map` and, for the current directory, `memory_paging_map_current`. */
    method Map(d: nat, phys: nat, address: nat, flags: nat) returns (ok: bool)
      requires Valid() && IsDir(M(), d) && Pde(address) != 1023 && flags < 4096
      requires Present(ram[d][Pde(address)]) ==> Private(M(), d, Pde(address))
      modifies this
      ensures var i, j := Pde(address), Pte(address); var (a, t) := Alloc(old(Abs()));
              && Valid() && ok == (old(Present(ram[d][i])) || t != 0)
              && if !ok then Abs() == old(Abs())
                 else if old(Present(ram[d][i]))
                   then Abs() == old(Abs()).(m := MapTo(old(M()), d, i, j, phys, flags, 0))
                 else Abs() == a.(m := MapTo(old(M()), d, i, j, phys, flags, t))
    {
      hide Private, Put, Clear, Present, Frame, Flags, Writable, User, Walk, Bitmap.NextFree;
      var i, j := Pde(address), Pte(address);
      ghost var t := 0;
      Basic(d, i);
      if !Present(ram[d][i]) {
        var table := AllocateFrame();
        if table == 0 { return false; }
        t := table;
        Reset(table);
        ram := Put(ram, d, i, Entry(table, 2));
        owner := owner[table := Table(d, i)];
      }
      MapExact(old(M()), d, i, j, phys, flags, t);
      if User(flags) { ram := Put(ram, d, i, OrUser(ram[d][i])); }
      var table := Frame(ram[d][i]);
      ram := Put(ram, table, j, Entry(phys, flags));
      ok := true;
    }

    lemma Basic(d: nat, i: nat)
      requires Valid() && IsDir(M(), d) && i < 1023 && (Present(ram[d][i]) ==> Private(M(), d, i))
      ensures d < |ram| && Shaped(ram) && d != kernel && kernel < |ram|
              && (Present(ram[d][i]) ==> Frame(ram[d][i]) < |ram|)
      ensures forall t: nat {:trigger MayMap(M(), d, i, t)} :: (0 < t < |ram| && t !in owner) || Present(ram[d][i]) ==>
                MayMap(M(), d, i, t)
    {}

    /** `memory_paging_map_kernel`, for a page of the kernel's own slots. */
    method MapKernel(phys: nat, address: nat, flags: nat) returns (ok: bool)
      requires Sound(Abs()) && 768 <= Pde(address) < 1023 && flags < 4096
      modifies this
      ensures var i, j := Pde(address), Pte(address); var (a, t) := Alloc(old(Abs()));
              && Sound(Abs()) && kernel < |old(ram)| && Shaped(old(ram))
                 && ok == (old(Present(ram[kernel][i])) || t != 0)
              && (old(Present(ram[kernel][i])) ==> Frame(old(ram)[kernel][i]) < |old(ram)|)
              && if !ok then Abs() == old(Abs())
                 else if old(Present(ram[kernel][i]))
                   then Abs() == old(Abs()).(m := MapKernelTo(old(M()), i, j, phys, flags, 0))
                 else Abs() == a.(m := MapKernelTo(old(M()), i, j, phys, flags, t))
    {
      hide Put, Clear, Present, Frame, Flags, Writable, User, Bitmap.NextFree, Backed;
      var i, j := Pde(address), Pte(address);
      ghost var t, m := 0, M();
      Parts(Abs());
      AllocSound(Abs());
      if Present(ram[kernel][i]) { KernelFrame(m, i); }
      if !Present(ram[kernel][i]) {
        var table := AllocateFrame();
        if table == 0 { return false; }
        t := table;
        Reset(table);
        ram := Put(ram, kernel, i, Entry(table, flags));
        owner := owner[table := Kernel];
      }
      MapKernelBacked(m, i, j, phys, flags, t);
      if User(flags) { ram := Put(ram, kernel, i, OrUser(ram[kernel][i])); }
      var table := Frame(ram[kernel][i]);
      ram := Put(ram, table, j, Entry(phys, flags));
      ok := true;
    }

    /** `memory_paging_unmap` and `memory_paging_unmap_current`: the frame is not given back here. */
    method Unmap(d: nat, address: nat)
      requires Valid() && IsDir(M(), d) && Pde(address) != 1023
      requires Present(ram[d][Pde(address)]) ==> Private(M(), d, Pde(address))
      modifies this`ram
      ensures Valid()
      ensures var i, j := Pde(address), Pte(address);
              M() == if old(Present(ram[d][i])) then SetPte(old(M()), d, i, j, 0) else old(M())
    {
      var i, j := Pde(address), Pte(address);
      Basic(d, i);
      if Present(ram[d][i]) {
        UnmapExact(M(), d, i, j);
        var table := Frame(ram[d][i]);
        ram := Put(ram, table, j, 0);
      }
    }

    /** `memory_paging_virtual_to_physical`: 0 if the page is not mapped. */
    method Translate(d: nat, address: nat) returns (r: nat)
      requires Shaped(ram) && d < |ram| && (Present(ram[d][Pde(address)]) ==> Frame(ram[d][Pde(address)]) < |ram|)
      ensures r == match Walk(ram, d, Pde(address), Pte(address)) case None => 0 case Some(p) =>
                p.frame * 4096 + address % 4096
    {
      var pde := ram[d][Pde(address)];
      if !Present(pde) { return 0; }
      var pte := ram[Frame(pde)][Pte(address)];
      if !Present(pte) { return 0; }
      r := Frame(pte) * 4096 + address % 4096;
    }

    /** `memory_paging_create_page_directory`; 0 if no frame is left. */
    method CreateDirectory() returns (d: nat)
      requires Sound(Abs())
      modifies this
      ensures (Abs(), d) == Create(old(Abs())) && Sound(Abs())
    {
      hide Put, Clear, Fresh, Backed, Bitmap.NextFree;
      CreateOk(Abs());
      Parts(Abs());
      KernelOwned();
      d := AllocateFrame();
      if d == 0 { return; }
      Reset(d);
      for i := 768 to 1024
        invariant Shaped(ram) && |ram| == |old(ram)| && owner == old(owner) && marks == Alloc(old(Abs())).0.marks
                  && hint == Alloc(old(Abs())).0.hint
        invariant forall g {:trigger ram[g]} :: 0 <= g < |ram| && g != d ==> ram[g] == old(ram)[g]
        invariant forall k {:trigger ram[d][k]} :: 0 <= k < 1024 ==>
                    ram[d][k] == if 768 <= k < i then old(ram)[kernel][k] else 0
      {
        ram := Put(ram, d, i, ram[kernel][i]);
      }
      ram := Put(ram, d, 1023, Entry(d, 2));
      BuiltDirectory(old(ram), kernel, ram, d);
      owner := owner[d := Directory];
    }

    lemma KernelOwned()
      requires Sound(Abs())
      ensures kernel in owner && kernel < |ram| && marks[kernel]
    {}

    /** `memory_paging_free_page_table`: gives back every page of table `i` of `d`. */
    method FreeTable(d: nat, i: nat, ghost before: seq<bool>)
      requires Backed(M()) && IsDir(M(), d) && i < 1023 && Private(M(), d, i) && |before| == |ram| && hint <= |marks|
      requires forall f {:trigger f in owner} :: f in owner ==> before[f]
      requires marks == Swept(before, owner, d, i, 0)
      modifies this`marks, this`hint
      ensures marks == Swept(before, owner, d, i, 1024) && hint <= |marks|
    {
      hide Private, Present, Frame, Flags, Writable, User, Swept;
      assert Private(M(), d, i) && Backed(M());
      TableBasics(d, i);
      var table := Frame(ram[d][i]);
      for j := 0 to 1024
        invariant marks == Swept(before, owner, d, i, j) && hint <= |marks|
      {
        SweepPage(M(), before, d, i, j);
        if Present(ram[table][j]) { FreeFrame(Frame(ram[table][j])); }
      }
    }

    lemma TableBasics(d: nat, i: nat)
      requires Tabled(M()) && IsDir(M(), d) && i < 1023
      ensures d < |ram| && Shaped(ram) && kernel < |ram|
              && (Private(M(), d, i) ==> Frame(ram[d][i]) < |ram| && Present(ram[d][i]))
    {}

    /** `memory_paging_free_page_directory`: gives back every private table and page, none of the kernel's. */
    method FreeDirectory(d: nat)
      requires Sound(Abs()) && IsDir(M(), d)
      modifies this`marks, this`hint
      ensures marks == Swept(old(marks), owner, d, 1023, 0) && hint <= |marks|
    {
      hide Private, Present, Frame, Flags, Writable, User, Swept;
      ghost var before := marks;
      SweepStart(M(), before, d);
      TableBasics(d, 0);
      for i := 0 to 1024
        invariant marks == Swept(before, owner, d, if i < 1023 then i else 1023, 0) && hint <= |marks|
      {
        if i == 1023 { continue; }
        TableBasics(d, i);
        if !Present(ram[d][i]) {
          SweepNothing(M(), before, d, i);
          continue;
        }
        SharedTest(M(), d, i);
        if Frame(ram[d][i]) == Frame(ram[kernel][i]) {
          SweepNothing(M(), before, d, i);
          continue;
        }
        FreeTable(d, i, before);
        SweepTable(M(), before, d, i);
        FreeFrame(Frame(ram[d][i]));
      }
    }

    /** Tear-down of an address space, at reaping or after exec. */
    method DestroyDirectory(d: nat)
      requires Sound(Abs()) && IsDir(M(), d)
      modifies this`marks, this`hint, this`owner
      ensures Destroyed(old(Abs()), d, Abs()) && Sound(Abs())
    {
      FreeDirectory(d);
      SweepEnd(M(), old(marks), d);
      FreeFrame(d);
      owner := OthersOwners(owner, d);
      DestroyOk(old(Abs()), d, Abs());
    }

    /** A fresh page, as the ELF loader and the stack set-up map it. */
    method MapFreshPage(d: nat, address: nat, flags: nat) returns (ok: bool)
      requires Sound(Abs()) && OwnSlot(Abs(), d, Pde(address)) && flags < 4096
               && Walk(ram, d, Pde(address), Pte(address)) == None
      modifies this
      ensures (Abs(), ok) == MapFresh(old(Abs()), d, Pde(address), Pte(address), flags) && Sound(Abs())
    {
      hide Private, Present, Frame, Flags, Writable, User, Walk, MapTo, Backed, Bitmap.NextFree;
      MapFreshOk(Abs(), d, Pde(address), Pte(address), flags);
      SpaceRuns.Basics(Abs(), d, Pde(address));
      AllocSound(Abs());
      var f := AllocateFrame();
      if f == 0 { return false; }
      ok := Map(d, f, address, flags);
      if !ok { FreeFrame(f); return; }
      owner := owner[f := Data(d, Pde(address), Pte(address))];
    }

    /** Translate, unmap and free, as `sbrk` does for each page. */
    method ReleasePage(d: nat, address: nat)
      requires Sound(Abs()) && OwnSlot(Abs(), d, Pde(address)) && address % 4096 == 0
      modifies this
      ensures Abs() == UnmapFree(old(Abs()), d, Pde(address), Pte(address)) && Sound(Abs())
    {
      hide Private, Present, Frame, Flags, Writable, User, Backed;
      var i, j := Pde(address), Pte(address);
      UnmapFreeOk(Abs(), d, i, j);
      SpaceRuns.Basics(Abs(), d, i);
      if Present(ram[d][i]) { DropBacked(M(), d, i, j); UnmapExact(M(), d, i, j); DropShape(Abs(), d, i, j); }
      ghost var s := Abs();
      var phys := Translate(d, address);
      Unmap(d, address);
      if phys != 0 {
        var f := phys / 4096;
        owner := owner - {f};
        FreeFrame(f);
      }
    }
  }
}
