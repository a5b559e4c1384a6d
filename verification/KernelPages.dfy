/** Pages mapped in the kernel's own directory, and which of the other directories see them. */
module KernelPages {
  import opened Options
  import opened PageTables
  import opened Frames

  /** A table for an empty slot of the kernel's directory; its entry gets the flags of the page. */
  function AddKernelTable(m: Mem, i: nat, flags: nat, t: nat): Mem
    requires Shaped(m.ram) && m.kernel < |m.ram| && t < |m.ram| && i < 1024 && flags < 4096
  {
    Mem(Put(Clear(m.ram, t), m.kernel, i, Entry(t, flags)), m.owner[t := Kernel], m.kernel)
  }

  /** The whole of `memory_paging_map_kernel`; `t` is the frame taken for a missing table. With flags 2 it is also
      what `memory_paging_map` does to the kernel's directory when the kernel heap grows. */
  function MapKernelTo(m: Mem, i: nat, j: nat, phys: nat, flags: nat, t: nat): Mem
    requires Shaped(m.ram) && m.kernel < |m.ram| && i < 1024 && j < 1024 && flags < 4096
    requires if Present(m.ram[m.kernel][i]) then Frame(m.ram[m.kernel][i]) < |m.ram| else t < |m.ram|
  {
    var m1 := if Present(m.ram[m.kernel][i]) then m else AddKernelTable(m, i, flags, t);
    var m2 := if User(flags) then SetUser(m1, m.kernel, i) else m1;
    SetPte(m2, m.kernel, i, j, Entry(phys, flags))
  }

  /** A kernel slot, with a fresh frame at hand if it has no table. */
  ghost predicate MayMapKernel(m: Mem, i: nat, t: nat) {
    Tabled(m) && 768 <= i < 1023 && (Present(m.ram[m.kernel][i]) || (t !in m.owner && 0 < t < |m.ram|))
  }

  /** No two slots of the kernel's directory have one table. */
  ghost predicate OneTableEach(m: Mem)
    requires Shaped(m.ram) && m.kernel < |m.ram|
  {
    forall a, b {:trigger m.ram[m.kernel][a], m.ram[m.kernel][b]} ::
      0 <= a < b < 1023 && Present(m.ram[m.kernel][a]) && Present(m.ram[m.kernel][b]) ==>
        Frame(m.ram[m.kernel][a]) != Frame(m.ram[m.kernel][b])
  }

  /** The directories are the same word by word, with the same tables shared and the same tables of their own. */
  ghost predicate SameDirs(m: Mem, r: Mem)
    requires Tabled(m) && Tabled(r)
  {
    && |r.ram| == |m.ram| && r.kernel == m.kernel
    && (forall d {:trigger IsDir(r, d)} {:trigger IsDir(m, d)} :: IsDir(m, d) <==> IsDir(r, d))
    && (forall d {:trigger r.ram[d]} :: 0 <= d < |m.ram| && IsDir(m, d) ==> r.ram[d] == m.ram[d])
    && (forall d, a {:trigger Shared(r, d, a)} :: IsDir(m, d) && 0 <= a < 1024 ==>
           (Shared(m, d, a) <==> Shared(r, d, a)))
    && (forall d: nat, a: nat {:trigger Private(r, d, a)} {:trigger Private(m, d, a)} :: IsDir(m, d) && a < 1024 ==>
          && (Private(m, d, a) <==> Private(r, d, a))
          && (Private(m, d, a) ==> r.ram[Frame(m.ram[d][a])] == m.ram[Frame(m.ram[d][a])]))
    && (forall f {:trigger f in r.owner} :: f in r.owner ==>
           if f in m.owner then r.owner[f] == m.owner[f] else r.owner[f] == Kernel)
    && (forall f {:trigger f in m.owner} :: f in m.owner ==> f in r.owner)
  }

  lemma KernelFrame(m: Mem, i: nat)
    requires Tabled(m) && i < 1023 && Present(m.ram[m.kernel][i])
    ensures var f := Frame(m.ram[m.kernel][i]); f < |m.ram| && Is(m, f, Kernel) && f != m.kernel && !IsDir(m, f)
  {
    assert KernelSlot(m, i);
  }

  /** A new table leaves everything well formed, and no walk of a directory notices. */
  lemma AddKernelTableOk(m: Mem, i: nat, flags: nat, t: nat)
    requires Tabled(m) && 768 <= i < 1023 && flags < 4096 && !Present(m.ram[m.kernel][i])
    requires t !in m.owner && 0 < t < |m.ram|
    ensures var r := AddKernelTable(m, i, flags, t);
            && Tabled(r) && SameDirs(m, r) && Present(r.ram[r.kernel][i]) && Frame(r.ram[r.kernel][i]) == t
            && (OneTableEach(m) ==> OneTableEach(r))
            && forall d, a, b {:trigger Walk(r.ram, d, a, b)} :: IsDir(m, d) && 0 <= a < 1023 && 0 <= b < 1024 ==>
                 Walk(r.ram, d, a, b) == Walk(m.ram, d, a, b)
  {
    hide Put, Clear, Entry, Present, Frame, Flags, Writable, User, OneTableEach;
    var r := AddKernelTable(m, i, flags, t);
    var c := Clear(m.ram, t);
    Constants();
    assert c[m.kernel] == m.ram[m.kernel];
    forall x: nat, a: nat | IsDir(m, x) && a < 1024
      ensures r.ram[x] == m.ram[x] && SlotOk(m, x, a)
      ensures a < 1023 && Present(m.ram[x][a]) ==> var f := Frame(m.ram[x][a]); f < |m.ram| && r.ram[f] == m.ram[f]
    {
      assert SlotOk(m, x, a) && r.ram[x] == c[x];
      if a < 1023 && Present(m.ram[x][a]) {
        assert KernelSlot(m, a);
        assert r.ram[Frame(m.ram[x][a])] == c[Frame(m.ram[x][a])];
      }
    }
    forall x: nat, a: nat | IsDir(r, x) && a < 1024 ensures SlotOk(r, x, a) { assert SlotOk(m, x, a); }
    forall a | 0 <= a < 1024 ensures KernelSlot(r, a) { assert KernelSlot(m, a); }
    forall x | x in r.owner ensures Seated(r, x) { if x != t { assert Seated(m, x); } }
    if OneTableEach(m) { NewTableApart(m, i, flags, t); }
  }

  lemma NewTableApart(m: Mem, i: nat, flags: nat, t: nat)
    requires Tabled(m) && 768 <= i < 1023 && flags < 4096 && !Present(m.ram[m.kernel][i]) && OneTableEach(m)
    requires t !in m.owner && 0 < t < |m.ram|
    ensures OneTableEach(AddKernelTable(m, i, flags, t))
  {
    hide Entry, Present, Frame, Flags, Writable, User;
    var c := Clear(m.ram, t);
    assert c[m.kernel] == m.ram[m.kernel];
    forall a | 0 <= a < 1023 && Present(m.ram[m.kernel][a]) ensures Frame(m.ram[m.kernel][a]) != t {
      KernelFrame(m, a);
    }
  }

  /** The user bit in the kernel's directory reaches no other directory. */
  lemma SetKernelUserOk(m: Mem, i: nat)
    requires Tabled(m) && 768 <= i < 1023 && Present(m.ram[m.kernel][i])
    ensures var r := SetUser(m, m.kernel, i);
            && Tabled(r) && SameDirs(m, r) && Present(r.ram[r.kernel][i])
            && Frame(r.ram[r.kernel][i]) == Frame(m.ram[m.kernel][i])
            && (OneTableEach(m) ==> OneTableEach(r))
            && forall d, a, b {:trigger Walk(r.ram, d, a, b)} :: IsDir(m, d) && 0 <= a < 1023 && 0 <= b < 1024 ==>
                 Walk(r.ram, d, a, b) == Walk(m.ram, d, a, b)
  {
    hide Put, Present, Frame, Flags, Writable, User, OrUser;
    var r := SetUser(m, m.kernel, i);
    SetUserBasics(m, m.kernel, i);
    forall x: nat, a: nat | IsDir(m, x) && a < 1024
      ensures r.ram[x] == m.ram[x] && SlotOk(m, x, a)
      ensures a < 1023 && Present(m.ram[x][a]) ==> var f := Frame(m.ram[x][a]); f < |m.ram| && r.ram[f] == m.ram[f]
    {
      assert SlotOk(m, x, a);
      assert KernelSlot(m, a);
    }
    forall x: nat, a: nat | IsDir(r, x) && a < 1024 ensures SlotOk(r, x, a) { assert SlotOk(m, x, a); }
    forall a | 0 <= a < 1024 ensures KernelSlot(r, a) { assert KernelSlot(m, a); }
    forall x | x in r.owner ensures Seated(r, x) { assert Seated(m, x); }
  }

  lemma SameDirsBacked(m: Mem, r: Mem)
    requires Backed(m) && Tabled(r) && SameDirs(m, r)
    ensures Backed(r)
  {
    hide Private, Shared, Present, Frame;
    forall x: nat, a: nat, b: nat | IsDir(r, x) && a < 1023 && b < 1024 ensures Backs(r, x, a, b) {
      assert IsDir(m, x) && Backs(m, x, a, b);
    }
    forall f | f in r.owner ensures Homed(r, f) { if f in m.owner { assert Homed(m, f); } }
  }

  /** The word that directory `d` finds for page (`i`, `j`) after the entry `w` was written in the kernel's table. */
  ghost function Seen(m: Mem, d: nat, i: nat, j: nat, w: nat): Option<Mapping>
    requires Shaped(m.ram) && m.kernel < |m.ram| && d < |m.ram| && i < 1024 && j < 1024
  {
    if !Shared(m, d, i) then Walk(m.ram, d, i, j)
    else if !Present(w) then None
    else Some(Mapping(Frame(w), Flags(w), Writable(m.ram[d][i]) && Writable(w), User(m.ram[d][i]) && User(w)))
  }

  /** An entry of a kernel table changes the page for the directories that share the table, for all of them
      and for no other. */
  lemma SetKernelPteOk(m: Mem, i: nat, j: nat, w: nat)
    requires Tabled(m) && 768 <= i < 1023 && j < 1024 && Present(m.ram[m.kernel][i])
    ensures Frame(m.ram[m.kernel][i]) < |m.ram|
    ensures var r := SetPte(m, m.kernel, i, j, w);
            && Tabled(r) && SameDirs(m, r) && (OneTableEach(m) ==> OneTableEach(r))
            && (forall d {:trigger Walk(r.ram, d, i, j)} :: IsDir(m, d) ==>
                  Walk(r.ram, d, i, j) == Seen(m, d, i, j, w))
            && (OneTableEach(m) ==>
                  forall d, a, b {:trigger Walk(r.ram, d, a, b)} ::
                    IsDir(m, d) && 0 <= a < 1023 && 0 <= b < 1024 && (a, b) != (i, j) ==>
                      Walk(r.ram, d, a, b) == Walk(m.ram, d, a, b))
  {
    hide Put, Entry, Present, Frame, Flags, Writable, User;
    KernelFrame(m, i);
    var r := SetPte(m, m.kernel, i, j, w);
    var t := Frame(m.ram[m.kernel][i]);
    SetPteBasics(m, m.kernel, i, j, w);
    forall x: nat, a: nat | IsDir(m, x) && a < 1023
      ensures r.ram[x] == m.ram[x] && SlotOk(m, x, a)
      ensures Present(m.ram[x][a]) ==> var f := Frame(m.ram[x][a]);
              f < |m.ram| && (f != t ==> r.ram[f] == m.ram[f]) && (f == t ==> Shared(m, x, a))
      ensures Shared(m, x, a) && a == i ==> Frame(m.ram[x][a]) == t
    {
      assert SlotOk(m, x, a) && KernelSlot(m, a);
    }
    forall x: nat, a: nat | IsDir(r, x) && a < 1024 ensures SlotOk(r, x, a) { assert SlotOk(m, x, a); }
    forall a | 0 <= a < 1024 ensures KernelSlot(r, a) { assert KernelSlot(m, a); }
    forall x | x in r.owner ensures Seated(r, x) { assert Seated(m, x); }
  }

  ghost predicate Shows(p: Option<Mapping>, phys: nat) { p.Some? && p.value.frame == phys }

  /** Mapping a kernel page keeps every directory as it was, word by word. */
  lemma MapKernelOk(m: Mem, i: nat, j: nat, phys: nat, flags: nat, t: nat)
    requires MayMapKernel(m, i, t) && j < 1024 && flags < 4096
    ensures Present(m.ram[m.kernel][i]) ==> Frame(m.ram[m.kernel][i]) < |m.ram|
    ensures var r := MapKernelTo(m, i, j, phys, flags, t);
            && Tabled(r) && SameDirs(m, r) && (OneTableEach(m) ==> OneTableEach(r))
            && Shows(Walk(r.ram, m.kernel, i, j), phys)
            && (forall d {:trigger Walk(r.ram, d, i, j)} :: IsDir(m, d) ==>
                  Walk(r.ram, d, i, j) == Seen(m, d, i, j, Entry(phys, flags)))
            && (OneTableEach(m) ==>
                  forall d, a, b {:trigger Walk(r.ram, d, a, b)} ::
                    IsDir(m, d) && 0 <= a < 1023 && 0 <= b < 1024 && (a, b) != (i, j) ==>
                      Walk(r.ram, d, a, b) == Walk(m.ram, d, a, b))
  {
    hide AddKernelTable, SetUser, SetPte, Put, Present, Frame, Flags, Writable, User, Entry, Walk, OneTableEach,
         Private, Shared;
    if Present(m.ram[m.kernel][i]) { KernelFrame(m, i); } else { AddKernelTableOk(m, i, flags, t); }
    var m1 := if Present(m.ram[m.kernel][i]) then m else AddKernelTable(m, i, flags, t);
    if User(flags) { SetKernelUserOk(m1, i); }
    var m2 := if User(flags) then SetUser(m1, m.kernel, i) else m1;
    var w := Entry(phys, flags);
    SetKernelPteOk(m2, i, j, w);
    KernelWalk(m2, i, j, w);
    forall d: nat | IsDir(m, d)
      ensures d < |m.ram| && Seen(m2, d, i, j, w) == Seen(m, d, i, j, w)
    {
      assert SlotOk(m, d, i) && SlotOk(m2, d, i);
      assert Walk(m2.ram, d, i, j) == Walk(m.ram, d, i, j);
      assert Shared(m2, d, i) <==> Shared(m, d, i);
      assert m2.ram[d] == m.ram[d];
    }
  }

  /** Mapping a kernel page, with or without a table there: directory `d` gets the page, with the rights
      that its own copy of the slot allows, if and only if it shared the kernel's table before the call. A
      directory made before the table was added does not, and keeps what it mapped. */
  lemma KernelPageSeen(m: Mem, d: nat, i: nat, j: nat, phys: nat, flags: nat, t: nat)
    requires MayMapKernel(m, i, t) && IsDir(m, d) && j < 1024 && flags < 4096
    ensures Present(m.ram[m.kernel][i]) ==> Frame(m.ram[m.kernel][i]) < |m.ram|
    ensures var r := MapKernelTo(m, i, j, phys, flags, t);
            && Tabled(r) && SameDirs(m, r) && Shows(Walk(r.ram, m.kernel, i, j), phys)
            && (Shared(m, d, i) ==>
                  Walk(r.ram, d, i, j) == Some(Mapping(phys, OrPresent(flags), Writable(m.ram[d][i]) && Writable(flags),
                                                       User(m.ram[d][i]) && User(flags))))
            && (!Shared(m, d, i) ==> Walk(r.ram, d, i, j) == Walk(m.ram, d, i, j))
            && (!Shows(Walk(m.ram, d, i, j), phys) ==> (Shows(Walk(r.ram, d, i, j), phys) <==> Shared(m, d, i)))
  {
    hide MapKernelTo, Present, Frame, Flags, Writable, User, Walk, Private, Shared, OneTableEach, SameDirs;
    MapKernelOk(m, i, j, phys, flags, t);
  }

  lemma MapKernelBacked(m: Mem, i: nat, j: nat, phys: nat, flags: nat, t: nat)
    requires Backed(m) && MayMapKernel(m, i, t) && j < 1024 && flags < 4096
    ensures Present(m.ram[m.kernel][i]) ==> Frame(m.ram[m.kernel][i]) < |m.ram|
    ensures var r := MapKernelTo(m, i, j, phys, flags, t);
            && Backed(r) && |r.ram| == |m.ram|
            && r.owner == if Present(m.ram[m.kernel][i]) then m.owner else m.owner[t := Kernel]
  {
    hide Present, Frame, Flags, Writable, User, Walk, Private, Shared, OneTableEach, SameDirs, Backed, Put, Clear,
         Entry;
    MapKernelOk(m, i, j, phys, flags, t);
    SameDirsBacked(m, MapKernelTo(m, i, j, phys, flags, t));
    SameSize(m, MapKernelTo(m, i, j, phys, flags, t));
  }

  lemma SameSize(m: Mem, r: Mem)
    requires Tabled(m) && Tabled(r) && SameDirs(m, r)
    ensures |r.ram| == |m.ram|
  {}

  lemma KernelWalk(m: Mem, i: nat, j: nat, w: nat)
    requires Tabled(m) && i < 1023 && j < 1024 && Present(m.ram[m.kernel][i]) && Present(w)
    ensures Frame(m.ram[m.kernel][i]) < |m.ram|
    ensures Shows(Walk(SetPte(m, m.kernel, i, j, w).ram, m.kernel, i, j), Frame(w))
  {
    hide Present, Frame, Flags, Writable, User;
    KernelFrame(m, i);
  }

  // ---------------------------------------------------------------- the life of a directory

  /** A new directory shares exactly the tables that the kernel's directory has when it is made. */
  lemma SharedAtBirth(m: Mem, d: nat, i: nat)
    requires Backed(m) && d !in m.owner && 0 < d < |m.ram| && 768 <= i < 1023
    ensures var r := NewDir(m, d);
            Backed(r) && IsDir(r, d) && r.kernel == m.kernel && |r.ram| == |m.ram|
            && (Shared(r, d, i) <==> Present(m.ram[m.kernel][i]))
  {
    hide Entry, Present, Frame, Flags, Writable, User;
    NewDirOk(m, d);
    assert KernelSlot(m, i);
    assert NewDir(m, d).ram[m.kernel] == m.ram[m.kernel];
  }

  /** A call of `memory_paging_map_kernel`. */
  datatype Call = Call(i: nat, j: nat, phys: nat, flags: nat, t: nat)

  ghost predicate Allowed(m: Mem, c: Call) { MayMapKernel(m, c.i, c.t) && c.j < 1024 && c.flags < 4096 }

  ghost function MappedBy(m: Mem, c: Call): (r: Mem)
    requires Allowed(m, c)
  {
    if Present(m.ram[m.kernel][c.i]) then KernelFrame(m, c.i); MapKernelTo(m, c.i, c.j, c.phys, c.flags, c.t)
    else MapKernelTo(m, c.i, c.j, c.phys, c.flags, c.t)
  }

  ghost predicate Possible(m: Mem, calls: seq<Call>)
    decreases |calls|
  {
    calls == [] || (Allowed(m, calls[0]) && Possible(MappedBy(m, calls[0]), calls[1..]))
  }

  ghost function After(m: Mem, calls: seq<Call>): Mem
    requires Possible(m, calls)
    decreases |calls|
  {
    if calls == [] then m else After(MappedBy(m, calls[0]), calls[1..])
  }

  lemma {:induction false} SharedStays(m: Mem, d: nat, i: nat, calls: seq<Call>)
    requires Tabled(m) && IsDir(m, d) && i < 1023 && Possible(m, calls)
    ensures var r := After(m, calls);
            Tabled(r) && r.kernel == m.kernel && IsDir(r, d) && (Shared(r, d, i) <==> Shared(m, d, i))
    decreases |calls|
  {
    hide MapKernelTo, Shared, Present, Frame, MayMapKernel;
    if calls != [] {
      var c := calls[0];
      KernelPageSeen(m, d, c.i, c.j, c.phys, c.flags, c.t);
      SharedStays(MappedBy(m, c), d, i, calls[1..]);
    }
  }

  /** However many kernel pages were mapped since a directory was made: it sees the next one if and only if the
      kernel had the table for that page when the directory was made. */
  lemma SeenIffTableAtBirth(m: Mem, d: nat, calls: seq<Call>, c: Call)
    requires Backed(m) && d !in m.owner && 0 < d < |m.ram| && Possible(NewDir(m, d), calls)
    requires Allowed(After(NewDir(m, d), calls), c)
    ensures var b := After(NewDir(m, d), calls); var r := MappedBy(b, c);
            && Tabled(b) && Tabled(r) && IsDir(b, d) && IsDir(r, d) && r.kernel == m.kernel
            && Shows(Walk(r.ram, m.kernel, c.i, c.j), c.phys)
            && (Present(m.ram[m.kernel][c.i]) ==> Shows(Walk(r.ram, d, c.i, c.j), c.phys))
            && (!Present(m.ram[m.kernel][c.i]) ==> Walk(r.ram, d, c.i, c.j) == Walk(b.ram, d, c.i, c.j))
  {
    hide MapKernelTo, NewDir, Shared, Present, Frame, Walk;
    SharedAtBirth(m, d, c.i);
    var b := After(NewDir(m, d), calls);
    SharedStays(NewDir(m, d), d, c.i, calls);
    KernelPageSeen(b, d, c.i, c.j, c.phys, c.flags, c.t);
  }

  // ---------------------------------------------------------------- a directory that misses a page

  /** Frame 1 holds the kernel's directory, which maps nothing but itself. */
  ghost function TinyKernel(): (m: Mem)
    ensures Shaped(m.ram) && |m.ram| == 4 && m.kernel == 1 && m.owner == map[1 := Kernel]
    ensures forall k {:trigger m.ram[1][k]} :: 0 <= k < 1024 ==> m.ram[1][k] == if k == 1023 then Entry(1, 2) else 0
  {
    var page: seq<nat> := PageTables.Zeros()[1023 := Entry(1, 2)];
    Mem([PageTables.Zeros(), page, PageTables.Zeros(), PageTables.Zeros()], map[1 := Kernel], 1)
  }

  lemma TinyKernelOk()
    ensures Backed(TinyKernel())
  {
    hide TinyKernel, Entry, Present, Frame, Flags, Writable, User;
    Constants();
    var m := TinyKernel();
    assert forall x :: !IsDir(m, x);
    forall a | 0 <= a < 1024 ensures KernelSlot(m, a) { assert m.ram[1][a] == if a == 1023 then Entry(1, 2) else 0; }
    forall x | x in m.owner ensures Seated(m, x) && Homed(m, x) {}
  }

  /** A directory in frame 2 of the tiny kernel does not see the page that the kernel then maps in slot 800. */
  lemma KernelPageCanBeMissed()
    ensures var b := NewDir(TinyKernel(), 2); var c := Call(800, 0, 5, 3, 3);
            && Backed(b) && IsDir(b, 2) && Allowed(b, c) && Tabled(MappedBy(b, c))
            && Walk(MappedBy(b, c).ram, 1, 800, 0).Some? && Walk(MappedBy(b, c).ram, 2, 800, 0) == None
  {
    hide TinyKernel, NewDir, MappedBy, Walk;
    TinyKernelOk();
    var m := TinyKernel();
    NewDirOk(m, 2);
    var b := NewDir(m, 2);
    assert Allowed(b, Call(800, 0, 5, 3, 3)) by { TinyAllowed(m); }
    Constants();
    assert m.ram[1][800] == 0;
    NoTable(m, 1, 800, 0);
    var none: seq<Call> := [];
    assert Possible(b, none) && After(b, none) == b;
    SeenIffTableAtBirth(m, 2, none, Call(800, 0, 5, 3, 3));
  }

  lemma NoTable(m: Mem, d: nat, i: nat, j: nat)
    requires Shaped(m.ram) && d < |m.ram| && i < 1024 && j < 1024 && !Present(m.ram[d][i])
    ensures Walk(m.ram, d, i, j) == None
  {}

  lemma TinyAllowed(m: Mem)
    requires m == TinyKernel() && Backed(m) && Tabled(NewDir(m, 2))
    ensures Allowed(NewDir(m, 2), Call(800, 0, 5, 3, 3))
  {
    hide TinyKernel, Entry;
    Constants();
    assert NewDir(m, 2).ram[1] == m.ram[1] && m.ram[1][800] == 0;
  }
}
