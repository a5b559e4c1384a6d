/** Two-level page tables in physical memory: the entries, the walk of section 4.3 of the Intel SDM
    (volume 3A), who owns which frame, and what one update does to every walk. */
module PageTables {
  import opened Options

  // ---------------------------------------------------------------- entries

  function Frame(w: nat): nat { w / 4096 }
  function Flags(w: nat): nat { w % 4096 }
  predicate Present(w: nat) { Flags(w) % 2 == 1 }
  predicate Writable(w: nat) { Flags(w) / 2 % 2 == 1 }
  predicate User(w: nat) { Flags(w) / 4 % 2 == 1 }

  /** `frame | flags | PAGE_PRESENT`. */
  function Entry(frame: nat, flags: nat): (w: nat)
    requires flags < 4096
    ensures Present(w) && Frame(w) == frame && Writable(w) == Writable(flags) && User(w) == User(flags)
    ensures Flags(w) == OrPresent(flags)
  {
    var w := frame * 4096 + OrPresent(flags);
    assert Frame(w) == frame && Flags(w) == OrPresent(flags);
    w
  }

  /** `flags | PAGE_PRESENT`. */
  function OrPresent(flags: nat): (r: nat)
    ensures r % 2 == 1 && r / 2 == flags / 2
  {
    if flags % 2 == 1 then flags else flags + 1
  }

  /** The binary digits of `8 * q + 4 + 2 * b + c`. */
  lemma Digits(q: nat, b: nat, c: nat)
    requires b < 2 && c < 2
    ensures var r := 8 * q + 4 + 2 * b + c; r % 2 == c && r / 2 % 2 == b && r / 4 % 2 == 1
  {
    var r := 8 * q + 4 + 2 * b + c;
    var h := 4 * q + 2 + b;
    assert r == 2 * h + c;
    assert r / 2 == h;
    assert h == 2 * (2 * q + 1) + b;
    assert r / 4 == 2 * q + 1;
  }

  /** `p | 4` for the low twelve bits. */
  function OrFour(p: nat): (r: nat)
    requires p < 4096
    ensures r < 4096 && r / 4 % 2 == 1 && r % 2 == p % 2 && r / 2 % 2 == p / 2 % 2 && r / 8 == p / 8
  {
    Digits(p / 8, p / 2 % 2, p % 2);
    8 * (p / 8) + 4 + 2 * (p / 2 % 2) + p % 2
  }

  /** `w | PAGE_USER`. */
  function OrUser(w: nat): (r: nat)
    ensures User(r) && Present(r) == Present(w) && Frame(r) == Frame(w) && Writable(r) == Writable(w)
    ensures Flags(r) / 8 == Flags(w) / 8
  {
    var p := OrFour(Flags(w));
    var r := Frame(w) * 4096 + p;
    assert Frame(r) == Frame(w) && Flags(r) == p;
    r
  }

  // ---------------------------------------------------------------- memory

  type Ram = seq<seq<nat>>

  predicate Shaped(ram: Ram) { forall f :: 0 <= f < |ram| ==> |ram[f]| == 1024 }

  function Put(ram: Ram, f: nat, k: nat, w: nat): (r: Ram)
    requires Shaped(ram) && f < |ram| && k < 1024
    ensures Shaped(r) && |r| == |ram|
    ensures forall g {:trigger r[g]} :: 0 <= g < |ram| && g != f ==> r[g] == ram[g]
    ensures forall l {:trigger r[f][l]} :: 0 <= l < 1024 ==> r[f][l] == if l == k then w else ram[f][l]
  {
    var page: seq<nat> := ram[f][k := w];
    ram[f := page]
  }

  function Zeros(): (z: seq<nat>)
    ensures |z| == 1024 && forall k {:trigger z[k]} :: 0 <= k < 1024 ==> z[k] == 0
  {
    seq(1024, _ => 0)
  }

  function Clear(ram: Ram, f: nat): (r: Ram)
    requires Shaped(ram) && f < |ram|
    ensures Shaped(r) && |r| == |ram|
    ensures forall g {:trigger r[g]} :: 0 <= g < |ram| && g != f ==> r[g] == ram[g]
    ensures forall l {:trigger r[f][l]} :: 0 <= l < 1024 ==> r[f][l] == 0
  {
    ram[f := Zeros()]
  }

  /** What the processor makes of a page: rights need both levels. */
  datatype Mapping = Mapping(frame: nat, flags: nat, writable: bool, user: bool)

  function Walk(ram: Ram, d: nat, i: nat, j: nat): Option<Mapping>
    requires Shaped(ram) && d < |ram| && i < 1024 && j < 1024
  {
    var pde := ram[d][i];
    if !Present(pde) || Frame(pde) >= |ram| then None
    else
      var pte := ram[Frame(pde)][j];
      if !Present(pte) then None
      else Some(Mapping(Frame(pte), Flags(pte), Writable(pde) && Writable(pte), User(pde) && User(pte)))
  }

  // ---------------------------------------------------------------- ownership

  /** Why a frame is in use: `Kernel` for the kernel's directory and its tables. */
  datatype Role = Kernel | Directory | Table(dir: nat, i: nat) | Data(dir: nat, i: nat, j: nat)

  datatype Mem = Mem(ram: Ram, owner: map<nat, Role>, kernel: nat)

  ghost predicate Is(m: Mem, f: nat, r: Role) { f in m.owner && m.owner[f] == r }

  /** The directories whose walks are compared. */
  ghost predicate IsDir(m: Mem, d: nat) { Is(m, d, Directory) }

  /** Slot `i` of `d` holds a table of its own. */
  ghost predicate Private(m: Mem, d: nat, i: nat)
    requires Shaped(m.ram) && d < |m.ram| && i < 1024
  {
    var w := m.ram[d][i];
    Present(w) && i < 1023 && Is(m, Frame(w), Table(d, i)) && Frame(w) < |m.ram| && Writable(w)
    && forall j :: 0 <= j < 1024 && Present(m.ram[Frame(w)][j]) && User(m.ram[Frame(w)][j]) ==> User(w)
  }

  /** Slot `i` of `d` holds a table of the kernel's directory. */
  ghost predicate Shared(m: Mem, d: nat, i: nat)
    requires Shaped(m.ram) && d < |m.ram| && m.kernel < |m.ram| && i < 1024
  {
    && 768 <= i < 1023 && Present(m.ram[d][i]) && Present(m.ram[m.kernel][i])
    && Frame(m.ram[d][i]) == Frame(m.ram[m.kernel][i]) < |m.ram| && Is(m, Frame(m.ram[d][i]), Kernel)
  }

  ghost predicate SlotOk(m: Mem, d: nat, i: nat)
    requires Shaped(m.ram) && d < |m.ram| && m.kernel < |m.ram| && i < 1024
  {
    if i == 1023 then m.ram[d][i] == Entry(d, 2)
    else Present(m.ram[d][i]) ==> Private(m, d, i) || Shared(m, d, i)
  }

  /** A slot of the kernel's directory: empty or a table of the kernel. */
  ghost predicate KernelSlot(m: Mem, i: nat)
    requires Shaped(m.ram) && m.kernel < |m.ram| && i < 1024
  {
    if Present(m.ram[m.kernel][i]) then
      && Frame(m.ram[m.kernel][i]) < |m.ram| && Is(m, Frame(m.ram[m.kernel][i]), Kernel)
      && (i < 1023 ==> Frame(m.ram[m.kernel][i]) != m.kernel)
    else m.ram[m.kernel][i] == 0
  }

  /** A table frame sits in the slot its role names. */
  ghost predicate Seated(m: Mem, t: nat)
    requires Shaped(m.ram) && t in m.owner
  {
    m.owner[t].Table? ==>
      var d, i := m.owner[t].dir, m.owner[t].i;
      IsDir(m, d) && d < |m.ram| && i < 1023 && Present(m.ram[d][i]) && Frame(m.ram[d][i]) == t
  }

  ghost predicate Tabled(m: Mem) {
    && Shaped(m.ram) && m.kernel < |m.ram| && Is(m, m.kernel, Kernel)
    && (forall f {:trigger f in m.owner} :: f in m.owner ==> 0 < f < |m.ram|)
    && (forall d, i {:trigger SlotOk(m, d, i)} :: IsDir(m, d) && 0 <= i < 1024 ==> SlotOk(m, d, i))
    && (forall i {:trigger KernelSlot(m, i)} :: 0 <= i < 1024 ==> KernelSlot(m, i))
    && (forall t {:trigger Seated(m, t)} :: t in m.owner ==> Seated(m, t))
  }

  /** Page (`i`, `j`) of every directory except `d` and every page of `d` but (`i`, `j`) is as before. */
  ghost predicate OnlyAt(m: Mem, m': Mem, d: nat, i: nat, j: nat)
    requires Tabled(m) && Tabled(m') && |m.ram| == |m'.ram|
  {
    forall x, a, b {:trigger Walk(m'.ram, x, a, b)} ::
        (IsDir(m, x) || x == m.kernel) && 0 <= a < 1023 && 0 <= b < 1024 && (x, a, b) != (d, i, j) ==>
      Walk(m'.ram, x, a, b) == Walk(m.ram, x, a, b)
  }

  ghost predicate Untouched(m: Mem, m': Mem)
    requires Tabled(m) && Tabled(m') && |m.ram| == |m'.ram|
  {
    forall x, a, b {:trigger Walk(m'.ram, x, a, b)} ::
        (IsDir(m, x) || x == m.kernel) && 0 <= a < 1023 && 0 <= b < 1024 ==>
      Walk(m'.ram, x, a, b) == Walk(m.ram, x, a, b)
  }

  // ---------------------------------------------------------------- the three updates

  function AddTable(m: Mem, d: nat, i: nat, t: nat): Mem
    requires Shaped(m.ram) && d < |m.ram| && t < |m.ram| && i < 1024
  {
    Mem(Put(Clear(m.ram, t), d, i, Entry(t, 2)), m.owner[t := Table(d, i)], m.kernel)
  }

  function SetUser(m: Mem, d: nat, i: nat): Mem
    requires Shaped(m.ram) && d < |m.ram| && i < 1024
  {
    m.(ram := Put(m.ram, d, i, OrUser(m.ram[d][i])))
  }

  function SetPte(m: Mem, d: nat, i: nat, j: nat, w: nat): Mem
    requires Shaped(m.ram) && d < |m.ram| && i < 1024 && j < 1024 && Frame(m.ram[d][i]) < |m.ram|
  {
    m.(ram := Put(m.ram, Frame(m.ram[d][i]), j, w))
  }

  /** A fresh table for an empty slot: still well formed, and no walk notices. */
  lemma AddTableOk(m: Mem, d: nat, i: nat, t: nat)
    requires Tabled(m) && IsDir(m, d) && i < 1023 && !Present(m.ram[d][i]) && t !in m.owner && 0 < t < |m.ram|
    ensures var r := AddTable(m, d, i, t); Tabled(r) && Private(r, d, i) && Frame(r.ram[d][i]) == t
  {
    hide Put, Clear, Entry, Present, Frame, Flags, Writable, User;
    var r := AddTable(m, d, i, t);
    var c := Clear(m.ram, t);
    assert r.ram[t] == c[t];
    assert m.ram[d] == c[d];
    Constants();
    forall x: nat, a: nat | IsDir(r, x) && 0 <= a < 1024 ensures SlotOk(r, x, a) { AddTableSlot(m, d, i, t, x, a); }
    forall a | 0 <= a < 1024 ensures KernelSlot(r, a) { assert KernelSlot(m, a); }
    forall x | x in r.owner ensures Seated(r, x) { if x != t { assert Seated(m, x); } }
  }

  lemma Constants()
    ensures !Present(0) && Frame(0) == 0 && Writable(2) && !User(2) && Writable(6) && User(6)
  {}

  lemma AddTableSlot(m: Mem, d: nat, i: nat, t: nat, x: nat, a: nat)
    requires Tabled(m) && IsDir(m, d) && i < 1023 && !Present(m.ram[d][i]) && t !in m.owner && 0 < t < |m.ram|
    requires IsDir(AddTable(m, d, i, t), x) && a < 1024
    ensures SlotOk(AddTable(m, d, i, t), x, a)
  {
    hide Put, Clear, Entry, Present, Frame, Flags, Writable, User;
    var r := AddTable(m, d, i, t);
    var c := Clear(m.ram, t);
    assert r.ram[t] == c[t] && m.ram[d] == c[d] && r.ram[m.kernel] == m.ram[m.kernel];
    Constants();
    assert SlotOk(m, x, a);
    if (x, a) != (d, i) {
      assert r.ram[x][a] == m.ram[x][a];
      var f := Frame(m.ram[x][a]);
      if a < 1023 && Present(m.ram[x][a]) { assert r.ram[f] == m.ram[f]; }
    }
  }

  lemma AddTableWalks(m: Mem, d: nat, i: nat, t: nat)
    requires Tabled(m) && IsDir(m, d) && i < 1023 && !Present(m.ram[d][i]) && t !in m.owner && 0 < t < |m.ram|
    requires Tabled(AddTable(m, d, i, t))
    ensures Untouched(m, AddTable(m, d, i, t))
  {
    hide Put, Clear, Entry, Present, Frame, Flags, Writable, User;
    var r := AddTable(m, d, i, t);
    var c := Clear(m.ram, t);
    assert r.ram[t] == c[t] && m.ram[d] == c[d];
    Constants();
    forall x, a, b | (IsDir(m, x) || x == m.kernel) && 0 <= a < 1023 && 0 <= b < 1024
      ensures Walk(r.ram, x, a, b) == Walk(m.ram, x, a, b)
    {
      if x == m.kernel { assert KernelSlot(m, a); } else { assert SlotOk(m, x, a); }
    }
  }

  /** Marking a private slot as a user's: no page changes its rights by it, because a table with a
      user page in it is already marked. */
  lemma SetUserOk(m: Mem, d: nat, i: nat)
    requires Tabled(m) && IsDir(m, d) && i < 1023 && Private(m, d, i)
    ensures var r := SetUser(m, d, i);
            Tabled(r) && Private(r, d, i) && Frame(r.ram[d][i]) == Frame(m.ram[d][i]) && User(r.ram[d][i])
  {
    hide Put, Present, Frame, Flags, Writable, User, OrUser;
    var r := SetUser(m, d, i);
    forall x: nat, a: nat | IsDir(r, x) && 0 <= a < 1024 ensures SlotOk(r, x, a) {
      assert SlotOk(m, x, a);
      if a < 1023 && Present(m.ram[x][a]) { assert r.ram[Frame(m.ram[x][a])] == m.ram[Frame(m.ram[x][a])]; }
    }
    forall a | 0 <= a < 1024 ensures KernelSlot(r, a) { assert KernelSlot(m, a); }
    forall x | x in r.owner ensures Seated(r, x) { assert Seated(m, x); }
  }

  lemma SetUserWalks(m: Mem, d: nat, i: nat)
    requires Tabled(m) && IsDir(m, d) && i < 1023 && Private(m, d, i) && Tabled(SetUser(m, d, i))
    ensures Untouched(m, SetUser(m, d, i))
  {
    hide Put, Present, Frame, Flags, Writable, User, OrUser;
    var r := SetUser(m, d, i);
    forall x, a, b | (IsDir(m, x) || x == m.kernel) && 0 <= a < 1023 && 0 <= b < 1024
      ensures Walk(r.ram, x, a, b) == Walk(m.ram, x, a, b)
    {
      if x == m.kernel { assert KernelSlot(m, a); } else { assert SlotOk(m, x, a); }
    }
  }

  /** Writing an entry of a private table changes the walk of exactly one page. */
  lemma SetPteOk(m: Mem, d: nat, i: nat, j: nat, w: nat)
    requires Tabled(m) && IsDir(m, d) && i < 1023 && Private(m, d, i) && j < 1024
    requires Present(w) && User(w) ==> User(m.ram[d][i])
    ensures var r := SetPte(m, d, i, j, w); Tabled(r) && Private(r, d, i) && r.ram[d][i] == m.ram[d][i]
  {
    hide Put, Present, Frame, Flags, Writable, User;
    var r := SetPte(m, d, i, j, w);
    var t := Frame(m.ram[d][i]);
    forall x: nat, a: nat | IsDir(r, x) && 0 <= a < 1024 ensures SlotOk(r, x, a) {
      assert SlotOk(m, x, a);
      if a < 1023 && Present(m.ram[x][a]) && Frame(m.ram[x][a]) != t {
        assert r.ram[Frame(m.ram[x][a])] == m.ram[Frame(m.ram[x][a])];
      }
    }
    forall a | 0 <= a < 1024 ensures KernelSlot(r, a) { assert KernelSlot(m, a); }
    forall x | x in r.owner ensures Seated(r, x) { assert Seated(m, x); }
  }

  lemma SetPteWalks(m: Mem, d: nat, i: nat, j: nat, w: nat)
    requires Tabled(m) && IsDir(m, d) && i < 1023 && Private(m, d, i) && j < 1024 && Tabled(SetPte(m, d, i, j, w))
    requires Present(w) && User(w) ==> User(m.ram[d][i])
    ensures var r := SetPte(m, d, i, j, w);
            && OnlyAt(m, r, d, i, j)
            && Walk(r.ram, d, i, j) == if Present(w) then Some(Mapping(Frame(w), Flags(w), Writable(w), User(w)))
               else None
  {
    hide Put, Present, Frame, Flags, Writable, User;
    var r := SetPte(m, d, i, j, w);
    forall x, a, b | (IsDir(m, x) || x == m.kernel) && 0 <= a < 1023 && 0 <= b < 1024 && (x, a, b) != (d, i, j)
      ensures Walk(r.ram, x, a, b) == Walk(m.ram, x, a, b)
    {
      if x == m.kernel { assert KernelSlot(m, a); } else { assert SlotOk(m, x, a); }
    }
  }

  // ---------------------------------------------------------------- map and unmap

  /** The whole of `memory_paging_map`; `t` is the frame taken for a missing table. */
  function MapTo(m: Mem, d: nat, i: nat, j: nat, phys: nat, flags: nat, t: nat): Mem
    requires Shaped(m.ram) && d < |m.ram| && i < 1024 && j < 1024 && flags < 4096
    requires if Present(m.ram[d][i]) then Frame(m.ram[d][i]) < |m.ram| else t < |m.ram|
  {
    var m1 := if Present(m.ram[d][i]) then m else AddTable(m, d, i, t);
    var m2 := if User(flags) then SetUser(m1, d, i) else m1;
    SetPte(m2, d, i, j, Entry(phys, flags))
  }

  /** `map` may be called for slots that hold no table of the kernel, `t` being fresh if it is needed. */
  ghost predicate MayMap(m: Mem, d: nat, i: nat, t: nat) {
    && Tabled(m) && IsDir(m, d) && d < |m.ram| && i < 1023
    && if Present(m.ram[d][i]) then Private(m, d, i) else t !in m.owner && 0 < t < |m.ram|
  }

  /** Mapping a page gives it the walk that was asked for and leaves every other page of every
      directory alone. */
  lemma MapExact(m: Mem, d: nat, i: nat, j: nat, phys: nat, flags: nat, t: nat)
    requires MayMap(m, d, i, t) && j < 1024 && flags < 4096
    ensures var r := MapTo(m, d, i, j, phys, flags, t);
            && Tabled(r) && Private(r, d, i) && OnlyAt(m, r, d, i, j)
            && Walk(r.ram, d, i, j) == Some(Mapping(phys, OrPresent(flags), Writable(flags), User(flags)))
            && r.owner == (if Present(m.ram[d][i]) then m.owner else m.owner[t := Table(d, i)])
  {
    hide Put, Clear, Present, Frame, Flags, Writable, User, OrUser, Entry, AddTable, SetUser, SetPte;
    var m1 := if Present(m.ram[d][i]) then m else AddTable(m, d, i, t);
    if !Present(m.ram[d][i]) { AddTableOk(m, d, i, t); AddTableWalks(m, d, i, t); AddTableBasics(m, d, i, t); }
    var m2 := if User(flags) then SetUser(m1, d, i) else m1;
    if User(flags) { SetUserOk(m1, d, i); SetUserWalks(m1, d, i); SetUserBasics(m1, d, i); }
    var w := Entry(phys, flags);
    SetPteOk(m2, d, i, j, w);
    SetPteWalks(m2, d, i, j, w);
    SetPteBasics(m2, d, i, j, w);
  }

  lemma AddTableBasics(m: Mem, d: nat, i: nat, t: nat)
    requires Tabled(m) && IsDir(m, d) && i < 1023 && !Present(m.ram[d][i]) && t !in m.owner && 0 < t < |m.ram|
    ensures var r := AddTable(m, d, i, t);
            && |r.ram| == |m.ram| && r.kernel == m.kernel && r.owner == m.owner[t := Table(d, i)]
            && (forall x {:trigger IsDir(r, x)} {:trigger IsDir(m, x)} :: IsDir(m, x) <==> IsDir(r, x))
            && (forall f {:trigger r.ram[f]} :: 0 <= f < |m.ram| && f != d && f != t ==> r.ram[f] == m.ram[f])
            && (forall a {:trigger r.ram[d][a]} :: 0 <= a < 1024 && a != i ==> r.ram[d][a] == m.ram[d][a])
            && (forall k {:trigger r.ram[t][k]} :: 0 <= k < 1024 ==> r.ram[t][k] == 0)
  {
    hide Entry, Present, Frame, Flags, Writable, User;
    var c := Clear(m.ram, t);
    assert c[d] == m.ram[d];
    assert AddTable(m, d, i, t).ram[t] == c[t];
  }

  lemma SetUserBasics(m: Mem, d: nat, i: nat)
    requires Shaped(m.ram) && d < |m.ram| && i < 1024
    ensures var r := SetUser(m, d, i);
            && |r.ram| == |m.ram| && r == m.(ram := r.ram)
            && (forall f {:trigger r.ram[f]} :: 0 <= f < |m.ram| && f != d ==> r.ram[f] == m.ram[f])
            && (forall a {:trigger r.ram[d][a]} :: 0 <= a < 1024 && a != i ==> r.ram[d][a] == m.ram[d][a])
  {}

  lemma SetPteBasics(m: Mem, d: nat, i: nat, j: nat, w: nat)
    requires Shaped(m.ram) && d < |m.ram| && i < 1024 && j < 1024 && Frame(m.ram[d][i]) < |m.ram|
    ensures var r := SetPte(m, d, i, j, w); var t := Frame(m.ram[d][i]);
            && |r.ram| == |m.ram| && r == m.(ram := r.ram)
            && (forall f {:trigger r.ram[f]} :: 0 <= f < |m.ram| && f != t ==> r.ram[f] == m.ram[f])
            && (forall b {:trigger r.ram[t][b]} :: 0 <= b < 1024 ==> r.ram[t][b] == if b == j then w else m.ram[t][b])
  {}

  /** Unmapping leaves the page without a walk and every other page alone. */
  lemma UnmapExact(m: Mem, d: nat, i: nat, j: nat)
    requires Tabled(m) && IsDir(m, d) && i < 1023 && j < 1024 && Private(m, d, i)
    ensures var r := SetPte(m, d, i, j, 0);
            && Tabled(r) && Private(r, d, i) && OnlyAt(m, r, d, i, j) && Walk(r.ram, d, i, j) == None
               && r == m.(ram := r.ram)
  {
    Constants();
    SetPteOk(m, d, i, j, 0);
    SetPteWalks(m, d, i, j, 0);
  }
}
