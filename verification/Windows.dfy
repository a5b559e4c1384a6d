/** How the kernel reaches page tables while paging is on: the directory maps itself in its last slot,
    and 16 bounce pages of slot 1022 map any frame for a moment. Loads and stores go through the
    walk of the processor. */
module Windows {
  import opened Options
  import opened PageTables

  /** The directory appears as page (1023, 1023), its table `i` as page (1023, `i`). */
  lemma SelfMap(ram: Ram, d: nat, i: nat)
    requires Shaped(ram) && d < |ram| && ram[d][1023] == Entry(d, 2) && i < 1024
    ensures Walk(ram, d, 1023, 1023).Some? && Walk(ram, d, 1023, 1023).value.frame == d
    ensures Present(ram[d][i]) ==> Walk(ram, d, 1023, i).Some? && Walk(ram, d, 1023, i).value.frame == Frame(ram[d][i])
  {}

  /** `d` maps itself in its last slot, and no other slot leads back to it. */
  ghost predicate SelfMapped(ram: Ram, d: nat) {
    && Shaped(ram) && d < |ram| && ram[d][1023] == Entry(d, 2)
    && forall i {:trigger ram[d][i]} :: 0 <= i < 1023 && Present(ram[d][i]) ==>
         Frame(ram[d][i]) < |ram| && Frame(ram[d][i]) != d
  }

  /** The frame words after a page of `d` has been mapped, `t` being the frame of a missing table. */
  function Mapped(ram: Ram, d: nat, i: nat, j: nat, phys: nat, flags: nat, t: nat): Ram
    requires Shaped(ram) && d < |ram| && i < 1024 && j < 1024 && flags < 4096
    requires if Present(ram[d][i]) then Frame(ram[d][i]) < |ram| else t < |ram|
  {
    MapTo(Mem(ram, map[], d), d, i, j, phys, flags, t).ram
  }

  /** The directory with the bounce area's table, which the first use creates in frame `t`. */
  function WithTable(ram: Ram, d: nat, i: nat, t: nat): Ram
    requires Shaped(ram) && d < |ram| && i < 1024 && t < |ram|
  {
    if Present(ram[d][i]) then ram else Put(Clear(ram, t), d, i, Entry(t, 2))
  }

  /** The pages of the bounce area that are not in use are unmapped. */
  ghost predicate Ready(ram: Ram, d: nat, used: seq<bool>) {
    && SelfMapped(ram, d) && |used| == 16
    && forall s {:trigger used[s]} :: 0 <= s < 16 ==>
         if Present(ram[d][1022]) then !used[s] ==> ram[Frame(ram[d][1022])][768 + s] == 0 else !used[s]
  }

  /** Nothing in use, as after `bounce_init`. */
  function AllFree(): (u: seq<bool>)
    ensures |u| == 16 && forall s {:trigger u[s]} :: 0 <= s < 16 ==> !u[s]
  {
    seq(16, _ => false)
  }

  /** The first slot that is not in use, 16 if there is none. */
  function FirstUnused(used: seq<bool>): (s: nat)
    requires |used| == 16
    ensures s <= 16 && (s < 16 ==> !used[s]) && forall k {:trigger used[k]} :: 0 <= k < s ==> used[k]
  {
    UnusedFrom(used, 0)
  }

  function UnusedFrom(used: seq<bool>, i: nat): (s: nat)
    requires |used| == 16 && i <= 16
    ensures i <= s <= 16 && (s < 16 ==> !used[s]) && forall k {:trigger used[k]} :: i <= k < s ==> used[k]
    decreases 16 - i
  {
    if i == 16 || !used[i] then i else UnusedFrom(used, i + 1)
  }

  class Machine {
    var ram: Ram
    const cr3: nat
    var used: seq<bool>

    ghost predicate Valid()
      reads this
    {
      Ready(ram, cr3, used)
    }

    constructor (ram: Ram, cr3: nat)
      requires Ready(ram, cr3, AllFree())
      ensures Valid() && this.ram == ram && this.cr3 == cr3 && used == AllFree()
    {
      this.ram, this.cr3, used := ram, cr3, AllFree();
    }

    /** A load from word `k` of virtual page (`i`, `j`). */
    method Load(i: nat, j: nat, k: nat) returns (w: nat)
      requires Shaped(ram) && cr3 < |ram| && i < 1024 && j < 1024 && k < 1024
      requires Walk(ram, cr3, i, j).Some? && Walk(ram, cr3, i, j).value.frame < |ram|
      ensures w == ram[Walk(ram, cr3, i, j).value.frame][k]
    {
      w := ram[Walk(ram, cr3, i, j).value.frame][k];
    }

    method Store(i: nat, j: nat, k: nat, w: nat)
      requires Shaped(ram) && cr3 < |ram| && i < 1024 && j < 1024 && k < 1024
      requires Walk(ram, cr3, i, j).Some? && Walk(ram, cr3, i, j).value.frame < |ram|
      modifies this`ram
      ensures ram == Put(old(ram), Walk(old(ram), cr3, i, j).value.frame, k, w)
    {
      ram := Put(ram, Walk(ram, cr3, i, j).value.frame, k, w);
    }

    /** The table half of `memory_paging_map_current`: a fresh table goes into the directory through page
        (1023, 1023) and is then cleared word by word through page (1023, `i`). */
    method InstallTable(i: nat, table: nat)
      requires SelfMapped(ram, cr3) && i < 1023 && !Present(ram[cr3][i]) && table < |ram| && table != cr3
      modifies this`ram
      ensures SelfMapped(ram, cr3) && Present(ram[cr3][i]) && Frame(ram[cr3][i]) == table && Writable(ram[cr3][i])
      ensures |ram| == |old(ram)| && ram == WithTable(old(ram), cr3, i, table)
    {
      hide Put, Clear, Present, Frame, Flags, Writable, User, Entry, Walk;
      ghost var r := ram;
      Constants();
      SelfMap(ram, cr3, i);
      Store(1023, 1023, i, Entry(table, 2));
      ghost var r1 := ram;
      for k := 0 to 1024
        invariant Shaped(ram) && |ram| == |r| && ram[cr3] == r1[cr3]
        invariant forall f {:trigger ram[f]} :: 0 <= f < |ram| && f != table ==> ram[f] == r1[f]
        invariant forall l {:trigger ram[table][l]} :: 0 <= l < k ==> ram[table][l] == 0
      {
        SelfMap(ram, cr3, i);
        Store(1023, i, k, 0);
      }
      ClearedBehind(r, ram, cr3, i, table);
    }

    /** `memory_paging_map_current`: whether or not the table is there, and for every set of flags, the
        writes through the windows are those of a map on the frames; it fails exactly if the table is
        missing and there is no frame for it (`table` is 0). */
    method MapCurrent(phys: nat, i: nat, j: nat, flags: nat, table: nat) returns (ok: bool)
      requires SelfMapped(ram, cr3) && i < 1023 && j < 1024 && flags < 4096 && table < |ram| && table != cr3
      modifies this`ram
      ensures ok == (old(Present(ram[cr3][i])) || table != 0) && |ram| == |old(ram)|
      ensures ram == if ok then Mapped(old(ram), cr3, i, j, phys, flags, table) else old(ram)
    {
      hide Put, Clear, Present, Frame, Flags, Writable, User, Entry, OrUser, Walk;
      ghost var r := ram;
      SelfMap(ram, cr3, i);
      var pde := Load(1023, 1023, i);
      if !Present(pde) {
        if table == 0 { return false; }
        InstallTable(i, table);
      }
      ghost var r1 := ram;
      SelfMap(ram, cr3, i);
      if User(flags) {
        pde := Load(1023, 1023, i);
        Store(1023, 1023, i, OrUser(pde));
      }
      SelfMap(ram, cr3, i);
      Store(1023, i, j, Entry(phys, flags));
      ok := true;
    }

    /** `memory_paging_unmap_current`: nothing to do without a table. */
    method UnmapCurrent(i: nat, j: nat)
      requires SelfMapped(ram, cr3) && i < 1023 && j < 1024
      modifies this`ram
      ensures |ram| == |old(ram)|
      ensures ram == if old(Present(ram[cr3][i])) then Put(old(ram), Frame(old(ram)[cr3][i]), j, 0) else old(ram)
    {
      SelfMap(ram, cr3, i);
      var pde := Load(1023, 1023, i);
      if Present(pde) { Store(1023, i, j, 0); }
    }

    /** `bounce_alloc`: the first unused page of the area now shows frame `phys`; NULL (16) if all are in
        use, or if the area has no table yet and there is no frame for one. */
    method BounceAlloc(phys: nat, table: nat) returns (slot: nat)
      requires Valid() && phys < |ram| && table < |ram| && table != cr3
      modifies this
      ensures Valid() && |ram| == |old(ram)| && MayShow(old(ram), cr3, table)
      ensures slot == if old(Present(ram[cr3][1022])) || table != 0 then FirstUnused(old(used)) else 16
      ensures slot == 16 ==> ram == old(ram) && used == old(used)
      ensures slot < 16 ==> used == old(used)[slot := true] && ram == Shown(old(ram), cr3, table, slot, phys)
    {
      hide Put, Clear, Entry, Walk, Mapped, Ready, WithTable, Shown, SelfMapped, Present, Frame, MayShow;
      ghost var r, u := ram, used;
      slot := 0;
      Bounce(ram, cr3, used);
      TableThere(ram, cr3, used, table);
      while slot < 16
        invariant slot <= 16 && FirstUnused(used) == UnusedFrom(used, slot) && ram == r && used == u
      {
        if !used[slot] {
          ShownIsMapped(ram, cr3, used, table, slot, phys);
          var ok := MapCurrent(phys, 1022, 768 + slot, 2, table);
          if !ok { return 16; }
          used := used[slot := true];
          return;
        }
        slot := slot + 1;
      }
    }

    /** `bounce_free`. */
    method BounceFree(slot: nat)
      requires Valid() && slot < 16 && used[slot]
      modifies this
      ensures Valid() && used == old(used)[slot := false] && |ram| == |old(ram)|
      ensures Shaped(old(ram)) && cr3 < |old(ram)| && Frame(old(ram)[cr3][1022]) < |old(ram)|
      ensures ram == Put(old(ram), Frame(old(ram)[cr3][1022]), 768 + slot, 0)
    {
      hide Put, Entry, Walk, Ready, SelfMapped;
      Bounce(ram, cr3, used);
      Hidden(ram, cr3, used, slot);
      UnmapCurrent(1022, 768 + slot);
      used := used[slot := false];
    }

    /** A store to a frame by way of a bounce page is a store to that frame and leaves no trace but, on
        the very first use, the table of the bounce area. */
    method StoreThrough(phys: nat, k: nat, w: nat, table: nat) returns (ok: bool)
      requires Valid() && phys < |ram| && k < 1024 && table < |ram| && table != cr3 && phys != table
      requires Present(ram[cr3][1022]) ==> phys != Frame(ram[cr3][1022])
      requires phys == cr3 ==> k < 1022 && (Present(w) ==> Frame(w) < |ram| && Frame(w) != cr3)
      modifies this
      ensures Valid() && used == old(used) && Shaped(old(ram)) && cr3 < |old(ram)|
      ensures ok == ((exists s :: 0 <= s < 16 && !used[s]) && (old(Present(ram[cr3][1022])) || table != 0))
      ensures ram == if ok then Put(WithTable(old(ram), cr3, 1022, table), phys, k, w) else old(ram)
    {
      hide Put, Clear, Entry, Walk, Ready, SelfMapped, WithTable, Present, Frame;
      ghost var r, u := ram, used;
      Bounce(ram, cr3, used);
      TableThere(r, cr3, u, table);
      var slot := BounceAlloc(phys, table);
      if slot == 16 { return false; }
      ghost var t := WithTable(r, cr3, 1022, table);
      WindowShows(r, u, cr3, table, phys, slot);
      Bounce(ram, cr3, used);
      StoreReady(ram, used, cr3, phys, k, w);
      Store(1022, 768 + slot, k, w);
      BounceFree(slot);
      Traceless(t, Frame(t[cr3][1022]), 768 + slot, Entry(phys, 2), phys, k, w);
      assert used == u;
      ok := true;
    }

    /** One load by way of a bounce page, which stays in use. */
    method LoadThrough(phys: nat, k: nat, table: nat) returns (slot: nat, w: nat)
      requires Valid() && phys < |ram| && k < 1024 && table < |ram| && table != cr3 && phys != table
      requires Present(ram[cr3][1022]) ==> phys != Frame(ram[cr3][1022])
      modifies this
      ensures Valid() && |ram| == |old(ram)| && MayShow(old(ram), cr3, table)
      ensures slot == if old(Present(ram[cr3][1022])) || table != 0 then FirstUnused(old(used)) else 16
      ensures slot == 16 ==> ram == old(ram) && used == old(used)
      ensures slot < 16 ==> w == WithTable(old(ram), cr3, 1022, table)[phys][k] && used == old(used)[slot := true]
      ensures slot < 16 ==> ram == Shown(old(ram), cr3, table, slot, phys)
    {
      hide Put, Clear, Entry, Walk, Ready, SelfMapped, WithTable, Shown, Present, Frame;
      ghost var r, u := ram, used;
      Bounce(ram, cr3, used);
      TableThere(r, cr3, u, table);
      slot := BounceAlloc(phys, table);
      w := 0;
      if slot == 16 { return; }
      WindowShows(r, u, cr3, table, phys, slot);
      w := Load(1022, 768 + slot, k);
    }

    /** `memory_paging_virtual_to_physical` as it goes through bounce pages. With a page of the area to
        spare it translates correctly, and it gives its page back if and only if the address is mapped. */
    method Translate(d: nat, i: nat, j: nat, offset: nat, table: nat) returns (r: nat)
      requires Valid() && d < |ram| && i < 1022 && j < 1024 && offset < 4096 && FirstUnused(used) < 16
      requires table < |ram| && table != cr3 && table != d && (Present(ram[cr3][1022]) || table != 0)
      requires Present(ram[cr3][1022]) ==> d != Frame(ram[cr3][1022])
      requires Present(ram[d][i]) ==>
                 && Frame(ram[d][i]) < |ram| && Frame(ram[d][i]) != table && Frame(ram[d][i]) != cr3
                 && (Present(ram[cr3][1022]) ==> Frame(ram[d][i]) != Frame(ram[cr3][1022]))
      modifies this
      ensures Valid() && Shaped(old(ram)) && cr3 < |old(ram)|
      ensures r == match Walk(old(ram), d, i, j) case None => 0 case Some(p) => p.frame * 4096 + offset
      ensures Walk(old(ram), d, i, j).Some? ==> used == old(used) && ram == WithTable(old(ram), cr3, 1022, table)
      ensures Walk(old(ram), d, i, j) == None ==> used == old(used)[FirstUnused(old(used)) := true] && used != old(used)
    {
      hide Put, Clear, Entry, Frame, Ready, SelfMapped, WithTable, Shown, Present;
      ghost var r0, u0 := ram, used;
      Bounce(r0, cr3, u0);
      ghost var t := WithTable(r0, cr3, 1022, table);
      TableThere(r0, cr3, u0, table);
      var slot, pde := LoadThrough(d, i, table);
      if !Present(pde) { return 0; }
      ShownCleared(r0, cr3, u0, table, slot, d);
      BounceFree(slot);
      assert used == u0;
      var pt := Frame(pde);
      var pte: nat;
      slot, pte := LoadThrough(pt, j, table);
      if !Present(pte) { return 0; }
      TableThere(t, cr3, u0, table);
      ShownCleared(t, cr3, u0, table, slot, pt);
      BounceFree(slot);
      assert used == u0;
      r := Frame(pte) * 4096 + offset;
    }
  }

  /** The bounce area has a table, or gets one in frame `table`. */
  ghost predicate MayShow(ram: Ram, d: nat, table: nat) {
    Shaped(ram) && d < |ram| && table < |ram| && Frame(WithTable(ram, d, 1022, table)[d][1022]) < |ram|
  }

  /** Frame `phys` shown at page `slot` of the bounce area. */
  ghost function Shown(ram: Ram, d: nat, table: nat, slot: nat, phys: nat): Ram
    requires MayShow(ram, d, table) && slot < 16
  {
    var t := WithTable(ram, d, 1022, table);
    Put(t, Frame(t[d][1022]), 768 + slot, Entry(phys, 2))
  }

  /** The facts about the bounce area that the methods need. */
  lemma Bounce(ram: Ram, d: nat, used: seq<bool>)
    requires Ready(ram, d, used)
    ensures SelfMapped(ram, d) && Shaped(ram) && d < |ram| && |used| == 16
    ensures Present(ram[d][1022]) ==> Frame(ram[d][1022]) < |ram| && Frame(ram[d][1022]) != d
    ensures !Present(ram[d][1022]) ==> forall s :: 0 <= s < 16 ==> !used[s]
  {}

  lemma TableThere(ram: Ram, d: nat, used: seq<bool>, table: nat)
    requires Ready(ram, d, used) && table < |ram| && table != d
    ensures MayShow(ram, d, table)
    ensures var t := WithTable(ram, d, 1022, table);
            && Ready(t, d, used) && Present(t[d][1022]) && Frame(t[d][1022]) < |ram| && Frame(t[d][1022]) != d
            && |t| == |ram| && Shaped(t) && WithTable(t, d, 1022, table) == t
            && Frame(t[d][1022]) == (if Present(ram[d][1022]) then Frame(ram[d][1022]) else table)
            && (forall f {:trigger t[f]} :: 0 <= f < |ram| && f != d && (Present(ram[d][1022]) || f != table) ==>
                   t[f] == ram[f])
            && (forall k {:trigger t[d][k]} :: 0 <= k < 1024 && k != 1022 ==> t[d][k] == ram[d][k])
            && (forall s {:trigger used[s]} :: 0 <= s < 16 && !used[s] ==> t[Frame(t[d][1022])][768 + s] == 0)
  {
    hide Entry, Present, Frame;
    var c := Clear(ram, table);
    assert c[d] == ram[d];
    var t := WithTable(ram, d, 1022, table);
    if !Present(ram[d][1022]) { assert t[table] == c[table]; }
  }

  /** Mapping a page of the area is what shows the frame. */
  lemma ShownIsMapped(ram: Ram, d: nat, used: seq<bool>, table: nat, slot: nat, phys: nat)
    requires Ready(ram, d, used) && table < |ram| && table != d && slot < 16 && !used[slot]
    ensures MayShow(ram, d, table) && (Present(ram[d][1022]) ==> Frame(ram[d][1022]) < |ram|)
    ensures Mapped(ram, d, 1022, 768 + slot, phys, 2, table) == Shown(ram, d, table, slot, phys)
    ensures Ready(Shown(ram, d, table, slot, phys), d, used[slot := true])
  {
    hide Entry, Present, Frame, User, Clear, Put;
    Constants();
    TableThere(ram, d, used, table);
    var t, r := WithTable(ram, d, 1022, table), Shown(ram, d, table, slot, phys);
    assert r[d] == t[d];
    var after := used[slot := true];
    forall s {:trigger after[s]} | 0 <= s < 16 && !after[s] ensures r[Frame(r[d][1022])][768 + s] == 0 {
      assert !used[s];
    }
  }

  lemma Hidden(ram: Ram, d: nat, used: seq<bool>, slot: nat)
    requires Ready(ram, d, used) && slot < 16 && used[slot]
    ensures Present(ram[d][1022]) && Frame(ram[d][1022]) < |ram| && Shaped(ram)
    ensures Ready(Put(ram, Frame(ram[d][1022]), 768 + slot, 0), d, used[slot := false])
  {
    hide Entry, Present, Frame, Put;
    var r := Put(ram, Frame(ram[d][1022]), 768 + slot, 0);
    assert r[d] == ram[d];
    var after := used[slot := false];
    forall s {:trigger after[s]} | 0 <= s < 16 && !after[s] ensures r[Frame(r[d][1022])][768 + s] == 0 {
      assert s != slot ==> !used[s];
    }
  }

  lemma WindowShows(ram: Ram, used: seq<bool>, d: nat, table: nat, phys: nat, slot: nat)
    requires Ready(ram, d, used) && table < |ram| && table != d && slot < 16 && phys < |ram| && MayShow(ram, d, table)
    ensures var t, r := WithTable(ram, d, 1022, table), Shown(ram, d, table, slot, phys);
            && |r| == |ram| && Shaped(r) && d < |r| && r[d] == t[d]
            && Walk(r, d, 1022, 768 + slot).Some? && Walk(r, d, 1022, 768 + slot).value.frame == phys
            && forall f {:trigger r[f]} :: 0 <= f < |ram| && f != Frame(t[d][1022]) ==> r[f] == t[f]
  {
    hide Put, Clear, Ready;
    TableThere(ram, d, used, table);
  }

  lemma StoreReady(ram: Ram, used: seq<bool>, d: nat, phys: nat, k: nat, w: nat)
    requires Ready(ram, d, used) && Present(ram[d][1022]) && phys < |ram| && k < 1024 && phys != Frame(ram[d][1022])
    requires phys == d ==> k < 1022 && (Present(w) ==> Frame(w) < |ram| && Frame(w) != d)
    ensures var r := Put(ram, phys, k, w); Ready(r, d, used) && r[d][1022] == ram[d][1022]
  {
    hide Put, Entry, Present, Frame;
    var r := Put(ram, phys, k, w);
    if phys != d { assert r[d] == ram[d]; }
    assert r[Frame(ram[d][1022])] == ram[Frame(ram[d][1022])];
    forall i | 0 <= i < 1023 && Present(r[d][i]) ensures Frame(r[d][i]) < |r| && Frame(r[d][i]) != d {
      assert r[d][i] == if phys == d && i == k then w else ram[d][i];
    }
  }

  /** Setting an empty entry, writing elsewhere and clearing the entry is writing elsewhere. */
  lemma Traceless(ram: Ram, b: nat, x: nat, e: nat, phys: nat, k: nat, w: nat)
    requires Shaped(ram) && b < |ram| && x < 1024 && ram[b][x] == 0 && phys < |ram| && phys != b && k < 1024
    ensures Put(Put(Put(ram, b, x, e), phys, k, w), b, x, 0) == Put(ram, phys, k, w)
  {
    var l, r := Put(Put(Put(ram, b, x, e), phys, k, w), b, x, 0), Put(ram, phys, k, w);
    assert l[b] == r[b] && l[phys] == r[phys];
    forall f | 0 <= f < |l| ensures l[f] == r[f] {}
  }

  lemma SetAndCleared(ram: Ram, b: nat, x: nat, e: nat)
    requires Shaped(ram) && b < |ram| && x < 1024 && ram[b][x] == 0
    ensures Put(Put(ram, b, x, e), b, x, 0) == ram
  {
    var l := Put(Put(ram, b, x, e), b, x, 0);
    assert l[b] == ram[b];
    forall f | 0 <= f < |l| ensures l[f] == ram[f] {}
  }

  /** Showing and hiding a frame leaves only the area's table behind. */
  lemma ShownCleared(ram: Ram, d: nat, used: seq<bool>, table: nat, slot: nat, phys: nat)
    requires Ready(ram, d, used) && table < |ram| && table != d && slot < 16 && !used[slot] && MayShow(ram, d, table)
    ensures var t, r := WithTable(ram, d, 1022, table), Shown(ram, d, table, slot, phys);
            && |r| == |ram| && Shaped(r) && d < |r| && Frame(r[d][1022]) < |r| && r[d] == t[d]
            && Put(r, Frame(r[d][1022]), 768 + slot, 0) == t
  {
    hide Put, Clear, Ready, Entry, Present, Frame;
    TableThere(ram, d, used, table);
    var t := WithTable(ram, d, 1022, table);
    SetAndCleared(t, Frame(t[d][1022]), 768 + slot, Entry(phys, 2));
  }

  lemma ClearedBehind(old_: Ram, ram: Ram, d: nat, i: nat, t: nat)
    requires Shaped(old_) && Shaped(ram) && |ram| == |old_| && d < |ram| && t < |ram| && t != d && i < 1023
             && !Present(old_[d][i])
    requires ram[d] == Put(old_, d, i, Entry(t, 2))[d]
    requires forall f {:trigger ram[f]} :: 0 <= f < |ram| && f != t ==> ram[f] == Put(old_, d, i, Entry(t, 2))[f]
    requires forall l {:trigger ram[t][l]} :: 0 <= l < 1024 ==> ram[t][l] == 0
    ensures ram == WithTable(old_, d, i, t)
  {
    hide Entry, Present;
    var w := WithTable(old_, d, i, t);
    var c := Clear(old_, t);
    assert w[t] == c[t] == ram[t];
    assert w[d] == ram[d];
    forall f | 0 <= f < |ram| ensures ram[f] == w[f] {}
  }
}
