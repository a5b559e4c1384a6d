/** Whole lifetimes of address spaces: the page bitmap together with the page tables. */
module SpaceRuns {
  import opened Options
  import opened PageTables
  import opened Frames
  import Bitmap

  datatype State = State(m: Mem, marks: seq<bool>, hint: nat)

  /** Page tables in order, one mark per frame, and every frame with an owner marked; frame 0 is
      locked at boot. */
  ghost predicate Sound(s: State) {
    && Backed(s.m) && |s.marks| == |s.m.ram| && s.hint <= |s.marks| && s.marks[0]
    && forall f {:trigger f in s.m.owner} :: f in s.m.owner ==> s.marks[f]
  }

  /** `memory_bitmap_allocate`; frame 0 means that there is none. */
  function Alloc(s: State): (r: (State, nat))
    requires s.hint <= |s.marks| && 0 < |s.marks| && s.marks[0]
    ensures r.0.m == s.m && |r.0.marks| == |s.marks| && r.0.hint <= |s.marks| && r.0.marks[0]
    ensures r.1 == 0 ==> r.0 == s && forall f {:trigger s.marks[f]} :: 0 <= f < |s.marks| ==> s.marks[f]
    ensures r.1 != 0 ==> r.1 < |s.marks| && !s.marks[r.1] && r.0.marks == s.marks[r.1 := true] && r.0.hint == r.1
  {
    var f := Bitmap.NextFree(s.marks, |s.marks|, s.hint);
    if f == |s.marks| then (s, 0) else (s.(marks := s.marks[f := true], hint := f), f)
  }

  /** `memory_bitmap_free`. */
  function Free(s: State, f: nat): (r: State)
    requires f < |s.marks| && s.hint <= |s.marks|
    ensures r.m == s.m && r.marks == s.marks[f := false] && r.hint <= |s.marks|
  {
    s.(marks := s.marks[f := false], hint := if f < s.hint then f else s.hint)
  }

  /** A fresh frame mapped at an empty page; a failure of the second allocation returns the first frame. */
  function MapFresh(s: State, d: nat, i: nat, j: nat, flags: nat): (State, bool)
    requires s.hint <= |s.marks| == |s.m.ram| && 0 < |s.marks| && s.marks[0]
    requires Shaped(s.m.ram) && d < |s.m.ram| && i < 1024 && j < 1024 && flags < 4096
    requires Present(s.m.ram[d][i]) ==> Frame(s.m.ram[d][i]) < |s.m.ram|
  {
    var (s1, f) := Alloc(s);
    if f == 0 then (s, false)
    else if Present(s.m.ram[d][i]) then (s1.(m := Adopt(MapTo(s.m, d, i, j, f, flags, 0), f, d, i, j)), true)
    else
      var (s2, t) := Alloc(s1);
      if t == 0 then (Free(s1, f), false)
      else (s2.(m := Adopt(MapTo(s.m, d, i, j, f, flags, t), f, d, i, j)), true)
  }

  /** Translate, unmap, and give back the frame that was there. */
  function UnmapFree(s: State, d: nat, i: nat, j: nat): State
    requires s.hint <= |s.marks| == |s.m.ram|
    requires Shaped(s.m.ram) && d < |s.m.ram| && i < 1024 && j < 1024
    requires Present(s.m.ram[d][i]) ==> Frame(s.m.ram[d][i]) < |s.m.ram|
  {
    if !Present(s.m.ram[d][i]) then s
    else
      var w := s.m.ram[Frame(s.m.ram[d][i])][j];
      var s1 := s.(m := Drop(s.m, d, i, j));
      if Present(w) && Frame(w) < |s.marks| then Free(s1, Frame(w)) else s1
  }

  function Create(s: State): (State, nat)
    requires s.hint <= |s.marks| == |s.m.ram| && 0 < |s.marks| && s.marks[0] && Shaped(s.m.ram)
             && s.m.kernel < |s.m.ram|
  {
    var (s1, d) := Alloc(s);
    if d == 0 then (s, 0) else (s1.(m := NewDir(s.m, d)), d)
  }

  /** The state a destruction of `d` must leave, apart from the hint. */
  predicate Destroyed(s: State, d: nat, r: State) {
    r.m == s.m.(owner := OthersOwners(s.m.owner, d)) && r.marks == OthersMarks(s.marks, s.m.owner, d)
      && r.hint <= |r.marks|
  }

  /** What is in use apart from `d`. */
  ghost predicate SameOthers(s: State, r: State, d: nat) {
    OthersMarks(s.marks, s.m.owner, d) == OthersMarks(r.marks, r.m.owner, d)
      && OthersOwners(s.m.owner, d) == OthersOwners(r.m.owner, d)
  }

  /** Slot `i` of `d` is empty or has a table of its own. */
  ghost predicate OwnSlot(s: State, d: nat, i: nat)
    requires Sound(s)
  {
    IsDir(s.m, d) && i < 1023 && (Present(s.m.ram[d][i]) ==> Private(s.m, d, i))
  }

  lemma AllocSound(s: State)
    requires Sound(s)
    ensures var (r, f) := Alloc(s); Sound(r) && f !in s.m.owner && f < |s.m.ram|
  {}

  /** The page tables after a fresh frame `f` is mapped, with table frame `t` if one was missing. */
  lemma MapWith(m: Mem, d: nat, i: nat, j: nat, f: nat, flags: nat, t: nat)
    requires Backed(m) && MayMap(m, d, i, t) && j < 1024 && flags < 4096 && Walk(m.ram, d, i, j) == None
    requires f !in m.owner && 0 < f < |m.ram| && (!Present(m.ram[d][i]) ==> f != t)
    ensures var r := Adopt(MapTo(m, d, i, j, f, flags, t), f, d, i, j);
            && Backed(r) && Tabled(r) && Shaped(r.ram) && |r.ram| == |m.ram| && r.kernel == m.kernel && IsDir(r, d)
               && Private(r, d, i)
            && r.owner == (if Present(m.ram[d][i]) then m.owner else m.owner[t := Table(d, i)])[f := Data(d, i, j)]
            && OnlyAt(m, r, d, i, j)
               && Walk(r.ram, d, i, j) == Some(Mapping(f, OrPresent(flags), Writable(flags), User(flags)))
  {
    hide Present, Frame, Flags, Writable, User, Walk;
    MapExact(m, d, i, j, f, flags, t);
    MapBacked(m, d, i, j, f, flags, t);
    AdoptTabled(MapTo(m, d, i, j, f, flags, t), f, d, i, j);
  }

  /** Frames that `d` takes while nobody owns or marks them are not missed by the others. */
  lemma TakeOthers(marks: seq<bool>, owner: map<nat, Role>, d: nat, f: nat, role: Role)
    requires f < |marks| && !marks[f] && f !in owner && (role.Table? || role.Data?) && role.dir == d
    ensures OthersMarks(marks[f := true], owner[f := role], d) == OthersMarks(marks, owner, d)
    ensures OthersOwners(owner[f := role], d) == OthersOwners(owner, d)
  {
    var a, b := OthersMarks(marks[f := true], owner[f := role], d), OthersMarks(marks, owner, d);
    forall k | 0 <= k < |marks| ensures a[k] == b[k] {}
  }

  /** Mapping a fresh page: the state stays sound, exactly one walk changes, and what others hold stays. */
  lemma MapFreshOk(s: State, d: nat, i: nat, j: nat, flags: nat)
    requires Sound(s) && OwnSlot(s, d, i) && j < 1024 && flags < 4096 && Walk(s.m.ram, d, i, j) == None
    ensures var (r, ok) := MapFresh(s, d, i, j, flags);
            && Sound(r) && OwnSlot(r, d, i) && |r.m.ram| == |s.m.ram| && r.m.kernel == s.m.kernel && SameOthers(s, r, d)
            && (!ok ==> r.m == s.m && r.marks == s.marks)
            && (ok ==> OnlyAt(s.m, r.m, d, i, j) && MapsNew(s, r, d, i, j, flags))
  {
    hide Backed, Private, Walk, Present, Frame, Flags, Writable, User, MapTo, Bitmap.NextFree, Tabled, OnlyAt,
         OthersMarks, OthersOwners, MapsNew;
    Basics(s, d, i);
    AllocSound(s);
    var (s1, f) := Alloc(s);
    if f != 0 {
      TakeOthers(s.marks, s.m.owner, d, f, Data(d, i, j));
      if Present(s.m.ram[d][i]) {
        MapWith(s.m, d, i, j, f, flags, 0);
        MapsNewAt(s, MapFresh(s, d, i, j, flags).0, d, i, j, flags, f);
      } else {
        AllocSound(s1);
        var (s2, t) := Alloc(s1);
        if t == 0 {
          assert Free(s1, f).marks == s.marks;
        } else {
          MapWith(s.m, d, i, j, f, flags, t);
          MapsNewAt(s, MapFresh(s, d, i, j, flags).0, d, i, j, flags, f);
          TakeOthers(s.marks, s.m.owner, d, t, Table(d, i));
          TakeOthers(s.marks[t := true], s.m.owner[t := Table(d, i)], d, f, Data(d, i, j));
          assert s.marks[t := true][f := true] == s.marks[f := true][t := true];
        }
      }
    }
  }

  /** The page is now mapped, with the rights asked for, to a frame that was free. */
  ghost predicate MapsNew(s: State, r: State, d: nat, i: nat, j: nat, flags: nat)
    requires Shaped(r.m.ram) && d < |r.m.ram| && i < 1024 && j < 1024
  {
    exists f :: 0 < f < |s.marks| && !s.marks[f]
      && Walk(r.m.ram, d, i, j) == Some(Mapping(f, OrPresent(flags), Writable(flags), User(flags)))
  }

  lemma MapsNewAt(s: State, r: State, d: nat, i: nat, j: nat, flags: nat, f: nat)
    requires Shaped(r.m.ram) && d < |r.m.ram| && i < 1024 && j < 1024
    requires 0 < f < |s.marks| && !s.marks[f]
             && Walk(r.m.ram, d, i, j) == Some(Mapping(f, OrPresent(flags), Writable(flags), User(flags)))
    ensures MapsNew(s, r, d, i, j, flags)
  {}

  lemma Basics(s: State, d: nat, i: nat)
    requires Sound(s) && OwnSlot(s, d, i)
    ensures Tabled(s.m) && Shaped(s.m.ram) && s.m.kernel < |s.m.ram| && d < |s.m.ram|
    ensures Present(s.m.ram[d][i]) ==> Frame(s.m.ram[d][i]) < |s.m.ram|
  {}

  /** Giving back a frame of `d` is not noticed by the others either. */
  lemma GiveOthers(marks: seq<bool>, owner: map<nat, Role>, d: nat, f: nat)
    requires f < |marks| && Mine(owner, f, d) && f != d
    ensures OthersMarks(marks[f := false], owner - {f}, d) == OthersMarks(marks, owner, d)
    ensures OthersOwners(owner - {f}, d) == OthersOwners(owner, d)
  {
    var a, b := OthersMarks(marks[f := false], owner - {f}, d), OthersMarks(marks, owner, d);
    forall k | 0 <= k < |marks| ensures a[k] == b[k] {}
  }

  /** Unmapping and freeing a page: sound again, that page is gone, its frame is free, nothing else moved. */
  lemma UnmapFreeOk(s: State, d: nat, i: nat, j: nat)
    requires Sound(s) && OwnSlot(s, d, i) && j < 1024
    ensures var r := UnmapFree(s, d, i, j);
            && Sound(r) && OwnSlot(r, d, i) && |r.m.ram| == |s.m.ram| && r.m.kernel == s.m.kernel && SameOthers(s, r, d)
               && OnlyAt(s.m, r.m, d, i, j)
            && Walk(r.m.ram, d, i, j) == None
            && r.marks == match Walk(s.m.ram, d, i, j) case None => s.marks case Some(p) =>
                 if p.frame < |s.marks| then s.marks[p.frame := false] else s.marks
  {
    hide Private, Present, Frame, Flags, Writable, User, Tabled, OthersMarks, OthersOwners, SetPte, OnlyAt, Backed;
    Basics(s, d, i);
    if Present(s.m.ram[d][i]) {
      DropBacked(s.m, d, i, j);
      UnmapExact(s.m, d, i, j);
      DropShape(s, d, i, j);
      var w := s.m.ram[Frame(s.m.ram[d][i])][j];
      if Present(w) { GiveOthers(s.marks, s.m.owner, d, Frame(w)); }
    } else {
      Unmoved(s.m, d, i, j);
    }
  }

  lemma Unmoved(m: Mem, d: nat, i: nat, j: nat)
    requires Tabled(m)
    ensures OnlyAt(m, m, d, i, j)
  {}

  lemma DropShape(s: State, d: nat, i: nat, j: nat)
    requires Sound(s) && OwnSlot(s, d, i) && j < 1024 && Present(s.m.ram[d][i])
    requires Tabled(SetPte(s.m, d, i, j, 0)) && Tabled(Drop(s.m, d, i, j))
    ensures var r := Drop(s.m, d, i, j); var w := s.m.ram[Frame(s.m.ram[d][i])][j];
            && r.ram == SetPte(s.m, d, i, j, 0).ram && r.kernel == s.m.kernel && |r.ram| == |s.m.ram| && Shaped(r.ram)
            && r.owner == (if Present(w) then s.m.owner - {Frame(w)} else s.m.owner) && IsDir(r, d)
            && (Present(w) ==>
                   Is(s.m, Frame(w), Data(d, i, j)) && Frame(w) < |s.marks| && Frame(w) != 0 && Frame(w) != d)
            && (OnlyAt(s.m, SetPte(s.m, d, i, j, 0), d, i, j) ==> OnlyAt(s.m, r, d, i, j))
  {
    hide Present, Frame, Flags, Writable, User, SetPte;
    SetPteBasics(s.m, d, i, j, 0);
    assert Backs(s.m, d, i, j);
  }

  lemma CreateOk(s: State)
    requires Sound(s)
    ensures var (r, d) := Create(s);
            && Sound(r) && |r.m.ram| == |s.m.ram| && r.m.kernel == s.m.kernel && (d == 0 ==> r == s)
            && (d != 0 ==> IsDir(r.m, d) && Untouched(s.m, r.m) && !s.marks[d] && d !in s.m.owner)
            && (d != 0 ==> OthersMarks(r.marks, r.m.owner, d) == s.marks && OthersOwners(r.m.owner, d) == s.m.owner)
  {
    hide Backed, Tabled, Untouched, NewDir;
    AllocSound(s);
    var (s1, d) := Alloc(s);
    Parts(s);
    if d != 0 {
      NewDirOk(s.m, d);
      NewDirShape(s.m, d);
      NobodysFrames(s, d);
      var a := OthersMarks(s.marks[d := true], s.m.owner[d := Directory], d);
      forall k | 0 <= k < |a| ensures a[k] == s.marks[k] {}
    }
  }

  lemma Parts(s: State)
    requires Sound(s)
    ensures Tabled(s.m) && Shaped(s.m.ram) && s.m.kernel < |s.m.ram|
  {}

  lemma NewDirShape(m: Mem, d: nat)
    requires Shaped(m.ram) && m.kernel < |m.ram| && d < |m.ram|
    ensures var r := NewDir(m, d); |r.ram| == |m.ram| && r.kernel == m.kernel && r.owner == m.owner[d := Directory]
  {}

  /** Before it exists nothing belongs to a directory. */
  lemma NobodysFrames(s: State, d: nat)
    requires Sound(s) && d !in s.m.owner
    ensures forall f :: f in s.m.owner ==> !Mine(s.m.owner, f, d)
  {
    forall f | f in s.m.owner ensures !Mine(s.m.owner, f, d) {
      assert Seated(s.m, f);
      assert Homed(s.m, f);
    }
  }

  lemma DestroyOk(s: State, d: nat, r: State)
    requires Sound(s) && IsDir(s.m, d) && Destroyed(s, d, r)
    ensures Sound(r) && Untouched(r.m, s.m)
  {
    DestroyBacked(s.m, d);
  }

  // ---------------------------------------------------------------- lifetimes

  datatype Op = Grow(i: nat, j: nat, flags: nat) | Shrink(i: nat, j: nat)

  /** Pages are mapped only where nothing is mapped and only in slots the kernel does not use. */
  ghost predicate Legal(s: State, d: nat, op: Op)
    requires Sound(s)
  {
    op.j < 1024 && OwnSlot(s, d, op.i) && (op.Grow? ==> op.flags < 4096 && Walk(s.m.ram, d, op.i, op.j) == None)
  }

  ghost function Step(s: State, d: nat, op: Op): (r: State)
    requires Sound(s) && Legal(s, d, op)
    ensures Sound(r) && IsDir(r.m, d) && SameOthers(s, r, d) && OthersWalk(s, r, d)
  {
    Basics(s, d, op.i);
    StepOk(s, d, op);
    match op
    case Grow(i, j, flags) => MapFresh(s, d, i, j, flags).0
    case Shrink(i, j) => UnmapFree(s, d, i, j)
  }

  lemma StepOk(s: State, d: nat, op: Op)
    requires Sound(s) && Legal(s, d, op) && (Present(s.m.ram[d][op.i]) ==> Frame(s.m.ram[d][op.i]) < |s.m.ram|)
    ensures var r := if op.Grow? then MapFresh(s, d, op.i, op.j, op.flags).0 else UnmapFree(s, d, op.i, op.j);
            Sound(r) && IsDir(r.m, d) && SameOthers(s, r, d) && OthersWalk(s, r, d)
  {
    hide Backed, Private, Walk, OthersMarks, OthersOwners, Present, Frame, Flags, MapFresh, UnmapFree, MapsNew;
    Basics(s, d, op.i);
    match op
    case Grow(i, j, flags) => MapFreshOk(s, d, i, j, flags);
    case Shrink(i, j) => UnmapFreeOk(s, d, i, j);
  }

  /** Every other directory, the kernel's too, maps what it mapped. */
  ghost predicate OthersWalk(s: State, r: State, d: nat)
    requires Sound(s) && Sound(r)
  {
    && |s.m.ram| == |r.m.ram| && s.m.kernel == r.m.kernel
    && forall x, a, b {:trigger Walk(r.m.ram, x, a, b)} ::
         (IsDir(s.m, x) || x == s.m.kernel) && x != d && 0 <= a < 1023 && 0 <= b < 1024 ==>
             Walk(r.m.ram, x, a, b) == Walk(s.m.ram, x, a, b)
  }

  lemma OthersStay(s: State, r: State, d: nat, x: nat)
    requires SameOthers(s, r, d) && IsDir(s.m, x) && x != d
    ensures IsDir(r.m, x)
  {
    assert x in OthersOwners(s.m.owner, d);
  }

  lemma OthersChain(s: State, r: State, q: State, d: nat)
    requires Sound(s) && Sound(r) && Sound(q) && SameOthers(s, r, d) && OthersWalk(s, r, d) && OthersWalk(r, q, d)
    ensures OthersWalk(s, q, d)
  {
    hide Backed, Walk, OthersMarks, OthersOwners, SameOthers;
    Parts(s);
    Parts(r);
    Parts(q);
    forall x, a, b | (IsDir(s.m, x) || x == s.m.kernel) && x != d && 0 <= a < 1023 && 0 <= b < 1024
      ensures Walk(q.m.ram, x, a, b) == Walk(s.m.ram, x, a, b)
    {
      if IsDir(s.m, x) { OthersStay(s, r, d, x); }
      assert Walk(r.m.ram, x, a, b) == Walk(s.m.ram, x, a, b);
    }
  }

  ghost predicate Legals(s: State, d: nat, ops: seq<Op>)
    requires Sound(s)
    decreases |ops|
  {
    ops == [] || (Legal(s, d, ops[0]) && Legals(Step(s, d, ops[0]), d, ops[1..]))
  }

  ghost function Run(s: State, d: nat, ops: seq<Op>): (r: State)
    requires Sound(s) && IsDir(s.m, d) && Legals(s, d, ops)
    ensures Sound(r) && IsDir(r.m, d) && SameOthers(s, r, d) && OthersWalk(s, r, d)
    decreases |ops|
  {
    if ops == [] then s
    else
      var n := Step(s, d, ops[0]);
      var r := Run(n, d, ops[1..]);
      OthersChain(s, n, r, d);
      r
  }

  /** Whatever an address space does between its creation and its destruction, afterwards the same
      frames are in use and owned as before, so each of its frames has been given back, none of the
      kernel's or anyone else's, and no walk of another directory is different. */
  lemma Lifetime(s: State, ops: seq<Op>, r: State)
    requires Sound(s) && Create(s).1 != 0
    requires var (c, d) := Create(s); Sound(c) && IsDir(c.m, d) && Legals(c, d, ops) && Destroyed(Run(c, d, ops), d, r)
    ensures r.marks == s.marks && r.m.owner == s.m.owner && Sound(r) && OthersWalk(s, r, Create(s).1)
  {
    hide Backed, Walk, Create;
    Parts(s);
    CreateOk(s);
    var (c, d) := Create(s);
    var e := Run(c, d, ops);
    DestroyOk(e, d, r);
    Parts(c);
    Parts(r);
    forall x, a, b | (IsDir(s.m, x) || x == s.m.kernel) && 0 <= a < 1023 && 0 <= b < 1024
      ensures Walk(r.m.ram, x, a, b) == Walk(s.m.ram, x, a, b)
    {
      assert Walk(c.m.ram, x, a, b) == Walk(s.m.ram, x, a, b);
    }
  }
}
