/** Resource handles: every task has a table of slots, a resource is shared by fork, and its `close`
    runs when the last slot that holds it is cleared. */
module Handles {
  const SLOTS: nat := 512

  /** A resource and its reference count; `serial` tells resources apart that live at the same address
      one after the other. */
  datatype Resource = Resource(refs: nat, serial: nat)

  /** Slot tables by task, with 0 for NULL; live resources by address; serials of those closed. */
  datatype Table = Table(slots: map<nat, seq<nat>>, live: map<nat, Resource>, closed: set<nat>, next: nat)

  /** The slots that hold `r`. */
  ghost function Holders(slots: map<nat, seq<nat>>, r: nat): set<(nat, int)> {
    set t, i | t in slots && 0 <= i < |slots[t]| && slots[t][i] == r :: (t, i)
  }

  ghost predicate Counted(s: Table, r: nat)
    requires r in s.live
  {
    r != 0 && s.live[r].refs == |Holders(s.slots, r)| && s.live[r].refs > 0 && s.live[r].serial < s.next
      && s.live[r].serial !in s.closed
  }

  ghost predicate Filled(s: Table, t: nat)
    requires t in s.slots
  {
    |s.slots[t]| == SLOTS && forall i {:trigger s.slots[t][i]} :: 0 <= i < SLOTS && s.slots[t][i] != 0 ==>
        s.slots[t][i] in s.live
  }

  ghost predicate Serials(live: map<nat, Resource>) {
    forall a, b {:trigger live[a], live[b]} :: a in live && b in live && live[a].serial == live[b].serial ==> a == b
  }

  /** Reference counts are numbers of holders; nothing that is held is closed, and everything that was
      opened and is no longer held is. */
  ghost predicate Inv(s: Table) {
    && (forall t {:trigger Filled(s, t)} :: t in s.slots ==> Filled(s, t))
    && (forall r {:trigger Counted(s, r)} :: r in s.live ==> Counted(s, r))
    && Serials(s.live)
    && (forall n {:trigger n in s.closed} :: n in s.closed ==> n < s.next)
    && (forall n: nat {:trigger Open(s.live, n)} :: n < s.next ==> (Open(s.live, n) <==> n !in s.closed))
  }

  ghost predicate Open(live: map<nat, Resource>, n: nat) { exists r :: r in live && live[r].serial == n }

  // ---------------------------------------------------------------- steps

  function SetSlot(slots: map<nat, seq<nat>>, t: nat, i: nat, r: nat): map<nat, seq<nat>>
    requires t in slots && i < |slots[t]|
  {
    var list: seq<nat> := slots[t][i := r];
    slots[t := list]
  }

  /** The tables `n` are `slots` with `v` in slot `i` of `t`. */
  ghost predicate OneSlot(slots: map<nat, seq<nat>>, n: map<nat, seq<nat>>, t: nat, i: nat, v: nat) {
    && t in slots && t in n && i < |slots[t]| && n[t] == slots[t][i := v] && n.Keys == slots.Keys
    && forall u :: u in slots && u != t ==> n[u] == slots[u]
  }

  /** A new resource at address `at` in the empty slot `i` of `t`. */
  function Register(s: Table, t: nat, i: nat, at: nat): Table
    requires t in s.slots && i < |s.slots[t]|
  {
    Table(SetSlot(s.slots, t, i, at), s.live[at := Resource(1, s.next)], s.closed, s.next + 1)
  }

  /** `resource_share` into the empty slot `i` of `t`. */
  function Share(s: Table, t: nat, i: nat, r: nat): Table
    requires t in s.slots && i < |s.slots[t]| && r in s.live
  {
    s.(slots := SetSlot(s.slots, t, i, r), live := s.live[r := s.live[r].(refs := s.live[r].refs + 1)])
  }

  /** `resource_remove`: the last reference closes and frees the resource. */
  function Remove(s: Table, t: nat, i: nat): Table
    requires t in s.slots && i < |s.slots[t]|
             && (s.slots[t][i] != 0 ==> s.slots[t][i] in s.live && s.live[s.slots[t][i]].refs > 0)
  {
    var r := s.slots[t][i];
    if r == 0 then s
    else
      var left := s.live[r].refs - 1;
      var s1 := s.(slots := SetSlot(s.slots, t, i, 0));
      if left == 0 then s1.(live := s.live - {r}, closed := s.closed + {s.live[r].serial})
      else s1.(live := s.live[r := s.live[r].(refs := left)])
  }

  // ---------------------------------------------------------------- counting holders

  lemma HoldersSet(slots: map<nat, seq<nat>>, t: nat, i: nat, v: nat, r: nat)
    requires t in slots && i < |slots[t]|
    ensures Holders(SetSlot(slots, t, i, v), r) ==
              Holders(slots, r) - (if slots[t][i] == r then {(t, i)} else {}) + (if v == r then {(t, i)} else {})
    ensures slots[t][i] == r ==> (t, i) in Holders(slots, r)
    ensures slots[t][i] != r ==> (t, i) !in Holders(slots, r)
  {
    var n := SetSlot(slots, t, i, v);
    forall u, k ensures (u, k) in Holders(n, r) <==> if u == t && k == i then v == r else (u, k) in Holders(slots, r) {}
  }

  /** How a write to a slot changes the number of holders. */
  lemma HoldersCount(slots: map<nat, seq<nat>>, t: nat, i: nat, v: nat, r: nat)
    requires t in slots && i < |slots[t]| && slots[t][i] != v
    ensures |Holders(SetSlot(slots, t, i, v), r)| ==
              |Holders(slots, r)| - (if slots[t][i] == r then 1 else 0) + (if v == r then 1 else 0)
  {
    HoldersSet(slots, t, i, v, r);
  }

  lemma SerialsSub(live: map<nat, Resource>, r: map<nat, Resource>)
    requires Serials(live) && forall a {:trigger r[a]} :: a in r ==> a in live && r[a].serial == live[a].serial
    ensures Serials(r)
  {}

  /** Which serials are open depends on the serials alone. */
  lemma OpenSame(live: map<nat, Resource>, r: map<nat, Resource>, n: nat)
    requires live.Keys == r.Keys && forall a {:trigger r[a]} :: a in r ==> r[a].serial == live[a].serial
    ensures Open(live, n) == Open(r, n)
  {
    if Open(live, n) { var a :| a in live && live[a].serial == n; assert a in r && r[a].serial == n; }
    if Open(r, n) { var a :| a in r && r[a].serial == n; assert a in live && live[a].serial == n; }
  }

  lemma ShareKeeps(s: Table, t: nat, i: nat, r: nat)
    requires Inv(s) && t in s.slots && i < |s.slots[t]| && s.slots[t][i] == 0 && r in s.live
    ensures Filled(s, t) && Inv(Share(s, t, i, r))
  {
    hide Holders, Open, Serials;
    assert Filled(s, t) && Counted(s, r);
    var n := Share(s, t, i, r);
    SerialsSub(s.live, n.live);
    forall u | u in n.slots ensures Filled(n, u) { assert Filled(s, u); }
    forall x | x in n.live ensures Counted(n, x) { assert Counted(s, x); HoldersCount(s.slots, t, i, r, x); }
    forall k: nat | k < n.next ensures Open(n.live, k) <==> k !in n.closed {
      OpenSame(s.live, n.live, k); assert Open(s.live, k) <==> k !in s.closed;
    }
  }

  lemma RegisterKeeps(s: Table, t: nat, i: nat, at: nat)
    requires Inv(s) && t in s.slots && i < |s.slots[t]| && s.slots[t][i] == 0 && at != 0 && at !in s.live
    ensures Filled(s, t) && Inv(Register(s, t, i, at))
  {
    hide Holders, Open;
    assert Filled(s, t);
    var n := Register(s, t, i, at);
    NobodyHolds(s, at);
    forall u | u in n.slots ensures Filled(n, u) { assert Filled(s, u); }
    forall x | x in n.live ensures Counted(n, x) {
      HoldersCount(s.slots, t, i, at, x); if x != at { assert Counted(s, x); }
    }
    forall x | x in s.live ensures s.live[x].serial < s.next { assert Counted(s, x); }
    forall k: nat | k < n.next ensures Open(n.live, k) <==> k !in n.closed {
      OpenMade(s.live, at, s.next, k);
      assert k < s.next ==> (Open(s.live, k) <==> k !in s.closed);
    }
  }

  lemma NobodyHolds(s: Table, r: nat)
    requires Inv(s) && r != 0 && r !in s.live
    ensures Holders(s.slots, r) == {}
  {
    forall t, i | t in s.slots && 0 <= i < |s.slots[t]| ensures s.slots[t][i] != r { assert Filled(s, t); }
  }

  lemma OpenMade(live: map<nat, Resource>, at: nat, serial: nat, n: nat)
    requires at !in live
    ensures Open(live[at := Resource(1, serial)], n) <==> Open(live, n) || n == serial
  {
    var r := live[at := Resource(1, serial)];
    if Open(live, n) { var a :| a in live && live[a].serial == n; assert a in r && r[a].serial == n; }
    if n == serial { assert at in r && r[at].serial == n; }
  }

  lemma RemoveKeeps(s: Table, t: nat, i: nat)
    requires Inv(s) && t in s.slots && i < SLOTS
    ensures Filled(s, t) && (s.slots[t][i] != 0 ==> s.slots[t][i] in s.live && s.live[s.slots[t][i]].refs > 0)
    ensures Inv(Remove(s, t, i))
  {
    hide Holders, Open, Serials;
    assert Filled(s, t);
    var r := s.slots[t][i];
    if r != 0 {
      assert Counted(s, r);
      var n := Remove(s, t, i);
      SerialsSub(s.live, n.live);
      forall x | x in n.live ensures Counted(n, x) {
        assert Counted(s, x);
        HoldersCount(s.slots, t, i, 0, x);
        SerialsApart(s.live, x, r);
      }
      HoldersCount(s.slots, t, i, 0, r);
      forall u | u in n.slots ensures Filled(n, u) {
        assert Filled(s, u);
        if r !in n.live { NoHolderLeft(n.slots, r, u); }
      }
      forall k: nat | k < n.next ensures Open(n.live, k) <==> k !in n.closed {
        assert Open(s.live, k) <==> k !in s.closed;
        if r in n.live { OpenSame(s.live, n.live, k); } else { OpenGone(s.live, r, k); }
      }
    }
  }

  lemma SerialsApart(live: map<nat, Resource>, a: nat, b: nat)
    requires Serials(live) && a in live && b in live
    ensures a != b ==> live[a].serial != live[b].serial
  {}

  lemma NoHolderLeft(slots: map<nat, seq<nat>>, r: nat, u: nat)
    requires |Holders(slots, r)| == 0 && u in slots
    ensures forall i {:trigger slots[u][i]} :: 0 <= i < |slots[u]| ==> slots[u][i] != r
  {
    forall i | 0 <= i < |slots[u]| ensures slots[u][i] != r { assert (u, i) !in Holders(slots, r); }
  }

  lemma OpenGone(live: map<nat, Resource>, r: nat, n: nat)
    requires r in live && Serials(live)
    ensures Open(live - {r}, n) <==> Open(live, n) && n != live[r].serial
  {
    if Open(live - {r}, n) {
      var a :| a in live - {r} && (live - {r})[a].serial == n; assert a in live && live[a].serial == n;
    }
    if Open(live, n) && n != live[r].serial {
      var a :| a in live && live[a].serial == n; assert a in live - {r} && (live - {r})[a].serial == n;
    }
  }

  /** `close` runs exactly when the slot was the only one that held the resource, and it had not run before. */
  lemma ClosesExactly(s: Table, t: nat, i: nat)
    requires Inv(s) && t in s.slots && i < SLOTS
    ensures Filled(s, t) && (s.slots[t][i] != 0 ==> s.slots[t][i] in s.live && s.live[s.slots[t][i]].refs > 0)
    ensures var r := s.slots[t][i]; var n := Remove(s, t, i);
            && (r == 0 ==> n == s)
            && (r != 0 ==>
                   s.live[r].serial !in s.closed && (s.live[r].serial in n.closed <==> Holders(s.slots, r) == {(t, i)}))
            && (r != 0 ==> n.closed == s.closed || n.closed == s.closed + {s.live[r].serial})
            && OneSlot(s.slots, n.slots, t, i, 0) && n.live.Keys <= s.live.Keys
            && (forall x :: x in s.live && x != r ==> x in n.live && n.live[x] == s.live[x])
  {
    RemoveKeeps(s, t, i);
    var r := s.slots[t][i];
    if r != 0 {
      assert Counted(s, r);
      HoldersSet(s.slots, t, i, 0, r);
      var h := Holders(s.slots, r);
      if |h| == 1 { assert |h - {(t, i)}| == 0; assert h == {(t, i)}; }
    }
  }

  // ---------------------------------------------------------------- tasks come and go

  function Empty(): (z: seq<nat>)
    ensures |z| == SLOTS && forall i {:trigger z[i]} :: 0 <= i < SLOTS ==> z[i] == 0
  {
    seq(SLOTS, _ => 0)
  }

  /** A task without handles can appear and disappear. */
  lemma BareTask(s: Table, t: nat)
    requires Inv(s)
    ensures t !in s.slots ==> Inv(s.(slots := s.slots[t := Empty()]))
    ensures t in s.slots && (forall i :: 0 <= i < |s.slots[t]| ==> s.slots[t][i] == 0) ==>
              Inv(s.(slots := s.slots - {t}))
  {
    hide Serials, Open;
    if t !in s.slots {
      var n := s.(slots := s.slots[t := Empty()]);
      forall u | u in n.slots ensures Filled(n, u) { if u != t { assert Filled(s, u); } }
      forall r | r in n.live ensures Counted(n, r) {
        assert Counted(s, r); assert Holders(n.slots, r) == Holders(s.slots, r);
      }
    } else if forall i :: 0 <= i < |s.slots[t]| ==> s.slots[t][i] == 0 {
      var n := s.(slots := s.slots - {t});
      forall u | u in n.slots ensures Filled(n, u) { assert Filled(s, u); }
      forall r | r in n.live ensures Counted(n, r) {
        assert Counted(s, r); assert Holders(n.slots, r) == Holders(s.slots, r);
      }
    }
  }

  /** Serials of the resources that only slots of `t` hold. */
  ghost function OnlyHeldBy(s: Table, t: nat): set<nat> {
    set r | r in s.live && Holders(s.slots - {t}, r) == {} :: s.live[r].serial
  }

  /** What is closed follows from who is left. */
  lemma ReapedExactly(s: Table, n: Table, t: nat)
    requires Inv(s) && Inv(n) && n.slots == s.slots - {t} && n.next == s.next
    requires forall r {:trigger n.live[r]} :: r in n.live ==> r in s.live && n.live[r].serial == s.live[r].serial
    ensures n.closed == s.closed + OnlyHeldBy(s, t)
  {
    hide Holders;
    forall k: nat ensures k in n.closed <==> k in s.closed + OnlyHeldBy(s, t) {
      if k < s.next {
        assert (Open(s.live, k) <==> k !in s.closed) && (Open(n.live, k) <==> k !in n.closed);
        ReapedOne(s, n, t, k);
      } else {
        forall r | r in s.live ensures s.live[r].serial != k { assert Counted(s, r); }
      }
    }
  }

  lemma ReapedOne(s: Table, n: Table, t: nat, k: nat)
    requires Inv(s) && Inv(n) && n.slots == s.slots - {t}
    requires forall r {:trigger n.live[r]} :: r in n.live ==> r in s.live && n.live[r].serial == s.live[r].serial
    ensures k in OnlyHeldBy(s, t) <==> Open(s.live, k) && !Open(n.live, k)
  {
    hide Holders;
    if Open(n.live, k) {
      var r :| r in n.live && n.live[r].serial == k;
      assert Counted(n, r) && r in s.live && s.live[r].serial == k;
      LiveIffHeld(n, r);
      forall x | x in s.live && s.live[x].serial == k ensures x == r {}
    } else if Open(s.live, k) {
      var r :| r in s.live && s.live[r].serial == k;
      assert Counted(s, r);
      LiveIffHeld(n, r);
    }
  }

  class HandleTable {
    var slots: map<nat, seq<nat>>
    var live: map<nat, Resource>
    ghost var closed: set<nat>
    var next: nat

    ghost function Abs(): Table
      reads this
    {
      Table(slots, live, closed, next)
    }

    ghost predicate Valid()
      reads this
    {
      Inv(Abs())
    }

    constructor ()
      ensures Valid() && slots == map[] && live == map[] && closed == {} && next == 0
    {
      slots, live := map[], map[];
      next := 0;
      closed := {};
    }

    lemma Width(t: nat)
      requires Valid() && t in slots
      ensures |slots[t]| == SLOTS && forall i {:trigger slots[t][i]} :: 0 <= i < SLOTS && slots[t][i] != 0 ==>
                slots[t][i] in live
    {
      assert Filled(Abs(), t);
    }

    /** `resource_register`: the lowest empty slot, or failure if there is none; `at` is the address of
        the new resource. */
    method Open(t: nat, at: nat) returns (index: int)
      requires Valid() && t in slots && at != 0 && at !in live
      modifies this
      ensures Valid() && -1 <= index < SLOTS && old(|slots[t]|) == SLOTS
      ensures index == -1 ==> Abs() == old(Abs()) && forall i :: 0 <= i < SLOTS ==> slots[t][i] != 0
      ensures index >= 0 ==> old(slots[t])[index] == 0 && Abs() == Register(old(Abs()), t, index, at)
      ensures index >= 0 ==> OneSlot(old(slots), slots, t, index, at)
                             && live == old(live)[at := Resource(1, old(next))] && next == old(next) + 1
      ensures forall i :: 0 <= i < index ==> old(slots[t])[i] != 0
    {
      hide Inv;
      Width(t);
      var i := 0;
      while i < SLOTS
        invariant i <= SLOTS && forall k :: 0 <= k < i ==> slots[t][k] != 0
      {
        if slots[t][i] == 0 {
          RegisterKeeps(Abs(), t, i, at);
          slots := SetSlot(slots, t, i, at);
          live := live[at := Resource(1, next)];
          next := next + 1;
          return i;
        }
        i := i + 1;
      }
      return -1;
    }

    /** `resource_remove`; an index beyond the table is refused, an empty slot is left alone. */
    method Close(t: nat, i: nat) returns (ok: bool)
      requires Valid() && t in slots
      modifies this`slots, this`live, this`closed
      ensures Valid() && ok == (i < SLOTS) && old(|slots[t]|) == SLOTS
      ensures !ok ==> Abs() == old(Abs())
      ensures ok ==>
                (old(slots[t][i]) != 0 ==> old(slots[t][i]) in old(live) && old(live[slots[t][i]]).refs > 0)
                && Abs() == Remove(old(Abs()), t, i)
      ensures ok ==> OneSlot(old(slots), slots, t, i, 0)
      ensures forall r :: r in old(live) && (ok ==> r != old(slots[t][i])) ==> r in live && live[r] == old(live)[r]
    {
      hide Inv;
      Width(t);
      if i >= SLOTS { return false; }
      ok := true;
      RemoveKeeps(Abs(), t, i);
      var r := slots[t][i];
      if r == 0 { return; }
      live := live[r := live[r].(refs := live[r].refs - 1)];
      if live[r].refs == 0 {
        closed := closed + {live[r].serial};
        assert live - {r} == old(live) - {r};
        live := live - {r};
      }
      slots := SetSlot(slots, t, i, 0);
    }

    /** The sharing loop of fork: the child holds what the parent holds, slot by slot. */
    method Fork(parent: nat, child: nat)
      requires Valid() && parent in slots && child !in slots
      modifies this`slots, this`live
      ensures Valid() && slots == old(slots)[child := old(slots[parent])] && closed == old(closed)
              && live.Keys == old(live.Keys)
    {
      hide Inv;
      Width(parent);
      ghost var from := slots[parent];
      BareTask(Abs(), child);
      slots := slots[child := Empty()];
      for i := 0 to SLOTS
        invariant Valid() && slots.Keys == old(slots.Keys) + {child} && live.Keys == old(live.Keys)
        invariant forall t {:trigger slots[t]} :: t in old(slots) ==> slots[t] == old(slots)[t]
        invariant |slots[child]| == SLOTS && forall k {:trigger slots[child][k]} :: 0 <= k < SLOTS ==>
                    slots[child][k] == if k < i then from[k] else 0
      {
        Width(parent);
        var r := slots[parent][i];
        if r != 0 {
          ShareKeeps(Abs(), child, i, r);
          live := live[r := live[r].(refs := live[r].refs + 1)];
          slots := SetSlot(slots, child, i, r);
        }
      }
      assert slots[child] == from;
    }

    /** The closing loop of `task_manager_destroy_task`: it closes exactly what nobody else holds. */
    method Reap(t: nat)
      requires Valid() && t in slots
      modifies this`slots, this`live, this`closed
      ensures Valid() && slots == old(slots) - {t}
      ensures closed == old(closed) + OnlyHeldBy(old(Abs()), t)
    {
      hide Inv, Holders;
      Width(t);
      ghost var s := Abs();
      for i := 0 to SLOTS
        invariant Valid() && slots.Keys == old(slots.Keys) && next == s.next
        invariant forall r {:trigger live[r]} :: r in live ==> r in s.live && live[r].serial == s.live[r].serial
        invariant forall u {:trigger slots[u]} :: u in slots && u != t ==> slots[u] == old(slots)[u]
        invariant |slots[t]| == SLOTS && forall k {:trigger slots[t][k]} :: 0 <= k < i ==> slots[t][k] == 0
      {
        if slots[t][i] != 0 { var _ := Close(t, i); }
      }
      BareTask(Abs(), t);
      slots := slots - {t};
      assert slots == s.slots - {t};
      ReapedExactly(s, Abs(), t);
    }
  }

  /** A resource exists exactly as long as some slot holds it. */
  lemma LiveIffHeld(s: Table, r: nat)
    requires Inv(s) && r != 0
    ensures r in s.live <==> Holders(s.slots, r) != {}
  {
    if r in s.live { assert Counted(s, r); } else { NobodyHolds(s, r); }
  }

  /** With all tasks gone every resource that was ever opened has been closed. */
  lemma AllClosed(s: Table, n: nat)
    requires Inv(s) && s.slots == map[] && n < s.next
    ensures s.live == map[] && n in s.closed
  {
    forall r ensures r !in s.live {
      assert Holders(s.slots, r) == {};
      assert r in s.live ==> Counted(s, r);
    }
    assert !Open(s.live, n);
  }
}
