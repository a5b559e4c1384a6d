/** Sleeping, waking, exiting and reaping: what each does to the partition, the process tree and
    the sleepers. */
module SchedLife {
  import opened Options
  import opened Lists
  import opened SchedSpec
  import opened SchedInv

  // ---------------------------------------------------------------- partition of each operation

  lemma BlockOk<T>(s: Sys<T>, t: T, w: Wait)
    requires Partition(s) && t in s.task && t != s.idle && s.task[t].state == Running
    ensures var r := Block(s, t, w);
            && Partition(r) && r == s.(q := r.q,
                 task := s.task[t := s.task[t].(state := Blocked, wait := w, level := 4)])
            && forall k :: 0 <= k < 6 && k != 4 ==> r.q[k] == s.q[k]
  {
    var asleep := s.task[t].(state := Blocked, wait := w);
    RunningIsLoose(s, t);
    Change(s, t, asleep);
    assert t !in s.q[s.task[t].level];
    Attach(Put(s, t, asleep), t, BLOCKED);
    assert Unqueue(Put(s, t, asleep), s.task[t].level, t) == Put(s, t, asleep);
  }

  lemma UnblockOk<T>(s: Sys<T>, t: T)
    requires Partition(s) && t in s.task && t != s.idle && s.task[t].state == Blocked
    ensures var r := Unblock(s, t);
            && Partition(r) && r == s.(q := r.q, task := s.task[t := s.task[t].(state := Ready, level := 0)])
            && r.q[0] == s.q[0] + [t] && r.q[5] == s.q[5]
  {
    assert Located(s, t);
    Detach(s, t);
    var s1 := Unqueue(s, s.task[t].level, t);
    Change(s1, t, s1.task[t].(state := Ready));
    Attach(Put(s1, t, s1.task[t].(state := Ready)), t, 0);
    assert Unblock(s, t).task == s.task[t := s.task[t].(state := Ready, level := 0)];
  }

  /** `Select` keeps order and picks exactly the waiting (or the other) elements. */
  lemma {:induction false} SelectMember<T>(task: map<T, Task<T>>, list: seq<T>, w: Wait, hit: bool, x: T)
    ensures x in Select(task, list, w, hit) <==> x in list && WaitsOn(task, x, w) == hit
  {
    if list != [] {
      var front := list[..|list| - 1];
      SelectMember(task, front, w, hit, x);
      assert list == front + [list[|list| - 1]];
    }
  }

  lemma {:induction false} SelectNoDup<T>(task: map<T, Task<T>>, list: seq<T>, w: Wait, hit: bool)
    requires NoDup(list)
    ensures NoDup(Select(task, list, w, hit))
  {
    if list != [] {
      var front, last := list[..|list| - 1], list[|list| - 1];
      SelectNoDup(task, front, w, hit);
      SelectMember(task, front, w, hit, last);
      assert forall i :: 0 <= i < |front| ==> front[i] == list[i];
      if WaitsOn(task, last, w) == hit { AppendNoDup(Select(task, front, w, hit), last); }
    }
  }

  lemma ConcatDisjoint<T>(a: seq<T>, b: seq<T>)
    requires NoDup(a) && NoDup(b) && forall x :: x in a ==> x !in b
    ensures NoDup(a + b)
  {
    var c := a + b;
    forall i, j | 0 <= i < j < |c| ensures c[i] != c[j] {
      if i < |a| <= j {
        assert c[i] in a && c[j] in b;
      } else if j < |a| {
        assert c[i] == a[i] && c[j] == a[j];
      } else {
        assert c[i] == b[i - |a|] && c[j] == b[j - |a|];
      }
    }
  }

  lemma WakeLists<T>(s: Sys<T>, w: Wait) returns (woken: seq<T>, rest: seq<T>)
    requires Partition(s)
    ensures Wake(s, w).q == s.q[0 := s.q[0] + woken][4 := rest]
    ensures forall x {:trigger x in woken} :: x in woken <==> x in s.q[4] && s.task[x].wait == w
    ensures forall x {:trigger x in rest} :: x in rest <==> x in s.q[4] && s.task[x].wait != w
    ensures NoDup(rest) && NoDup(s.q[0] + woken)
    ensures Wake(s, w).task == Readied(s.task, woken)
  {
    var list := s.q[4];
    woken, rest := Select(s.task, list, w, true), Select(s.task, list, w, false);
    assert list[..|list|] == list && rest + list[|list|..] == rest;
    forall x ensures x in woken <==> x in list && WaitsOn(s.task, x, w) { SelectMember(s.task, list, w, true, x); }
    forall x ensures x in rest <==> x in list && !WaitsOn(s.task, x, w) { SelectMember(s.task, list, w, false, x); }
    SelectNoDup(s.task, list, w, true);
    SelectNoDup(s.task, list, w, false);
    ConcatDisjoint(s.q[0], woken);
  }

  /** A wake-up readies exactly the blocked tasks that wait for `w`. */
  lemma WakeOk<T>(s: Sys<T>, w: Wait)
    requires Partition(s)
    ensures var r := Wake(s, w);
            && Partition(r) && r == s.(q := r.q, task := r.task) && r.task.Keys == s.task.Keys
            && s.q[0] <= r.q[0] && r.q[5] == s.q[5]
            && forall t {:trigger r.task[t]} {:trigger s.task[t]} :: t in s.task ==>
                 r.task[t] == if s.task[t].state == Blocked
                                 && s.task[t].wait == w && t != s.idle then s.task[t].(state := Ready, level := 0)
                                    else s.task[t]
  {
    var r := Wake(s, w);
    var woken, rest := WakeLists(s, w);
    forall x | x in s.task ensures x in woken <==> s.task[x].state == Blocked && s.task[x].wait == w && x != s.idle {
      if x != s.idle { assert Located(s, x); }
    }
    forall k, x | 0 <= k < 6 && x in r.q[k] ensures Fits(r, k, x) {
      if k == 0 {
        assert x in s.q[0] || x in woken;
      } else if k == 4 {
        assert x in rest;
      } else {
        assert x in s.q[k];
      }
    }
    forall x | x in r.task && x != r.idle ensures Located(r, x) { assert Located(s, x); }
  }

  /** The tree fields play no part in placement. */
  lemma ReparentKeeps<T>(s: Sys<T>, t: T, loose: Option<T>)
    requires PartitionBut(s, loose) && t in s.task
    ensures PartitionBut(Reparent(s, t), loose)
  {
    var r := Reparent(s, t);
    forall x | x in r.task && x != r.idle && loose != Some(x) ensures Located(r, x) { assert Located(s, x); }
  }

  lemma DetachedOk<T>(s: Sys<T>, t: T)
    requires Partition(s) && t in s.task && t != s.idle && s.task[t].state != Zombie
    ensures var r := Detached(s, t);
            && PartitionBut(r, Some(t)) && r == s.(q := r.q) && r.q[5] == s.q[5]
            && (s.task[t].state == Running ==> r == s)
            && forall k {:trigger r.q[k]} :: 0 <= k < 4 ==>
                 r.q[k] == if s.task[t].state == Ready && s.task[t].level == k then Remove(s.q[k], t) else s.q[k]
  {
    if s.task[t].state == Running {
      RunningIsLoose(s, t);
    } else {
      assert Located(s, t);
      Detach(s, t);
    }
  }

  /** The task after the first part of its exit: a zombie in no queue, its children with init. */
  function Orphaned<T(==)>(s: Sys<T>, t: T, code: int): (r: Sys<T>)
    requires Shaped(s) && t in s.task
    ensures Shaped(r) && t in r.task
  {
    var s1 := Detached(s, t);
    Reparent(Put(s1, t, s1.task[t].(state := Zombie, code := code)), t)
  }

  lemma OrphanedOk<T>(s: Sys<T>, t: T, code: int)
    requires Partition(s) && t in s.task && t != s.idle && s.task[t].state != Zombie
    ensures PartitionBut(Orphaned(s, t, code), Some(t))
  {
    DetachedOk(s, t);
    var s1 := Detached(s, t);
    var dead := s1.task[t].(state := Zombie, code := code);
    Change(s1, t, dead);
    ReparentKeeps(Put(s1, t, dead), t, Some(t));
  }

  /** The order of the last two parts of an exit does not matter. */
  lemma BuryThenWake<T>(s: Sys<T>, t: T)
    requires PartitionBut(s, Some(t)) && t in s.task && t != s.idle && s.task[t].parent != Some(t)
    ensures Enqueue(WakeParent(s, t), 5, t) == WakeParent(Enqueue(s, 5, t), t)
  {
    match s.task[t].parent
    case None =>
    case Some(p) => if WaitsFor(s, p, s.task[t].pid) { assert Located(s, p); BuryUnblock(s, t, p); }
  }

  lemma {:induction false} BuryUnblock<T>(s: Sys<T>, t: T, p: T)
    requires Shaped(s) && t in s.task && p in s.task && t != p && t != s.idle && p != s.idle
    requires s.task[p].state == Blocked && s.task[p].level == 4
    ensures Enqueue(Unblock(s, p), 5, t) == Unblock(Enqueue(s, 5, t), p)
  {
    var a, b := Enqueue(Unblock(s, p), 5, t), Unblock(Enqueue(s, 5, t), p);
    assert a.task == b.task;
    assert a.q == b.q;
  }

  /** An exit leaves a partition: the task is a zombie, and at most its parent changed queue. */
  lemma ExitOk<T>(s: Sys<T>, t: T, code: int)
    requires Partition(s) && t in s.task && t != s.idle && s.task[t].state != Zombie && s.task[t].parent != Some(t)
    requires s.task[t].parent != Some(s.idle)
    ensures Partition(ExitTask(s, t, code))
    ensures ExitTask(s, t, code) == WakeParent(Enqueue(Orphaned(s, t, code), 5, t), t)
  {
    OrphanedOk(s, t, code);
    var s3 := Orphaned(s, t, code);
    BuryThenWake(s3, t);
    Attach(s3, t, 5);
    var s4 := Enqueue(s3, 5, t);
    match s4.task[t].parent
    case None =>
    case Some(p) => if WaitsFor(s4, p, s4.task[t].pid) { UnblockOk(s4, p); }
  }

  /** A forked child is ready at the back of queue 0. */
  lemma ForkOk<T>(s: Sys<T>, child: T)
    requires Partition(s) && child !in s.task
    ensures var r := Forked(s, child); Partition(r) && r.q == s.q[0 := s.q[0] + [child]]
  {
    var c := s.current;
    var r := Forked(s, child);
    assert child !in s.q[0];
    AppendNoDup(s.q[0], child);
    forall k, x | 0 <= k < 6 && x in r.q[k] ensures Fits(r, k, x) { assert x == child || x in s.q[k]; }
    forall x | x in r.task && x != r.idle ensures Located(r, x) {
      if x != child { assert Located(s, x); }
    }
  }

  /** A reaped zombie is gone from every queue. */
  lemma {:induction false} DestroyOk<T>(s: Sys<T>, c: T)
    requires Partition(s) && c in s.task && s.task[c].state == Zombie && c != s.init && c != s.current && c != s.idle
    requires s.task[c].parent != Some(c)
    ensures var r := Destroy(s, c); Partition(r) && r.q == s.q[5 := Remove(s.q[5], c)]
  {
    assert Located(s, c);
    Detach(s, c);
    var s1 := Unqueue(s, 5, c);
    var r := Destroy(s, c);
    forall x | x in r.task && x != r.idle ensures Located(r, x) { assert Located(s1, x); }
  }

  // ---------------------------------------------------------------- records after an exit

  /** The record of `x` when `t` has become a zombie and init has its children. */
  function Buried<T(==)>(s: Sys<T>, t: T, code: int, x: T): (r: Task<T>)
    requires t in s.task && x in s.task
    ensures x != t ==> r.state == s.task[x].state && r.wait == s.task[x].wait
    ensures r.pid == s.task[x].pid && (x == t ==> r.parent == s.task[x].parent)
  {
    var kids := s.task[t].children;
    if x == t then s.task[x].(state := Zombie, code := code, children := [], level := 5)
    else
      var r := if x in kids then s.task[x].(parent := Some(s.init)) else s.task[x];
      if x == s.init then r.(children := Reversed(kids) + r.children) else r
  }

  /** The record of `x` after the exit of `t`: its parent is ready if it waited for it. */
  function AfterExit<T(==)>(s: Sys<T>, t: T, code: int, x: T): (r: Task<T>)
    requires t in s.task && x in s.task
    ensures r.pid == s.task[x].pid && r.slice == s.task[x].slice && r.yielding == s.task[x].yielding
    ensures r.parent == if x != t && x in s.task[t].children then Some(s.init) else s.task[x].parent
    ensures r.children == if x == t then [] else if x == s.init then Reversed(s.task[t].children) + s.task[x].children
            else s.task[x].children
    ensures r.state == Zombie <==> x == t || s.task[x].state == Zombie
    ensures r.state == Running <==> x != t && s.task[x].state == Running
    ensures r.state == Blocked <==>
            x != t && s.task[x].state == Blocked && !(s.task[t].parent == Some(x) && WaitsFor(s, x, s.task[t].pid))
    ensures x != t ==> r.wait == s.task[x].wait
    ensures x != t && r.state == s.task[x].state ==> r.level == s.task[x].level
    ensures x != t && r.state != s.task[x].state ==> r.state == Ready && r.level == 0
    ensures x == t ==> r.level == 5
    ensures r.code == if x == t then code else s.task[x].code
  {
    var r := Buried(s, t, code, x);
    if x != t && s.task[t].parent == Some(x) && WaitsFor(s, x, s.task[t].pid) then r.(state := Ready, level := 0) else r
  }

  /** Records once the task is buried and before its parent is woken. */
  lemma BuriedRecords<T>(s: Sys<T>, t: T, code: int)
    requires Partition(s) && t in s.task && t != s.idle && s.task[t].state != Zombie && t !in s.task[t].children
    ensures var r := Enqueue(Orphaned(s, t, code), 5, t);
            && r.task.Keys == s.task.Keys && r == s.(q := r.q, task := r.task)
            && forall x {:trigger r.task[x]} {:trigger s.task[x]} :: x in s.task ==> r.task[x] == Buried(s, t, code, x)
  {
    DetachedOk(s, t);
  }

  lemma ExitRecords<T>(s: Sys<T>, t: T, code: int)
    requires Shaped(s) && Partition(s) && t in s.task && t != s.idle && s.task[t].state != Zombie
    requires s.task[t].parent != Some(t) && s.task[t].parent != Some(s.idle) && t !in s.task[t].children
    ensures var r := ExitTask(s, t, code);
            && r.task.Keys == s.task.Keys && r == s.(q := r.q, task := r.task)
            && forall x {:trigger r.task[x]} {:trigger s.task[x]} :: x in s.task ==>
                 r.task[x] == AfterExit(s, t, code, x)
  {
    hide PartitionBut, Shaped, ExitTask, Enqueue, Orphaned, WakeParent, Buried;
    ExitOk(s, t, code);
    BuriedRecords(s, t, code);
    BuriedPartition(s, t, code);
    WakeParentRecords(Enqueue(Orphaned(s, t, code), 5, t), t);
  }

  lemma WakeParentRecords<T>(s: Sys<T>, t: T)
    requires Partition(s) && t in s.task && s.task[t].parent != Some(s.idle)
    ensures var r := WakeParent(s, t);
            && r.task.Keys == s.task.Keys && r == s.(q := r.q, task := r.task)
            && forall x {:trigger r.task[x]} {:trigger s.task[x]} :: x in s.task ==>
                 r.task[x] == if s.task[t].parent == Some(x) && WaitsFor(s, x, s.task[t].pid)
                              then s.task[x].(state := Ready, level := 0) else s.task[x]
  {
    match s.task[t].parent
    case None =>
    case Some(p) => if WaitsFor(s, p, s.task[t].pid) { UnblockOk(s, p); }
  }

  lemma BuriedPartition<T>(s: Sys<T>, t: T, code: int)
    requires Partition(s) && t in s.task && t != s.idle && s.task[t].state != Zombie
    ensures Partition(Enqueue(Orphaned(s, t, code), 5, t))
  {
    OrphanedOk(s, t, code);
    Attach(Orphaned(s, t, code), t, 5);
  }

  lemma {:induction false} ReversedMember<T>(s: seq<T>, x: T)
    ensures x in Reversed(s) <==> x in s
  {
    if s != [] {
      ReversedMember(s[1..], x);
      assert s == [s[0]] + s[1..];
    }
  }

  lemma {:induction false} ReversedNoDup<T>(s: seq<T>)
    requires NoDup(s)
    ensures NoDup(Reversed(s))
  {
    if s != [] {
      TailNoDup(s);
      ReversedNoDup(s[1..]);
      ReversedMember(s[1..], s[0]);
      AppendNoDup(Reversed(s[1..]), s[0]);
    }
  }
}
