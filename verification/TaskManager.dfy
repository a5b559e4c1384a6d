/** The task manager as the source runs it: task control blocks in memory, queues threaded through
    their `next` pointers, and handlers that edit both in place. Every operation is proved to do
    what SchedSpec says. Blocks are named by their address; address 0 is NULL. */
module TaskManager {
  import opened Options
  import opened Lists
  import opened SchedSpec
  import opened SchedInv
  import SchedLife
  import SchedRuns
  import SchedLaws

  /** The block at `list[i]` points to its successor, the last one to nothing. */
  ghost predicate LinkedAt(link: map<nat, nat>, list: seq<nat>, i: nat)
    requires i < |list|
  {
    && list[i] != 0 && list[i] in link
    && link[list[i]] == if i + 1 < |list| then list[i + 1] else 0
  }

  /** `head` starts a chain of `next` pointers through `list`. */
  ghost predicate Chain(link: map<nat, nat>, list: seq<nat>, head: nat) {
    && head == (if list == [] then 0 else list[0])
    && NoDup(list)
    && forall i :: 0 <= i < |list| ==> LinkedAt(link, list, i)
  }

  /** A write to a block outside the list leaves the chain alone. */
  lemma ChainElsewhere(link: map<nat, nat>, list: seq<nat>, head: nat, t: nat, v: nat)
    requires Chain(link, list, head) && t !in list
    ensures Chain(link[t := v], list, head)
  {
    var link' := link[t := v];
    forall i | 0 <= i < |list| ensures LinkedAt(link', list, i) { assert LinkedAt(link, list, i); }
  }

  lemma ChainAppend(link: map<nat, nat>, list: seq<nat>, head: nat, t: nat)
    requires Chain(link, list, head) && t !in list && t != 0 && list != []
    ensures Chain(link[t := 0][list[|list| - 1] := t], list + [t], head)
  {
    var link', list' := link[t := 0][list[|list| - 1] := t], list + [t];
    AppendNoDup(list, t);
    forall i | 0 <= i < |list'| ensures LinkedAt(link', list', i) {
      if i < |list| { assert LinkedAt(link, list, i); }
    }
  }

  /** Unlinking element `i`: its predecessor skips it. */
  lemma ChainRemove(link: map<nat, nat>, list: seq<nat>, head: nat, i: nat)
    requires Chain(link, list, head) && i < |list| && list[i] in link
    ensures var link1 := if i == 0 then link else link[list[i - 1] := link[list[i]]];
            Chain(link1[list[i] := 0], Remove(list, list[i]), if i == 0 then link[list[0]] else head)
  {
    var t := list[i];
    var link1 := if i == 0 then link else link[list[i - 1] := link[t]];
    var link' := link1[t := 0];
    assert LinkedAt(link, list, i);
    assert t !in list[..i];
    RemoveAt(list, i);
    RemoveNoDup(list, t);
    var r := Remove(list, t);
    assert r == list[..i] + list[i + 1..];
    forall j | 0 <= j < |r| ensures LinkedAt(link', r, j) {
      var j' := if j < i then j else j + 1;
      assert r[j] == list[j'];
      assert LinkedAt(link, list, j');
    }
  }

  /** Links outside `list` and `t` are unchanged. */
  ghost predicate KeptBut(link: map<nat, nat>, link': map<nat, nat>, list: seq<nat>, t: nat) {
    forall x {:trigger x in link} :: x in link && x !in list && x != t ==> x in link' && link'[x] == link[x]
  }

  lemma OtherChain(link: map<nat, nat>, link': map<nat, nat>, other: seq<nat>, head: nat, list: seq<nat>, t: nat)
    requires Chain(link, other, head) && KeptBut(link, link', list, t)
    requires t !in other && forall x :: x in other ==> x !in list
    ensures Chain(link', other, head)
  {
    forall i | 0 <= i < |other| ensures LinkedAt(link', other, i) { assert LinkedAt(link, other, i); }
  }

  /** While boosting: `moved` has gone from queues 1 to 3 of `s`, in order, to the end of queue 0. */
  ghost predicate BoostPart(s: Sys<nat>, r: Sys<nat>, moved: seq<nat>) {
    && |s.q| == |r.q| == 6
    && r == s.(q := r.q, task := r.task)
    && r.q[0] == s.q[0] + moved && r.q[4] == s.q[4] && r.q[5] == s.q[5]
    && moved + (r.q[1] + r.q[2] + r.q[3]) == s.q[1] + s.q[2] + s.q[3]
    && r.task == map t | t in s.task :: if t in moved then s.task[t].(level := 0) else s.task[t]
  }

  /** The head of queue `k` moved to the end of queue 0. */
  ghost function MovedUp(r: Sys<nat>, k: nat): (r': Sys<nat>)
    requires Shaped(r) && 1 <= k < 4 && r.q[k] != []
  {
    var t := r.q[k][0];
    assert t in r.q[k];
    Put(r, t, r.task[t].(level := 0)).(q := r.q[k := r.q[k][1..]][0 := r.q[0] + [t]])
  }

  lemma {:induction false} BoostOne(s: Sys<nat>, r: Sys<nat>, moved: seq<nat>, k: nat)
    requires Shaped(r) && BoostPart(s, r, moved) && 1 <= k < 4 && r.q[k] != [] && forall j :: 1 <= j < k ==>
               r.q[j] == []
    ensures BoostPart(s, MovedUp(r, k), moved + [r.q[k][0]])
  {
    var t := r.q[k][0];
    assert t in r.q[k];
    var q' := r.q[k := r.q[k][1..]][0 := r.q[0] + [t]];
    assert moved + (r.q[1] + r.q[2] + r.q[3]) == moved + [t] + (q'[1] + q'[2] + q'[3]) by {
      assert r.q[k] == [t] + r.q[k][1..];
    }
    assert (s.q[0] + moved) + [t] == s.q[0] + (moved + [t]);
  }

  lemma BoostStart(s: Sys<nat>)
    requires Shaped(s)
    ensures BoostPart(s, s, [])
  {}

  lemma BoostDone(s: Sys<nat>, r: Sys<nat>, moved: seq<nat>)
    requires Shaped(s) && BoostPart(s, r, moved) && r.q[1] == [] && r.q[2] == [] && r.q[3] == []
    ensures r.(lastBoost := s.ticks) == Boost(s)
  {
    assert moved == s.q[1] + s.q[2] + s.q[3];
    assert s.q[0] + moved == s.q[0] + s.q[1] + s.q[2] + s.q[3];
    assert r.q == Boost(s).q;
  }

  /** Boosting queues nobody who was in no queue before. */
  lemma BoostLoose(s: Sys<nat>)
    requires Shaped(s)
    ensures forall t, j {:trigger t in Boosted(s).q[j]} :: 0 <= j < 6 && t in Boosted(s).q[j] ==>
              exists k :: 0 <= k < 6 && t in s.q[k]
    ensures forall t {:trigger s.task[t]} :: t in s.task && (forall k :: 0 <= k < 6 ==> t !in s.q[k]) ==>
              Boosted(s).task[t] == s.task[t]
  {}

  // ---------------------------------------------------------------- the reparenting loop

  /** The records after the first `n` children of `t` have been handed to init. */
  ghost function ReparentedFirst<T>(s: Sys<T>, t: T, n: nat): map<T, Task<T>>
    requires Shaped(s) && t in s.task && n <= |s.task[t].children|
  {
    var kids := s.task[t].children[..n];
    map x | x in s.task ::
      var r := if x in kids then s.task[x].(parent := Some(s.init)) else s.task[x];
      if x == s.init then r.(children := Reversed(kids) + r.children) else r
  }

  lemma ReparentNone<T>(s: Sys<T>, t: T)
    requires Shaped(s) && t in s.task
    ensures s.task == ReparentedFirst(s, t, 0)
  {
    assert s.task[t].children[..0] == [];
    assert Reversed<T>([]) + s.task[s.init].children == s.task[s.init].children;
  }

  lemma {:induction false} ReversedAppend<T>(a: seq<T>, x: T)
    ensures Reversed(a + [x]) == [x] + Reversed(a)
  {
    if a == [] {
      assert a + [x] == [x];
    } else {
      assert (a + [x])[1..] == a[1..] + [x];
      ReversedAppend(a[1..], x);
    }
  }

  lemma {:induction false} ReparentOne<T>(s: Sys<T>, t: T, n: nat)
    requires Shaped(s) && t in s.task && n < |s.task[t].children| && s.task[t].children[n] in s.task
    ensures var m := ReparentedFirst(s, t, n);
            var c := s.task[t].children[n];
            var m1 := m[c := m[c].(parent := Some(s.init))];
            c in m && s.init in m1 && ReparentedFirst(s, t, n + 1) ==
                m1[s.init := m1[s.init].(children := [c] + m1[s.init].children)]
  {
    hide Reversed;
    var kids, c := s.task[t].children, s.task[t].children[n];
    assert kids[..n + 1] == kids[..n] + [c];
    ReversedAppend(kids[..n], c);
    assert [c] + (Reversed(kids[..n]) + s.task[s.init].children) == [c] + Reversed(kids[..n]) + s.task[s.init].children;
  }

  lemma ReparentAll<T>(s: Sys<T>, t: T)
    requires Shaped(s) && t in s.task && t != s.init && t !in s.task[t].children
    ensures var m := ReparentedFirst(s, t, |s.task[t].children|);
            t in m && m[t := m[t].(children := [])] == Reparent(s, t).task
  {
    assert s.task[t].children[..|s.task[t].children|] == s.task[t].children;
  }

  // ---------------------------------------------------------------- the wake-up loop

  ghost predicate Sleepers<T>(s: Sys<T>) {
    && |s.q| == 6 && NoDup(s.q[4]) && s.idle !in s.q[4]
    && forall t :: t in s.q[4] ==> t in s.task && s.task[t].state == Blocked && s.task[t].level == 4
  }

  lemma SelectStep<T>(task: map<T, Task<T>>, list: seq<T>, n: nat, w: Wait, hit: bool)
    requires n < |list|
    ensures Select(task, list[..n + 1], w, hit) ==
            if WaitsOn(task, list[n], w) == hit then Select(task, list[..n], w, hit) + [list[n]]
              else Select(task, list[..n], w, hit)
  {
    assert list[..n + 1][..n] == list[..n];
  }

  /** Passing a task that waits for something else changes nothing. */
  lemma {:induction false} WakeMiss<T>(s: Sys<T>, n: nat, w: Wait)
    requires Shaped(s) && n < |s.q[4]| && !WaitsOn(s.task, s.q[4][n], w)
    ensures WakeFirst(s, n + 1, w) == WakeFirst(s, n, w)
  {
    hide Select, Readied, WaitsOn;
    var list := s.q[4];
    SelectStep(s.task, list, n, w, true);
    SelectStep(s.task, list, n, w, false);
    var a := Select(s.task, list[..n], w, false);
    assert (a + [list[n]]) + list[n + 1..] == a + list[n..] by {
      assert list[n..] == [list[n]] + list[n + 1..];
    }
  }

  /** `Unblock` written out for a sleeper. */
  lemma UnblockFields<T>(r: Sys<T>, t: T)
    requires Shaped(r) && t in r.task && t != r.idle && r.task[t].state == Blocked && r.task[t].level == 4
    ensures Unblock(r, t) == r.(q := r.q[4 := Remove(r.q[4], t)][0 := r.q[0] + [t]],
                                task := r.task[t := r.task[t].(state := Ready, level := 0)])
  {
    assert r.task[t := r.task[t].(state := Ready)][t := r.task[t].(state := Ready, level := 0)] ==
             r.task[t := r.task[t].(state := Ready, level := 0)];
  }

  /** The selections up to `n` hold earlier elements only. */
  lemma SelectEarlier<T>(task: map<T, Task<T>>, list: seq<T>, n: nat, w: Wait, hit: bool)
    requires NoDup(list) && n < |list|
    ensures forall x :: x in Select(task, list[..n], w, hit) ==> x in list && x != list[n]
  {
    forall x | x in Select(task, list[..n], w, hit) ensures x in list && x != list[n] {
      SchedLife.SelectMember(task, list[..n], w, hit, x);
    }
  }

  /** The next sleeper is still asleep after the first `n` have been seen. */
  lemma StillAsleep<T>(s: Sys<T>, n: nat, w: Wait)
    requires Shaped(s) && Sleepers(s) && n < |s.q[4]|
    ensures var r, t := WakeFirst(s, n, w), s.q[4][n];
            Shaped(r) && t in r.task && r.task[t] == s.task[t] && t != r.idle && r.task[t].state == Blocked
              && r.task[t].level == 4
  {
    var list := s.q[4];
    assert list[n] in list;
    SelectEarlier(s.task, list, n, w, true);
    SelectEarlier(s.task, list, n, w, false);
    WakeShaped(s, WakeFirst(s, n, w), n);
  }

  lemma WakeStart<T>(s: Sys<T>, w: Wait)
    requires Shaped(s)
    ensures WakeFirst(s, 0, w) == s
  {
    assert s.q[4][..0] == [] && s.q[4][0..] == s.q[4];
    assert Select(s.task, [], w, true) == [] && Select(s.task, [], w, false) == [];
    assert Readied(s.task, []) == s.task;
    assert s.q[0] + [] == s.q[0] && [] + s.q[4] == s.q[4];
  }

  lemma ReadiedStep<T>(task: map<T, Task<T>>, woken: seq<T>, t: T)
    requires t in task
    ensures Readied(task, woken)[t := task[t].(state := Ready, level := 0)] == Readied(task, woken + [t])
  {}

  /** Unblocking the next waiting task is one more step of the wake-up. */
  lemma WakeHit<T>(s: Sys<T>, n: nat, w: Wait)
    requires Shaped(s) && Sleepers(s) && n < |s.q[4]| && WaitsOn(s.task, s.q[4][n], w)
    ensures Shaped(WakeFirst(s, n, w)) && Unblock(WakeFirst(s, n, w), s.q[4][n]) == WakeFirst(s, n + 1, w)
  {
    hide Shaped, Unblock, Readied, Select;
    var list, t := s.q[4], s.q[4][n];
    StillAsleep(s, n, w);
    UnblockFields(WakeFirst(s, n, w), t);
    var a, b := Select(s.task, list[..n], w, false), Select(s.task, list[..n], w, true);
    SelectEarlier(s.task, list, n, w, false);
    SelectStep(s.task, list, n, w, true);
    SelectStep(s.task, list, n, w, false);
    ReadiedStep(s.task, b, t);
    assert a + list[n..] == a + [t] + list[n + 1..] by { assert list[n..] == [t] + list[n + 1..]; }
    RemoveMiddle(a, t, list[n + 1..]);
    assert s.q[0] + b + [t] == s.q[0] + (b + [t]);
  }

  lemma WakeShaped<T>(s: Sys<T>, r: Sys<T>, n: nat)
    requires Shaped(s) && r == s.(q := r.q, task := r.task) && |r.q| == 6 && r.task.Keys == s.task.Keys
    requires forall x :: x in r.q[0] || x in r.q[4] ==> x in s.task
    requires forall k :: 0 <= k < 6 && k != 0 && k != 4 ==> r.q[k] == s.q[k]
    requires forall x :: x in s.task ==> r.task[x].level == s.task[x].level || r.task[x].level == 0
    ensures Shaped(r)
  {}

  lemma RemoveMiddle<T>(a: seq<T>, t: T, b: seq<T>)
    requires t !in a
    ensures Remove(a + [t] + b, t) == a + b
  {
    var s := a + [t] + b;
    assert s[|a|] == t && s[..|a|] == a;
    RemoveAt(s, |a|);
    assert s[|a| + 1..] == b;
  }

  lemma ShapedClock(s: Sys<nat>, ticks: nat)
    requires Shaped(s)
    ensures Shaped(s.(ticks := ticks))
  {}

  lemma ShapedKeys(s: Sys<nat>, keys: seq<int>)
    requires Shaped(s)
    ensures Shaped(s.(keys := keys))
  {}

  lemma DestroyedNext(s: Sys<nat>, c: nat)
    requires Shaped(s) && c in s.task && !s.switching
    ensures !Destroy(s, c).switching && Destroy(s, c).task.Keys == s.task.Keys - {c}
  {}

  /** Yielding is possible, keeps the keys and the tasks, and a switch it requests names a task. */
  lemma YieldNext(s: Sys<nat>)
    requires Shaped(s) && !s.switching
    ensures var r := Yield(s);
            (r.switching ==> r.next in r.task) && r.keys == s.keys && r.task.Keys == s.task.Keys
  {
    ScheduledNext(Put(s, s.current, s.task[s.current].(yielding := true)));
  }

  /** After an exit the current task, if it still runs, and idle are in no queue. */
  lemma ExitedCurrent(s: Sys<nat>, t: nat, code: int)
    requires Shaped(s) && SchedRuns.Inv(s) && SchedRuns.Killable(s, t)
    ensures var r := SchedSpec.ExitTask(s, t, code);
            && !r.switching && r.current == s.current && r.idle == s.idle && |r.q| == 6
            && (forall j {:trigger r.q[j]} :: 0 <= j < 6 ==> r.idle !in r.q[j])
            && (r.task[r.current].state == Running ==> forall j {:trigger r.q[j]} :: 0 <= j < 6 ==>
                   r.current !in r.q[j])
  {
    SchedRuns.ExitKeeps(s, t, code);
  }

  /** A task that went to sleep is not running, and idle is still in no queue. */
  lemma SleepLoose(s: Sys<nat>, w: Wait)
    requires Shaped(s) && SchedRuns.Inv(s) && s.current != s.idle
    ensures var r := Block(s, s.current, w);
            && !r.switching && r.current == s.current && r.idle == s.idle && r.keys == s.keys && |r.q| == 6
            && r.task.Keys == s.task.Keys && r.task[r.current].state != Running
               && (forall j {:trigger r.q[j]} :: 0 <= j < 6 ==> r.idle !in r.q[j])
  {
    SchedLife.BlockOk(s, s.current, w);
  }

  /** A switch requested by `schedule` names a task. */
  lemma ScheduledNext(s: Sys<nat>)
    requires Shaped(s) && !s.switching
    ensures var r := SchedSpec.Schedule(s);
            (r.switching ==> r.next in r.task) && r.keys == s.keys && r.task.Keys == s.task.Keys
  {
    hide Boosted, Charged, SteppedDown, Dispatched, Shaped;
    BoostedTasks(s);
    var s1 := Charged(Boosted(s));
    if Expired(s1) { DispatchedTasks(s1); }
  }

  lemma BoostedTasks(s: Sys<nat>)
    requires Shaped(s)
    ensures var r := Charged(Boosted(s)); r.task.Keys == s.task.Keys && r.keys == s.keys && r.switching == s.switching
  {}

  lemma DispatchedTasks(s: Sys<nat>)
    requires Shaped(s) && !s.switching
    ensures var r := Dispatched(SteppedDown(s)); r.task.Keys == s.task.Keys && r.keys == s.keys
    ensures var r := Dispatched(SteppedDown(s)); r.switching ==> r.next in r.task
  {}

  /** What waitpid answers: a child's pid and status, that there is no such child, or nothing yet. */
  datatype Answer = Reaped(pid: int, status: int) | NoChild | Asleep

  class Manager {
    var mem: map<nat, Task<nat>>
    var link: map<nat, nat>
    var heads: seq<nat>
    var current: nat
    var next: nat
    var switching: bool
    var idle: nat
    var init: nat
    var nextPid: int
    var ticks: nat
    var lastBoost: nat
    var keys: seq<int>
    ghost var q: seq<seq<nat>>

    /** The state after boot and the first switch: `i` idles and `n` is init. */
    constructor (i: nat, n: nat)
      requires i != n && i != 0 && n != 0
      ensures Valid() && Abs() == SchedRuns.Boot(i, n)
    {
      mem := map[i := Task(0, Running, 0, 5, false, NoWait, None, [], 0),
          n := Task(1, Ready, 0, 5, false, NoWait, None, [], 0)];
      link := map[i := 0, n := 0];
      heads := [n, 0, 0, 0, 0, 0];
      current, next, switching, idle, init := i, i, false, i, n;
      nextPid, ticks, lastBoost, keys := 2, 0, 0, [];
      q := [[n], [], [], [], [], []];
    }

    /** The state the specification speaks about. */
    ghost function Abs(): Sys<nat>
      reads this
    {
      Sys(q, mem, current, next, switching, idle, init, nextPid, ticks, lastBoost, keys)
    }

    /** The heads and links in memory spell out the queues. */
    ghost predicate Valid()
      reads this
    {
      && Shaped(Abs()) && |heads| == 6 && 0 !in mem
      && (forall k, t {:trigger t in q[k]} :: 0 <= k < 6 && t in q[k] ==> mem[t].level == k)
      && (forall k {:trigger Chain(link, q[k], heads[k])} :: 0 <= k < 6 ==> Chain(link, q[k], heads[k]))
    }

    /** `t` is in no queue. */
    ghost predicate Loose(t: nat)
      reads this
    {
      |q| == 6 && forall j {:trigger q[j]} :: 0 <= j < 6 ==> t !in q[j]
    }

    /** Walks to the end of queue `k` and links `t` there. */
    method Append(k: nat, t: nat)
      requires |q| == |heads| == 6 && k < 6 && Chain(link, q[k], heads[k]) && t != 0 && t !in q[k]
      modifies this`link, this`heads
      ensures |heads| == 6 && Chain(link, q[k] + [t], heads[k]) && heads == old(heads)[k := heads[k]]
      ensures KeptBut(old(link), link, q[k], t)
    {
      ghost var link0 := link;
      link := link[t := 0];
      ChainElsewhere(link0, q[k], heads[k], t, 0);
      assert q[k] != [] ==> LinkedAt(link, q[k], 0);
      if heads[k] == 0 {
        heads := heads[k := t];
        assert q[k] + [t] == [t];
        return;
      }
      var last := heads[k];
      ghost var i := 0;
      while link[last] != 0
        invariant 0 <= i < |q[k]| && last == q[k][i] && last in link && link == link0[t := 0] && heads == old(heads)
        decreases |q[k]| - i
      {
        assert LinkedAt(link, q[k], i);
        last := link[last];
        i := i + 1;
        assert LinkedAt(link, q[k], i);
      }
      assert LinkedAt(link, q[k], i);
      assert i + 1 < |q[k]| ==> LinkedAt(link, q[k], i + 1);
      ChainAppend(link0, q[k], heads[k], t);
      link := link[last := t];
    }

    /** Overwrites fields of the block at `t`; the level of a queued task stays. */
    method Write(t: nat, r: Task<nat>)
      requires Valid() && t in mem && r.level < 6 && (r.level == mem[t].level || Loose(t))
      modifies this`mem
      ensures Valid() && Abs() == Put(old(Abs()), t, r)
    {
      mem := mem[t := r];
    }

    /** `task_manager_enqueue_task`. */
    method Enqueue(k: nat, t: nat)
      requires Valid() && k < 6 && t in mem && Loose(t)
      modifies this`mem, this`link, this`heads, this`q
      ensures Valid() && Abs() == SchedSpec.Enqueue(old(Abs()), k, t)
    {
      if t == idle { return; }
      ghost var link0, heads0 := link, heads;
      assert Chain(link, q[k], heads[k]);
      Append(k, t);
      mem := mem[t := mem[t].(level := k)];
      forall j | 0 <= j < 6 && j != k ensures Chain(link, q[j], heads[j]) {
        assert Chain(link0, q[j], heads0[j]);
        OtherChain(link0, link, q[j], heads[j], q[k], t);
      }
      q := q[k := q[k] + [t]];
    }

    /** `task_manager_dequeue_task`: the head of queue `k`, NULL if it is empty. */
    method Dequeue(k: nat) returns (t: nat)
      requires Valid() && k < 6
      modifies this`link, this`heads, this`q
      ensures Valid()
      ensures if old(q[k]) == [] then t == 0 && Abs() == old(Abs())
              else t == old(q[k][0]) && t != 0 && Abs() == old(Abs()).(q := old(q)[k := old(q[k])[1..]])
                   && t in link && link[t] == 0
    {
      assert Chain(link, q[k], heads[k]);
      assert q[k] != [] ==> LinkedAt(link, q[k], 0);
      if heads[k] == 0 { return 0; }
      t := heads[k];
      ghost var link0, heads0 := link, heads;
      heads := heads[k := link[t]];
      link := link[t := 0];
      ChainRemove(link0, q[k], heads0[k], 0);
      assert Remove(q[k], t) == q[k][1..];
      RemoveSubset(q[k], t);
      Unlinked(link0, heads0, k, t);
      q := q[k := q[k][1..]];
    }

    /** The other five queues are untouched when links of queue `k` change. */
    lemma Unlinked(link0: map<nat, nat>, heads0: seq<nat>, k: nat, t: nat)
      requires Shaped(Abs()) && |heads| == |heads0| == 6 && k < 6 && t in q[k]
      requires forall j, x {:trigger x in q[j]} :: 0 <= j < 6 && x in q[j] ==> mem[x].level == j
      requires forall j :: 0 <= j < 6 ==> Chain(link0, q[j], heads0[j])
      requires heads == heads0[k := heads[k]] && KeptBut(link0, link, q[k], t)
      ensures forall j :: 0 <= j < 6 && j != k ==> Chain(link, q[j], heads[j])
    {
      forall j | 0 <= j < 6 && j != k ensures Chain(link, q[j], heads[j]) {
        assert Chain(link0, q[j], heads0[j]);
        OtherChain(link0, link, q[j], heads[j], q[k], t);
      }
    }

    /** `task_manager_remove_task_from_queue`: unlinks `t` from queue `k` if it is there. */
    method RemoveFromQueue(k: nat, t: nat) returns (found: bool)
      requires Valid() && k < 6 && t != 0
      modifies this`link, this`heads, this`q
      ensures Valid() && found == (t in old(q[k])) && Abs() == Unqueue(old(Abs()), k, t)
      ensures found ==> t in link && link[t] == 0
    {
      assert Chain(link, q[k], heads[k]);
      assert q[k] != [] ==> LinkedAt(link, q[k], 0);
      if heads[k] == 0 { return false; }
      ghost var link0, heads0 := link, heads;
      if heads[k] == t {
        heads := heads[k := link[t]];
        link := link[t := 0];
        ChainRemove(link0, q[k], heads0[k], 0);
        Unlinked(link0, heads0, k, t);
        RemoveSubset(q[k], t);
        q := q[k := Remove(q[k], t)];
        return true;
      }
      var head := heads[k];
      ghost var i := 0;
      while link[head] != 0
        invariant 0 <= i < |q[k]| && head == q[k][i] && head in link && t !in q[k][..i + 1]
        invariant link == link0 && heads == heads0 && q == old(q)
        decreases |q[k]| - i
      {
        assert LinkedAt(link, q[k], i);
        assert LinkedAt(link, q[k], i + 1);
        if link[head] == t {
          link := link[head := link[t]];
          link := link[t := 0];
          ChainRemove(link0, q[k], heads0[k], i + 1);
          assert q[k][i + 1] in q[k] && q[k][i] in q[k];
          Unlinked(link0, heads0, k, t);
          RemoveSubset(q[k], t);
          q := q[k := Remove(q[k], t)];
          return true;
        }
        head := link[head];
        i := i + 1;
      }
      assert LinkedAt(link, q[k], i);
      assert i + 1 < |q[k]| ==> LinkedAt(link, q[k], i + 1);
      assert q[k][..i + 1] == q[k];
      return false;
    }

    /** `task_manager_requeue_task` for a task that used up its slice. */
    method Requeue(t: nat)
      requires Valid() && t in mem && Loose(t)
      modifies this`mem, this`link, this`heads, this`q
      ensures Valid() && Abs() == SchedSpec.Requeue(old(Abs()), t)
    {
      hide SchedSpec.Enqueue;
      if t == idle { return; }
      var level := mem[t].level;
      if level < 3 { level := level + 1; }
      Write(t, mem[t].(state := Ready));
      Enqueue(level, t);
    }

    /** `task_manager_pick_task`: the test on the state is true of every state. */
    method PickTask() returns (t: nat)
      requires Valid()
      modifies this`mem, this`link, this`heads, this`q
      ensures Valid() && t == Picked(old(Abs())) && t in mem && Abs() == Pick(old(Abs()))
      ensures TopLevel(old(q)) < 4 ==> t in link && link[t] == 0
    {
      for k := 0 to 4
        invariant Valid() && Abs() == old(Abs()) && forall j :: 0 <= j < k ==> q[j] == []
      {
        assert Chain(link, q[k], heads[k]);
        assert q[k] != [] ==> LinkedAt(link, q[k], 0);
        if heads[k] != 0 {
          t := Dequeue(k);
          assert t in old(q[k]);
          if mem[t].state != Ready || mem[t].state != Running {
            Write(t, mem[t].(slice := TimeSlice(k)));
            return;
          }
        }
      }
      t := idle;
      Write(t, mem[t].(slice := TimeSlice(0)));
    }

    lemma Heads(k: nat)
      requires Valid() && k < 6
      ensures NoDup(q[k]) && (heads[k] == 0 <==> q[k] == [])
    {
      assert Chain(link, q[k], heads[k]);
      assert q[k] != [] ==> LinkedAt(link, q[k], 0);
    }

    /** One round of the boost loop. */
    method MoveUp(k: nat)
      requires Valid() && Loose(idle) && 1 <= k < 4 && q[k] != []
      modifies this`mem, this`link, this`heads, this`q
      ensures Valid() && Loose(idle) && Abs() == MovedUp(old(Abs()), k) && |q| == |heads| == 6
    {
      hide Chain;
      ghost var before := Abs();
      assert q[k][0] in q[k];
      Heads(k);
      TailNoDup(q[k]);
      var t := Dequeue(k);
      Write(t, mem[t].(level := 0));
      Enqueue(0, t);
      assert mem == MovedUp(before, k).task;
    }

    /** `task_manager_boost_priority_of_all_tasks`: drains queues 1 to 3 into queue 0. */
    method BoostAll()
      requires Valid() && Loose(idle)
      modifies this`mem, this`link, this`heads, this`q, this`lastBoost
      ensures Valid() && Abs() == Boost(old(Abs()))
    {
      hide Chain, Boost, BoostPart, Shaped;
      ghost var s, moved := Abs(), [];
      BoostStart(s);
      for k := 1 to 4
        invariant Valid() && Loose(idle) && BoostPart(s, Abs(), moved)
        invariant forall j :: 1 <= j < k ==> q[j] == []
      {
        while heads[k] != 0
          invariant Valid() && Loose(idle) && BoostPart(s, Abs(), moved)
          invariant forall j :: 1 <= j < k ==> q[j] == []
          decreases |q[k]|
        {
          Heads(k);
          BoostOne(s, Abs(), moved, k);
          moved := moved + [q[k][0]];
          MoveUp(k);
        }
        Heads(k);
      }
      BoostDone(s, Abs(), moved);
      lastBoost := ticks;
    }

    /** The boost at the start of `schedule`. */
    method BoostIfDue()
      requires Valid() && Loose(idle)
      modifies this`mem, this`link, this`heads, this`q, this`lastBoost
      ensures Valid() && Abs() == Boosted(old(Abs()))
      ensures old(Loose(current)) ==> Loose(current)
      ensures mem[current].state == old(mem[current].state)
    {
      if ticks - lastBoost >= 5000 { BoostAll(); }
      BoostLoose(old(Abs()));
    }

    /** The current task gives up the processor. */
    method StepDown()
      requires Valid() && (mem[current].state == Running ==> Loose(current))
      modifies this`mem, this`link, this`heads, this`q
      ensures Valid() && Abs() == SteppedDown(old(Abs()))
    {
      Write(current, mem[current].(yielding := false));
      var oldTask := current;
      if oldTask != idle && mem[oldTask].state == Running { Requeue(oldTask); }
    }

    /** The next task gets it. */
    method DispatchNext()
      requires Valid()
      modifies this`mem, this`link, this`heads, this`q, this`next, this`switching
      ensures Valid() && Abs() == Dispatched(old(Abs()))
    {
      hide Pick;
      var oldTask := current;
      var newTask := PickTask();
      Write(newTask, mem[newTask].(state := Running));
      if newTask != oldTask {
        next := newTask;
        switching := true;
      } else {
        Write(newTask, mem[newTask].(slice := TimeSlice(mem[newTask].level)));
      }
    }

    /** `task_manager_schedule`. */
    method Schedule()
      requires Valid() && Loose(idle) && (mem[current].state == Running ==> Loose(current))
      modifies this
      ensures Valid() && Abs() == SchedSpec.Schedule(old(Abs()))
    {
      hide Boosted, SteppedDown, Dispatched;
      BoostIfDue();
      Write(current, mem[current].(slice := Decrement(mem[current].slice)));
      if mem[current].slice == 0 || mem[current].yielding {
        StepDown();
        DispatchNext();
      }
    }

    /** `task_manager_yield_current`. */
    method YieldCurrent()
      requires Valid() && Loose(idle) && (mem[current].state == Running ==> Loose(current))
      modifies this
      ensures Valid() && Abs() == Yield(old(Abs()))
    {
      Write(current, mem[current].(yielding := true));
      Schedule();
    }

    /** The interrupt exit path. */
    method SwitchTask()
      requires Valid() && (switching ==> next in mem)
      modifies this`current, this`switching
      ensures Valid() && Abs() == Switch(old(Abs()))
    {
      if switching {
        switching := false;
        current := next;
      }
    }

    /** `task_manager_block_task`. */
    method BlockTask(t: nat, w: Wait)
      requires Valid() && t in mem
      modifies this`mem, this`link, this`heads, this`q
      ensures Valid() && Abs() == Block(old(Abs()), t, w)
    {
      if mem[t].state == Blocked { return; }
      var level := mem[t].level;
      Write(t, mem[t].(state := Blocked, wait := w));
      Heads(level);
      RemovedIsLoose(level, t);
      var _ := RemoveFromQueue(level, t);
      Enqueue(4, t);
    }

    /** `task_manager_unblock_task`. */
    method UnblockTask(t: nat)
      requires Valid() && t in mem
      modifies this`mem, this`link, this`heads, this`q
      ensures Valid() && Abs() == Unblock(old(Abs()), t)
    {
      if mem[t].state != Blocked { return; }
      var level := mem[t].level;
      Write(t, mem[t].(state := Ready));
      Heads(level);
      RemovedIsLoose(level, t);
      var _ := RemoveFromQueue(level, t);
      Enqueue(0, t);
    }

    /** A task can only be in the queue of its level, and there only once. */
    lemma RemovedIsLoose(k: nat, t: nat)
      requires Valid() && k < 6 && t in mem && mem[t].level == k && NoDup(q[k])
      ensures forall j {:trigger q[j]} :: 0 <= j < 6 ==> t !in (if j == k then Remove(q[k], t) else q[j])
    {
      RemoveMember(q[k], t, t);
    }

    /** `task_manager_wake_blocked_on`: reads the successor before the task at hand leaves the list. */
    method WakeBlockedOn(w: Wait)
      requires Valid() && Sleepers(Abs())
      modifies this`mem, this`link, this`heads, this`q
      ensures Valid() && Abs() == Wake(old(Abs()), w)
    {
      hide WakeFirst, Shaped, Unblock, Select;
      ghost var s, n := Abs(), 0;
      var head := heads[4];
      WakeStart(s, w);
      FirstSleeper();
      while head != 0
        invariant Valid() && n <= |s.q[4]| && Shaped(s) && 0 !in s.task && Abs() == WakeFirst(s, n, w)
        invariant head == (if n < |s.q[4]| then s.q[4][n] else 0)
        decreases |s.q[4]| - n
      {
        NextSleeper(s, n, w);
        var following := link[head];
        if mem[head].wait == w {
          WakeHit(s, n, w);
          UnblockTask(head);
        } else {
          WakeMiss(s, n, w);
        }
        head := following;
        n := n + 1;
      }
      NoMoreSleepers(s, n);
    }

    lemma FirstSleeper()
      requires Valid() && Sleepers(Abs())
      ensures heads[4] == if 0 < |q[4]| then q[4][0] else 0
    {
      assert Chain(link, q[4], heads[4]);
    }

    /** The task at hand is still where the list walk expects it, and so is its successor. */
    lemma NextSleeper(s: Sys<nat>, n: nat, w: Wait)
      requires Valid() && Shaped(s) && Sleepers(s) && n < |s.q[4]| && Abs() == WakeFirst(s, n, w)
      ensures var t := s.q[4][n];
              && t in mem && t in link && mem[t] == s.task[t]
              && link[t] == if n + 1 < |s.q[4]| then s.q[4][n + 1] else 0
    {
      StillAsleep(s, n, w);
      var list := s.q[4];
      var a := Select(s.task, list[..n], w, false);
      assert q[4] == a + list[n..];
      assert Chain(link, q[4], heads[4]);
      assert LinkedAt(link, q[4], |a|);
      assert q[4][|a|] == list[n];
      if n + 1 < |list| { assert q[4][|a| + 1] == list[n + 1]; }
    }

    lemma NoMoreSleepers(s: Sys<nat>, n: nat)
      requires Sleepers(s) && 0 !in s.task && n <= |s.q[4]| && 0 == (if n < |s.q[4]| then s.q[4][n] else 0)
      ensures n == |s.q[4]|
    {
      assert forall i :: 0 <= i < |s.q[4]| ==> s.q[4][i] in s.q[4];
    }

    /** `task_manager_exit_task`. */
    method ExitTask(t: nat, code: int)
      requires Valid() && t in mem && t != init && mem[t].state != Zombie && t !in mem[t].children
               && mem[t].parent != Some(t)
      requires (mem[t].state == Blocked ==> mem[t].level == 4) && (mem[t].state == Running ==> Loose(t))
      requires forall c :: c in mem[t].children ==> c in mem
      modifies this`mem, this`link, this`heads, this`q
      ensures Valid() && Abs() == SchedSpec.ExitTask(old(Abs()), t, code)
    {
      DetachTask(t);
      Write(t, mem[t].(state := Zombie, code := code));
      ReparentChildren(t);
      WakeParentOf(t);
      Enqueue(5, t);
    }

    method DetachTask(t: nat)
      requires Valid() && t in mem && mem[t].state != Zombie
      requires (mem[t].state == Blocked ==> mem[t].level == 4) && (mem[t].state == Running ==> Loose(t))
      modifies this`link, this`heads, this`q
      ensures Valid() && Abs() == Detached(old(Abs()), t) && Loose(t)
    {
      Heads(mem[t].level);
      RemovedIsLoose(mem[t].level, t);
      if mem[t].state == Ready {
        var _ := RemoveFromQueue(mem[t].level, t);
      } else if mem[t].state == Blocked {
        var _ := RemoveFromQueue(4, t);
      }
    }

    /** Pushes the children of `t`, one by one, to the front of init's list. */
    method ReparentChildren(t: nat)
      requires Valid() && t in mem && t != init && t !in mem[t].children && Loose(t)
      requires forall c :: c in mem[t].children ==> c in mem
      modifies this`mem
      ensures Valid() && Abs() == Reparent(old(Abs()), t) && Loose(t)
    {
      ghost var s := Abs();
      var kids := mem[t].children;
      var i := 0;
      ReparentNone(s, t);
      while i < |kids|
        invariant 0 <= i <= |kids| && Valid() && Loose(t) && kids == s.task[t].children
        invariant Abs() == s.(task := ReparentedFirst(s, t, i))
      {
        var child := kids[i];
        ReparentOne(s, t, i);
        Write(child, mem[child].(parent := Some(init)));
        Write(init, mem[init].(children := [child] + mem[init].children));
        i := i + 1;
      }
      Write(t, mem[t].(children := []));
      ReparentAll(s, t);
    }

    method WakeParentOf(t: nat)
      requires Valid() && t in mem && Loose(t) && mem[t].parent != Some(t)
      modifies this`mem, this`link, this`heads, this`q
      ensures Valid() && Abs() == WakeParent(old(Abs()), t) && Loose(t)
    {
      match mem[t].parent {
        case None =>
        case Some(p) =>
          if p in mem && mem[p].state == Blocked
            && (mem[p].wait == ForChild(mem[t].pid) || mem[p].wait == ForChild(-1)) {
            UnblockLoose(p, t);
            UnblockTask(p);
          }
      }
    }

    lemma UnblockLoose(p: nat, t: nat)
      requires Valid() && p in mem && t in mem && p != t && Loose(t)
      ensures forall j {:trigger Unblock(Abs(), p).q[j]} :: 0 <= j < 6 ==> t !in Unblock(Abs(), p).q[j]
    {
      RemoveSubset(q[mem[p].level], p);
    }

    /** `fork` with `child` as the address of the new block. */
    method ForkTask(child: nat)
      requires Valid() && child !in mem && child != 0
      modifies this`mem, this`link, this`heads, this`q, this`nextPid
      ensures Valid() && Abs() == Forked(old(Abs()), child)
    {
      mem := mem[child := Task(nextPid, Ready, 0, 5, false, NoWait, Some(current), [], 0)];
      nextPid := nextPid + 1;
      Enqueue(0, child);
      Write(current, mem[current].(children := mem[current].children + [child]));
    }

    /** `task_manager_find_child`. */
    method FindChildOf(parent: nat, pid: int) returns (r: Option<nat>)
      requires parent in mem && forall c :: c in mem[parent].children ==> c in mem
      ensures r == FindChild(Abs(), mem[parent].children, pid)
    {
      var kids := mem[parent].children;
      var i := 0;
      while i < |kids|
        invariant 0 <= i <= |kids|
        invariant FindChild(Abs(), kids, pid) == FindChild(Abs(), kids[i..], pid)
      {
        if mem[kids[i]].pid == pid { return Some(kids[i]); }
        i := i + 1;
      }
      return None;
    }

    /** `task_manager_find_zombie_child`. */
    method FindZombieOf(parent: nat) returns (r: Option<nat>)
      requires parent in mem && forall c :: c in mem[parent].children ==> c in mem
      ensures r == FindZombie(Abs(), mem[parent].children)
    {
      var kids := mem[parent].children;
      var i := 0;
      while i < |kids|
        invariant 0 <= i <= |kids|
        invariant FindZombie(Abs(), kids) == FindZombie(Abs(), kids[i..])
      {
        if mem[kids[i]].state == Zombie { return Some(kids[i]); }
        i := i + 1;
      }
      return None;
    }

    /** `task_manager_destroy_task`: off the parent's list, out of the zombie queue, and freed. */
    method DestroyTask(c: nat)
      requires Valid() && c in mem && c != current && c != idle && c != init && mem[c].parent != Some(c)
      modifies this`mem, this`link, this`heads, this`q
      ensures Valid() && Abs() == Destroy(old(Abs()), c)
    {
      match mem[c].parent {
        case None =>
        case Some(p) => if p in mem { Write(p, mem[p].(children := Remove(mem[p].children, c))); }
      }
      Heads(mem[c].level);
      RemovedIsLoose(mem[c].level, c);
      var _ := RemoveFromQueue(mem[c].level, c);
      FreeBlock(c);
    }

    /** Gives the block of an unqueued task back. */
    method FreeBlock(c: nat)
      requires Valid() && Loose(c) && c != current && c != idle && c != init
      modifies this`mem
      ensures Valid() && Abs() == old(Abs()).(task := old(mem) - {c})
    {
      mem := mem - {c};
    }

    /** The reap half of `waitpid`: the child to reap now, if any. */
    method FindReapable(pid: int) returns (r: Option<nat>)
      requires Valid() && forall c :: c in mem[current].children ==> c in mem
      ensures r == Reapable(Abs(), pid)
    {
      if pid == -1 {
        r := FindZombieOf(current);
      } else {
        r := FindChildOf(current, pid);
        if r.Some? && mem[r.value].state != Zombie { r := None; }
      }
    }

    // ---------------------------------------------------------------- handlers

    /** Between handlers the running task and idle are in no queue, and sleepers are asleep. */
    lemma AtRest()
      requires Valid() && SchedRuns.Inv(Abs())
      ensures Loose(idle) && Loose(current) && Sleepers(Abs()) && !switching && current in mem
      ensures forall c :: c in mem[current].children ==> c in mem
      ensures 1 <= mem[current].slice <= 32 && mem[current].state == Running && |keys| <= 256
    {
      assert SchedRuns.Kin(Abs(), current);
    }

    /** The timer interrupt. */
    method TimerTick()
      requires Valid() && SchedRuns.Inv(Abs())
      modifies this
      ensures Valid() && Abs() == SchedRuns.Handle(old(Abs()), SchedRuns.Tick) && SchedRuns.Inv(Abs())
    {
      hide SchedRuns.Inv, Shaped, SchedSpec.Schedule;
      AtRest();
      SchedRuns.StepKeeps(Abs(), SchedRuns.Tick);
      ticks := ticks + 1;
      ShapedClock(old(Abs()), ticks);
      ScheduledNext(Abs());
      Schedule();
      SwitchTask();
    }

    /** The keyboard interrupt, after the scancode has been read. */
    method KeyboardInterrupt(scancode: int)
      requires Valid() && SchedRuns.Inv(Abs())
      modifies this
      ensures Valid() && Abs() == SchedRuns.Handle(old(Abs()), SchedRuns.Key(scancode)) && SchedRuns.Inv(Abs())
      ensures keys == if old(|keys|) < 256 then old(keys) + [scancode] else old(keys)
    {
      hide SchedRuns.Inv, Shaped, Wake;
      AtRest();
      SchedRuns.StepKeeps(Abs(), SchedRuns.Key(scancode));
      if |keys| != 256 { keys := keys + [scancode]; }
      ShapedKeys(old(Abs()), keys);
      WakeBlockedOn(ForKeyboard);
    }

    /** `fork`; the caller gets the pid of the child. */
    method SysFork(child: nat) returns (pid: int)
      requires Valid() && SchedRuns.Inv(Abs()) && SchedRuns.Enabled(Abs(), SchedRuns.Fork(child)) && child != 0
      modifies this
      ensures Valid() && Abs() == SchedRuns.Handle(old(Abs()), SchedRuns.Fork(child)) && SchedRuns.Inv(Abs())
      ensures pid == old(nextPid) && child in mem && mem[child].pid == pid
    {
      SchedRuns.StepKeeps(Abs(), SchedRuns.Fork(child));
      pid := nextPid;
      ForkTask(child);
    }

    /** Exit by system call or by a fatal signal; `t` may be the current task. */
    method Terminate(t: nat, code: int)
      requires Valid() && SchedRuns.Inv(Abs()) && SchedRuns.Killable(Abs(), t)
      modifies this
      ensures Valid() && Abs() == SchedRuns.Terminate(old(Abs()), t, code) && SchedRuns.Inv(Abs())
    {
      hide SchedRuns.Inv, Shaped, SchedSpec.ExitTask, Yield;
      AtRest();
      SchedRuns.TerminateKeeps(Abs(), t, code);
      ExitReady(t);
      ExitedCurrent(Abs(), t, code);
      ExitTask(t, code);
      if t == current {
        YieldNext(Abs());
        YieldCurrent();
        SwitchTask();
      }
    }

    lemma ExitReady(t: nat)
      requires Valid() && SchedRuns.Inv(Abs()) && SchedRuns.Killable(Abs(), t)
      ensures t !in mem[t].children && mem[t].parent != Some(t) && forall c :: c in mem[t].children ==> c in mem
      ensures (mem[t].state == Blocked ==> mem[t].level == 4) && (mem[t].state == Running ==> Loose(t))
    {
      SchedRuns.Distinct(Abs(), t);
      assert SchedRuns.Kin(Abs(), t);
      assert Located(Abs(), t);
    }

    /** `kill` with a handler installed: the target is woken whatever it waits for, and terminated if
        the handler frame does not fit on its stack. */
    method DeliverSignal(t: nat, sig: int, fits: bool)
      requires Valid() && SchedRuns.Inv(Abs()) && SchedRuns.Reachable(Abs(), t) && (!fits ==> t != init)
      modifies this
      ensures Valid() && Abs() == SchedRuns.Handle(old(Abs()), SchedRuns.Deliver(t, sig, fits)) && SchedRuns.Inv(Abs())
    {
      hide SchedRuns.Inv, Shaped, Unblock, SchedRuns.Terminate;
      SchedRuns.DeliverKeeps(Abs(), t);
      UnblockTask(t);
      if !fits { Terminate(t, SchedRuns.Signaled(sig)); }
    }

    /** `waitpid`: reaps a zombie, fails for a stranger, or sleeps. */
    method SysWaitPid(pid: int) returns (r: Answer)
      requires Valid() && SchedRuns.Inv(Abs()) && current != idle
      modifies this
      ensures Valid() && Abs() == SchedRuns.Handle(old(Abs()), SchedRuns.WaitFor(pid)) && SchedRuns.Inv(Abs())
      ensures old(current in mem)
      ensures r.Reaped? <==> exists c :: c in old(mem) && SchedLaws.Reaps(old(mem), old(current), pid, c)
      ensures r.Reaped? ==>
                exists c :: c in old(mem) && SchedLaws.Reaps(old(mem), old(current), pid, c)
                            && r == Reaped(old(mem)[c].pid, old(mem)[c].code) && mem.Keys == old(mem.Keys) - {c}
      ensures !r.Reaped? ==> mem.Keys == old(mem.Keys)
      ensures r.NoChild? <==>
              pid != -1 && forall c :: c in old(mem[current].children) && c in old(mem) ==> old(mem)[c].pid != pid
      ensures r.NoChild? ==> Abs() == old(Abs())
    {
      hide SchedRuns.Inv, Shaped, Block, Yield, Destroy, Reapable, FindChild, SchedLaws.Reaps;
      AtRest();
      SchedRuns.StepKeeps(Abs(), SchedRuns.WaitFor(pid));
      SchedLaws.ReapableExact(Abs(), pid);
      ReapedIsChild(pid);
      var child := FindReapable(pid);
      match child {
        case Some(c) =>
          ReapReady(pid);
          r := Reaped(mem[c].pid, mem[c].code);
          DestroyTask(c);
          DestroyedNext(old(Abs()), c);
        case None =>
          if pid != -1 {
            var existing := FindChildOf(current, pid);
            if existing == None { return NoChild; }
          }
          Sleep(ForChild(pid));
          r := Asleep;
      }
    }

    /** Whoever is reaped for a pid is a child with that pid. */
    lemma ReapedIsChild(pid: int)
      requires Valid() && current in mem
      ensures forall c :: c in mem && SchedLaws.Reaps(mem, current, pid, c) ==>
                c in mem[current].children && (pid != -1 ==> mem[c].pid == pid)
    {}

    /** A blocking `read` of the keyboard; the keys handed out come from the front of the ring. */
    method SysRead(length: nat) returns (out: seq<int>)
      requires Valid() && SchedRuns.Inv(Abs()) && current != idle
      modifies this
      ensures Valid() && Abs() == SchedRuns.Handle(old(Abs()), SchedRuns.Read(length)) && SchedRuns.Inv(Abs())
      ensures out + keys == old(keys) && |out| == if length < old(|keys|) then length else old(|keys|)
    {
      hide SchedRuns.Inv, Shaped, Block, Yield;
      AtRest();
      SchedRuns.StepKeeps(Abs(), SchedRuns.Read(length));
      out := [];
      if length == 0 { return; }
      if keys != [] {
        var n := if length < |keys| then length else |keys|;
        out := keys[..n];
        keys := keys[n..];
        ShapedKeys(old(Abs()), keys);
      } else {
        Sleep(ForKeyboard);
      }
    }

    /** Blocks the current task and hands the processor on. */
    method Sleep(w: Wait)
      requires Valid() && SchedRuns.Inv(Abs()) && current != idle
      modifies this
      ensures Valid() && Abs() == Switch(Yield(Block(old(Abs()), old(current), w))) && keys == old(keys)
              && mem.Keys == old(mem.Keys)
    {
      hide SchedRuns.Inv, Shaped, Block, Yield;
      AtRest();
      SleepLoose(Abs(), w);
      BlockTask(current, w);
      YieldNext(Abs());
      YieldCurrent();
      SwitchTask();
    }

    lemma ReapReady(pid: int)
      requires Valid() && SchedRuns.Inv(Abs()) && Reapable(Abs(), pid).Some?
      ensures var c := Reapable(Abs(), pid).value;
              c in mem && c != current && c != idle && c != init && mem[c].parent != Some(c)
    {
      var c := Reapable(Abs(), pid).value;
      assert SchedRuns.Kin(Abs(), c);
    }
  }
}
