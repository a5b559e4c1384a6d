/** What each interrupt and system call does to queues, tasks, keys and clock, said outright: which task runs next,
    where the others stand, and which fields change. */
module SchedLaws {
  import opened Options
  import opened Lists
  import opened SchedSpec
  import opened SchedInv
  import opened SchedLife
  import opened SchedRuns

  /** Ticks that a task gets when it is taken from queue `k`. */
  function SliceOf(k: nat): nat { if k == 0 then 4 else if k == 1 then 8 else if k == 2 then 16 else 32 }

  /** From the queues `q`, the head of the highest ready queue that is not empty runs next, with the slice of that
      queue; idle if there is none. */
  ghost predicate TakesHead<T>(q: seq<seq<T>>, r: Sys<T>)
    requires |q| == 6 && r.current in r.task
  {
    && (q[0] == [] && q[1] == [] && q[2] == [] && q[3] == [] ==>
          r.current == r.idle && r.q == q && r.task[r.current].slice == 4)
    && (forall k {:trigger q[k]} :: 0 <= k < 4 && q[k] != [] && (forall j :: 0 <= j < k ==> q[j] == []) ==>
          r.current == q[k][0] && r.q == q[k := q[k][1..]] && r.task[r.current].slice == SliceOf(k))
  }

  /** The records of `s`, except that the task that runs in `r` is marked as running and has a new slice. */
  ghost predicate OnlyRuns<T>(task: map<T, Task<T>>, r: Sys<T>) {
    && r.current in task && r.current in r.task
    && r.task == task[r.current := task[r.current].(state := Running, slice := r.task[r.current].slice)]
  }

  lemma HandsOver<T>(s: Sys<T>)
    requires Partition(s) && Calm(s) && !s.task[s.current].yielding
    requires s.current == s.idle || s.task[s.current].state != Running
    ensures var r := Switch(Dispatched(s));
            && r == s.(q := r.q, task := r.task, current := r.current, next := r.next)
            && r.current in r.task && TakesHead(s.q, r) && OnlyRuns(s.task, r)
  {
    DispatchedIsDispatch(s);
    DispatchOk(s);
    var r := Dispatch(s);
    assert r.task == s.task[r.current := s.task[r.current].(state := Running, slice := r.task[r.current].slice)];
  }

  // ---------------------------------------------------------------- the timer

  /** A boost is due at the next tick. */
  ghost predicate DueNext<T>(s: Sys<T>) { s.ticks + 1 - s.lastBoost >= 5000 }

  /** The queues when `schedule` looks at them: as they are, or all ready tasks in queue 0 if a boost is due. */
  ghost function Lined<T>(s: Sys<T>): seq<seq<T>>
    requires |s.q| == 6
  {
    if DueNext(s) then [s.q[0] + s.q[1] + s.q[2] + s.q[3], [], [], [], s.q[4], s.q[5]] else s.q
  }

  /** The record of `t` at that point. */
  ghost function Lifted<T>(s: Sys<T>, t: T): Task<T>
    requires |s.q| == 6 && t in s.task
  {
    if DueNext(s) && (t in s.q[1] || t in s.q[2] || t in s.q[3]) then s.task[t].(level := 0) else s.task[t]
  }

  ghost function LiftedAll<T>(s: Sys<T>): map<T, Task<T>>
    requires |s.q| == 6
  {
    map t | t in s.task :: Lifted(s, t)
  }

  /** The queue below that of level `level`; the lowest is its own. */
  function Below(level: nat): nat { if level >= 3 then 3 else level + 1 }

  lemma ChargedExact<T>(s: Sys<T>)
    requires Resting(s)
    ensures var c := s.current; var m := Charged(Boosted(s.(ticks := s.ticks + 1)));
            && m == s.(ticks := s.ticks + 1, q := Lined(s), task := m.task,
                       lastBoost := if DueNext(s) then s.ticks + 1 else s.lastBoost)
            && m.task == LiftedAll(s)[c := s.task[c].(slice := s.task[c].slice - 1)]
  {
    var s0, c := s.(ticks := s.ticks + 1), s.current;
    TickFree(s);
    RunningNowhere(s);
    assert Boosted(s0).task == LiftedAll(s);
    assert Lifted(s, c) == s.task[c];
  }

  lemma RunningNowhere<T>(s: Sys<T>)
    requires Resting(s)
    ensures forall k {:trigger s.q[k]} :: 0 <= k < 6 ==> s.current !in s.q[k]
  {
    hide Calm;
  }

  /** A running task steps down to the end of the queue below its own. */
  lemma SteppedExact<T>(s: Sys<T>)
    requires Partition(s) && s.current != s.idle && s.task[s.current].state == Running
    ensures var c := s.current; var k := Below(s.task[c].level);
            && s.task[c].level < 4
            && SteppedDown(s) == s.(q := s.q[k := s.q[k] + [c]],
                                    task := s.task[c := s.task[c].(yielding := false, state := Ready, level := k)])
  {
    assert Located(s, s.current);
  }

  /** A tick that does not end the slice of the running task takes one tick off it; nobody but the boost moves. */
  lemma TickRuns<T>(s: Sys<T>)
    requires Inv(s) && s.task[s.current].slice > 1
    ensures var r := Handle(s, Tick); var c := s.current;
            && r == s.(ticks := s.ticks + 1, q := Lined(s), task := r.task,
                       lastBoost := if DueNext(s) then s.ticks + 1 else s.lastBoost)
            && r.task == LiftedAll(s)[c := s.task[c].(slice := s.task[c].slice - 1)]
  {
    ChargedExact(s);
  }

  /** A tick that ends the slice of task `c`: it joins the end of the queue below its own, and the head of the highest
      queue runs. Unless that is `c` again, `c` is now the last of that queue, ready and at its level. No other
      record changes but by the boost. */
  lemma TickExpires<T>(s: Sys<T>)
    requires Inv(s) && s.current != s.idle && s.task[s.current].slice == 1
    ensures var r := Handle(s, Tick); var c := s.current; var k := Below(s.task[c].level);
            var waiting := Lined(s)[k := Lined(s)[k] + [c]];
            && r.current in r.task && s.task[c].level < 4 && TakesHead(waiting, r)
            && OnlyRuns(LiftedAll(s)[c := s.task[c].(slice := 0, state := Ready, level := k)], r)
            && (r.current != c ==>
                  && r.q[k] != [] && r.q[k][|r.q[k]| - 1] == c
                  && r.task[c] == s.task[c].(slice := 0, state := Ready, level := k))
            && r == s.(ticks := s.ticks + 1, q := r.q, task := r.task, current := r.current, next := r.next,
                       lastBoost := if DueNext(s) then s.ticks + 1 else s.lastBoost)
  {
    hide PartitionBut, Tree, NoLostChild, NoLostKey, Dispatched, SteppedDown, TakesHead, OnlyRuns, Calm, Lined, Lifted;
    hide LiftedAll, Inv;
    InvParts(s);
    var c, k := s.current, Below(s.task[s.current].level);
    var m := Expiry(s);
    var d := StepsBelow(m);
    HandsOver(d);
    var r := Switch(Dispatched(d));
    assert d.task == LiftedAll(s)[c := s.task[c].(slice := 0, state := Ready, level := k)];
    if r.current != c { NotPicked(d.task, r, c); StaysLast(m.q[k := m.q[k] + [c]], r, k); }
  }

  lemma NotPicked<T>(task: map<T, Task<T>>, r: Sys<T>, c: T)
    requires r.current in r.task && OnlyRuns(task, r) && r.current != c && c in task
    ensures c in r.task && r.task[c] == task[c]
  {}

  lemma StepsBelow<T>(m: Sys<T>) returns (d: Sys<T>)
    requires Partition(m) && Calm(m) && m.current != m.idle && m.task[m.current].state == Running
    ensures d == SteppedDown(m) && Partition(d) && Calm(d) && d.current == m.current && !d.task[d.current].yielding
    ensures d.task[d.current].state != Running && m.task[m.current].level < 4 && |m.q| == 6
    ensures var c := m.current; var k := Below(m.task[c].level);
            d == m.(q := m.q[k := m.q[k] + [c]],
                    task := m.task[c := m.task[c].(yielding := false, state := Ready, level := k)])
  {
    hide PartitionBut, Calm;
    PartitionShaped(m);
    d := SteppedDown(m);
    SteppedExact(m);
    StepDownOk(m);
  }

  /** The state in which the slice has run out. */
  lemma Expiry<T>(s: Sys<T>) returns (m: Sys<T>)
    requires Inv(s) && s.task[s.current].slice == 1
    ensures Partition(m) && Calm(m) && m.current == s.current && s.current in s.task
    ensures m.task[m.current] == s.task[s.current].(slice := 0)
    ensures m == s.(ticks := s.ticks + 1, q := Lined(s), task := m.task,
                    lastBoost := if DueNext(s) then s.ticks + 1 else s.lastBoost)
    ensures m.task == LiftedAll(s)[s.current := s.task[s.current].(slice := 0)]
    ensures Handle(s, Tick) == Switch(Dispatched(SteppedDown(m)))
    ensures s.task[s.current].state == Running && !s.task[s.current].yielding && !s.switching
  {
    hide SteppedDown, Dispatched, SameWorld, Tree, NoLostChild, NoLostKey;
    ChargedExact(s);
    TickFree(s);
    BeforeStepDown(s.(ticks := s.ticks + 1));
    m := Charged(Boosted(s.(ticks := s.ticks + 1)));
  }

  /** Whoever is last in a queue stays last unless it is the one taken. */
  lemma StaysLast<T>(q: seq<seq<T>>, r: Sys<T>, k: nat)
    requires |q| == 6 && k < 4 && q[k] != [] && r.current in r.task && TakesHead(q, r)
    requires r.current != q[k][|q[k]| - 1]
    ensures r.q[k] != [] && r.q[k][|r.q[k]| - 1] == q[k][|q[k]| - 1]
  {
    var h := if q[0] != [] then 0 else if q[1] != [] then 1 else if q[2] != [] then 2 else 3;
    assert q[h] != [] && forall j :: 0 <= j < h ==> q[j] == [];
    assert r.q == q[h := q[h][1..]];
  }

  /** A tick that ends idle's slice: the head of the highest queue runs, or idle again. */
  lemma TickIdles<T>(s: Sys<T>)
    requires Inv(s) && s.current == s.idle && s.task[s.idle].slice == 1
    ensures var r := Handle(s, Tick);
            && r.current in r.task && TakesHead(Lined(s), r)
            && OnlyRuns(LiftedAll(s)[s.idle := s.task[s.idle].(slice := 0)], r)
            && r == s.(ticks := s.ticks + 1, q := r.q, task := r.task, current := r.current, next := r.next,
                       lastBoost := if DueNext(s) then s.ticks + 1 else s.lastBoost)
  {
    hide PartitionBut, Tree, NoLostChild, NoLostKey, Dispatched, TakesHead, OnlyRuns;
    var m := Expiry(s);
    IdleSteps(m);
    HandsOver(m);
  }

  lemma IdleSteps<T>(m: Sys<T>)
    requires Partition(m) && Calm(m) && m.current == m.idle && !m.task[m.idle].yielding
    ensures SteppedDown(m) == m
  {
    assert m.task[m.current := m.task[m.current].(yielding := false)] == m.task;
  }

  // ---------------------------------------------------------------- giving up the processor

  /** A task that stopped running gives up the processor, and one tick of its slice with it. */
  lemma YieldExact<T>(s: Sys<T>)
    requires Partition(s) && Calm(s) && 1 <= s.task[s.current].slice <= 32 && !BoostDue(s)
    requires s.task[s.current].state != Running && s.current != s.idle && !s.task[s.current].yielding
    ensures var r := Switch(Yield(s)); var c := s.current;
            && r.current in r.task && TakesHead(s.q, r)
            && OnlyRuns(s.task[c := s.task[c].(slice := s.task[c].slice - 1)], r)
            && r == s.(q := r.q, task := r.task, current := r.current, next := r.next)
  {
    hide Dispatched, TakesHead, OnlyRuns, SteppedDown, Charged, Boosted;
    var m := YieldCharged(s);
    var d := s.(task := s.task[s.current := s.task[s.current].(slice := s.task[s.current].slice - 1)]);
    YieldSteps(s, m, d);
    HandsOver(d);
  }

  lemma YieldCharged<T>(s: Sys<T>) returns (m: Sys<T>)
    requires Partition(s) && Calm(s) && 1 <= s.task[s.current].slice <= 32 && !BoostDue(s)
    requires s.task[s.current].state != Running && s.current != s.idle && !s.task[s.current].yielding
    ensures Partition(m) && Calm(m) && Yield(s) == Dispatched(SteppedDown(m))
    ensures m == s.(task := m.task)
    ensures m.task == s.task[s.current := s.task[s.current].(slice := s.task[s.current].slice - 1, yielding := true)]
  {
    hide Dispatched, SteppedDown, SameWorld;
    YieldReady(s);
    var y := Put(s, s.current, s.task[s.current].(yielding := true));
    BeforeStepDown(y);
    m := Charged(Boosted(y));
    assert Boosted(y) == y;
  }

  lemma YieldSteps<T>(s: Sys<T>, m: Sys<T>, d: Sys<T>)
    requires Partition(m) && Calm(m) && s.current in s.task && m == s.(task := m.task) && m.current != m.idle
    requires s.current in d.task && m.task == s.task[s.current := d.task[s.current].(yielding := true)]
             && !s.task[s.current].yielding
    requires d == s.(task := s.task[s.current := s.task[s.current].(slice := d.task[s.current].slice)])
    requires s.task[s.current].state != Running
    ensures SteppedDown(m) == d && Partition(d) && Calm(d)
  {
    hide SameWorld;
    StepDownOk(m);
    assert m.task[s.current := d.task[s.current]] == d.task;
  }

  /** The current task falls asleep: it is the last of the blocked queue, and the head of the highest queue runs. */
  lemma SleepExact<T>(s: Sys<T>, w: Wait)
    requires Inv(s) && s.current != s.idle
    ensures var r := Switch(Yield(Block(s, s.current, w))); var c := s.current;
            && r.current in r.task && |s.q| == 6 && TakesHead(s.q[4 := s.q[4] + [c]], r)
            && OnlyRuns(s.task[c := s.task[c].(state := Blocked, wait := w, level := 4,
                                               slice := s.task[c].slice - 1)], r)
            && r == s.(q := r.q, task := r.task, current := r.current, next := r.next)
  {
    hide Yield, TakesHead, OnlyRuns, Tree, NoLostChild, NoLostKey;
    var b := Block(s, s.current, w);
    BlockOk(s, s.current, w);
    BlockedLast(s, w);
    YieldExact(b);
    var c := s.current;
    assert b.task[c := b.task[c].(slice := b.task[c].slice - 1)] == s.task[c := s.task[c].(state := Blocked, wait := w,
                                                                     level := 4, slice := s.task[c].slice - 1)];
  }

  lemma BlockedLast<T>(s: Sys<T>, w: Wait)
    requires Partition(s) && s.current != s.idle && s.task[s.current].state == Running
    ensures Block(s, s.current, w).q == s.q[4 := s.q[4] + [s.current]]
  {
    RunningIsLoose(s, s.current);
  }

  // ---------------------------------------------------------------- waking one task

  /** A blocked task that is woken goes from the blocked queue to the end of queue 0; any other stays as it is. */
  lemma UnblockExact<T>(s: Sys<T>, t: T)
    requires Partition(s) && t in s.task && t != s.idle
    ensures Unblock(s, t) ==
            if s.task[t].state != Blocked then s
            else s.(q := s.q[0 := s.q[0] + [t]][4 := Remove(s.q[4], t)],
                    task := s.task[t := s.task[t].(state := Ready, level := 0)])
  {
    if s.task[t].state == Blocked { UnblockOk(s, t); assert Located(s, t); }
  }

  /** A signal with a handler wakes its target and does nothing else to the tasks; one whose frame does not fit
      ends the target, woken first. */
  lemma DeliverExact<T>(s: Sys<T>, t: T, sig: int, fits: bool)
    requires Inv(s) && SchedRuns.Reachable(s, t)
    ensures var u := if s.task[t].state != Blocked then s
                     else s.(q := s.q[0 := s.q[0] + [t]][4 := Remove(s.q[4], t)],
                             task := s.task[t := s.task[t].(state := Ready, level := 0)]);
            && Shaped(u) && t in u.task
            && Handle(s, Deliver(t, sig, fits)) == if fits then u else Handle(u, Kill(t, sig))
  {
    hide PartitionBut, Tree, NoLostChild, NoLostKey, Calm, Terminate, Unblock;
    InvParts(s);
    UnblockExact(s, t);
  }

  // ---------------------------------------------------------------- the keyboard

  /** `part` lists the elements of `list` that wait for `w` (`hit`) or do not, in the order of `list`. */
  ghost predicate InOrder<T>(task: map<T, Task<T>>, part: seq<T>, list: seq<T>, w: Wait, hit: bool) {
    && (forall x :: x in part ==> x in list && (x in task && task[x].wait == w) == hit)
    && (forall x :: x in list && (x in task && task[x].wait == w) == hit ==> x in part)
    && Ascends(part, list)
  }

  /** The elements of `part` come in the order they have in `list`. */
  ghost predicate Ascends<T>(part: seq<T>, list: seq<T>) {
    forall i, j {:trigger part[i], part[j]} :: 0 <= i < j < |part| ==> IndexOf(list, part[i]) < IndexOf(list, part[j])
  }

  lemma {:induction false} SelectAscends<T>(task: map<T, Task<T>>, list: seq<T>, w: Wait, hit: bool)
    requires NoDup(list)
    ensures Ascends(Select(task, list, w, hit), list)
  {
    if list != [] {
      var n := |list| - 1;
      var front, first := list[..n], Select(task, list[..n], w, hit);
      assert list == front + [list[n]];
      SelectAscends(task, front, w, hit);
      forall i | 0 <= i < |first| ensures first[i] in front && IndexOf(list, first[i]) == IndexOf(front, first[i]) {
        assert first[i] in first;
        SelectMember(task, front, w, hit, first[i]);
        AppendIndex(front, [list[n]], first[i]);
      }
      assert IndexOf(list, list[n]) == n;
    }
  }

  lemma SelectInOrder<T>(task: map<T, Task<T>>, list: seq<T>, w: Wait, hit: bool)
    requires NoDup(list)
    ensures InOrder(task, Select(task, list, w, hit), list, w, hit)
  {
    hide NoDup, IndexOf, Select, Ascends;
    var part := Select(task, list, w, hit);
    SelectAscends(task, list, w, hit);
    forall x | x in part ensures x in list && WaitsOn(task, x, w) == hit { SelectMember(task, list, w, hit, x); }
    forall x | x in list && WaitsOn(task, x, w) == hit ensures x in part { SelectMember(task, list, w, hit, x); }
  }

  /** A key press stores the scancode unless the ring is full; every task asleep on the keyboard goes, in order, to
      the end of queue 0, and nothing else changes. */
  lemma KeyExact<T>(s: Sys<T>, c: int) returns (woken: seq<T>, rest: seq<T>)
    requires Inv(s)
    ensures InOrder(s.task, woken, s.q[4], ForKeyboard, true) && InOrder(s.task, rest, s.q[4], ForKeyboard, false)
    ensures var r := Handle(s, Key(c));
            && r == s.(q := s.q[0 := s.q[0] + woken][4 := rest], task := r.task, keys := r.keys)
            && r.keys == (if |s.keys| < 256 then s.keys + [c] else s.keys) && r.task.Keys == s.task.Keys
            && forall t {:trigger r.task[t]} :: t in s.task ==>
                 r.task[t] == if t in woken then s.task[t].(state := Ready, level := 0) else s.task[t]
  {
    hide PartitionBut, Tree, NoLostChild, Calm;
    InvParts(s);
    PartitionNoDup(s);
    var list := s.q[4];
    woken, rest := Select(s.task, list, ForKeyboard, true), Select(s.task, list, ForKeyboard, false);
    assert list[..|list|] == list && rest + list[|list|..] == rest;
    SelectInOrder(s.task, list, ForKeyboard, true);
    SelectInOrder(s.task, list, ForKeyboard, false);
  }

  lemma PartitionNoDup<T>(s: Sys<T>)
    requires Partition(s)
    ensures |s.q| == 6 && NoDup(s.q[4])
  {}

  /** A read takes the first keys off the ring, at most `n`, or falls asleep for want of any. */
  lemma ReadExact<T>(s: Sys<T>, n: nat)
    requires Inv(s) && s.current != s.idle
    ensures n == 0 ==> Handle(s, Read(n)) == s
    ensures var r := Handle(s, Read(n)); s.keys != [] ==>
              && |s.keys| - |r.keys| == (if n < |s.keys| then n else |s.keys|)
              && r == s.(keys := s.keys[|s.keys| - |r.keys|..])
    ensures n > 0 && s.keys == [] ==> Handle(s, Read(n)) == Switch(Yield(Block(s, s.current, ForKeyboard)))
  {
    assert s.keys[0..] == s.keys;
  }

  // ---------------------------------------------------------------- exit

  /** `t` has a parent that sleeps until it exits. */
  ghost predicate EndsWait<T>(s: Sys<T>, t: T)
    requires t in s.task
  {
    s.task[t].parent.Some? && WaitsFor(s, s.task[t].parent.value, s.task[t].pid)
  }

  /** The queues after the exit of `t`: it is the last zombie and nowhere else, and a parent that waited for it goes
      from the blocked queue to the end of queue 0. */
  ghost function ExitQueues<T>(s: Sys<T>, t: T): seq<seq<T>>
    requires |s.q| == 6 && t in s.task
  {
    if EndsWait(s, t) then
      var p := s.task[t].parent.value;
      [Remove(s.q[0], t) + [p], Remove(s.q[1], t), Remove(s.q[2], t), Remove(s.q[3], t),
       Remove(Remove(s.q[4], t), p), s.q[5] + [t]]
    else
      [Remove(s.q[0], t), Remove(s.q[1], t), Remove(s.q[2], t), Remove(s.q[3], t), Remove(s.q[4], t), s.q[5] + [t]]
  }

  lemma DetachedExact<T>(s: Sys<T>, t: T)
    requires Partition(s) && t in s.task && t != s.idle && s.task[t].state != Zombie
    ensures Detached(s, t) == s.(q := [Remove(s.q[0], t), Remove(s.q[1], t), Remove(s.q[2], t), Remove(s.q[3], t),
                                       Remove(s.q[4], t), s.q[5]])
  {
    assert Located(s, t);
    assert forall k {:trigger s.q[k]} :: 0 <= k < 6 && t in s.q[k] ==> Fits(s, k, t);
  }

  /** The queues once the task is buried and its parent not yet woken. */
  lemma BuriedQueues<T>(s: Sys<T>, t: T, code: int)
    requires Partition(s) && t in s.task && t != s.idle && s.task[t].state != Zombie && t !in s.task[t].children
    ensures var z := Enqueue(Orphaned(s, t, code), 5, t);
            && Partition(z) && z.idle == s.idle && z.task.Keys == s.task.Keys
            && z.q == [Remove(s.q[0], t), Remove(s.q[1], t), Remove(s.q[2], t), Remove(s.q[3], t), Remove(s.q[4], t),
                       s.q[5] + [t]]
            && forall x {:trigger z.task[x]} :: x in s.task ==> z.task[x] == Buried(s, t, code, x)
  {
    hide Located, Fits, Buried;
    DetachedExact(s, t);
    BuriedPartition(s, t, code);
    BuriedRecords(s, t, code);
  }

  lemma ExitQueuesExact<T>(s: Sys<T>, t: T, code: int)
    requires Inv(s) && Killable(s, t)
    ensures ExitTask(s, t, code).q == ExitQueues(s, t)
  {
    hide Tree, NoLostChild, NoLostKey, Calm, PartitionBut, ExitTask, Enqueue, Orphaned, Unblock, Buried;
    InvParts(s);
    Distinct(s, t);
    ExitOk(s, t, code);
    BuriedQueues(s, t, code);
    var z := Enqueue(Orphaned(s, t, code), 5, t);
    if s.task[t].parent.Some? && s.task[t].parent.value in s.task { UnblockExact(z, s.task[t].parent.value); }
  }

  /** The exit of another task than the current one: queues and records as above, and nothing else changes. */
  lemma KillExact<T>(s: Sys<T>, t: T, code: int)
    requires Inv(s) && Killable(s, t)
    ensures var e := ExitTask(s, t, code);
            && |s.q| == 6 && e == s.(q := ExitQueues(s, t), task := e.task) && e.task.Keys == s.task.Keys
            && (forall x {:trigger e.task[x]} :: x in s.task ==> e.task[x] == AfterExit(s, t, code, x))
            && (t != s.current ==> Terminate(s, t, code) == e)
  {
    hide AfterExit, ExitTask, PartitionBut, Tree, NoLostChild, NoLostKey, Calm;
    InvParts(s);
    Distinct(s, t);
    ExitRecords(s, t, code);
    ExitQueuesExact(s, t, code);
  }

  /** The exit of the current task: besides, the head of the highest queue runs. */
  lemma ExitExact<T>(s: Sys<T>, code: int)
    requires Inv(s) && Killable(s, s.current)
    ensures var c := s.current; var e := ExitTask(s, c, code); var r := Terminate(s, c, code);
            && c in e.task && |s.q| == 6 && r.current in r.task && TakesHead(ExitQueues(s, c), r)
            && OnlyRuns(e.task[c := e.task[c].(slice := s.task[c].slice - 1)], r)
            && r == s.(q := r.q, task := r.task, current := r.current, next := r.next)
  {
    hide AfterExit, ExitTask, Yield, TakesHead, OnlyRuns, PartitionBut, Tree, NoLostChild, NoLostKey;
    KillExact(s, s.current, code);
    ExitKeeps(s, s.current, code);
    InvParts(s);
    ExitShaped(s, s.current, code);
    YieldExact(ExitTask(s, s.current, code));
  }

  lemma ExitShaped<T>(s: Sys<T>, t: T, code: int)
    requires Shaped(s) && t in s.task
    ensures Shaped(ExitTask(s, t, code))
  {}

  // ---------------------------------------------------------------- fork

  /** The child is a new ready task at the end of queue 0 and the last child of its parent; its pid is new. */
  lemma ForkExact<T>(s: Sys<T>, child: T)
    requires Inv(s) && Enabled(s, Fork(child))
    ensures var r := Handle(s, Fork(child)); var c := s.current;
            && r == s.(q := s.q[0 := s.q[0] + [child]], task := r.task, nextPid := s.nextPid + 1)
            && child in r.task && r.task[child].pid == s.nextPid && r.task[child].parent == Some(c)
            && r.task[child].children == [] && r.task[child].state == Ready && r.task[child].level == 0
            && r.task[child].slice == 5 && !r.task[child].yielding && r.task[child].wait == NoWait
            && r.task == s.task[child := r.task[child]][c := s.task[c].(children := s.task[c].children + [child])]
            && forall t :: t in s.task ==> s.task[t].pid != r.task[child].pid
  {
    forall t | t in s.task ensures s.task[t].pid != s.nextPid { assert Kin(s, t); }
  }

  // ---------------------------------------------------------------- waitpid

  /** A call of waitpid by `parent` reaps `c`: a zombie child of it, with pid `pid`, or for -1 the first in its list. */
  ghost predicate Reaps<T>(task: map<T, Task<T>>, parent: T, pid: int, c: T)
    requires parent in task
  {
    var kids := task[parent].children;
    && c in kids && c in task && task[c].state == Zombie && (pid != -1 ==> task[c].pid == pid)
    && (pid == -1 ==> forall x :: x in kids[..IndexOf(kids, c)] && x in task ==> task[x].state != Zombie)
  }

  lemma {:induction false} FirstZombie<T>(s: Sys<T>, kids: seq<T>)
    ensures var r := FindZombie(s, kids);
            r.Some? ==> forall x :: x in kids[..IndexOf(kids, r.value)] && x in s.task ==> s.task[x].state != Zombie
  {
    if kids != [] && !(kids[0] in s.task && s.task[kids[0]].state == Zombie) {
      FirstZombie(s, kids[1..]);
      var r := FindZombie(s, kids[1..]);
      if r.Some? {
        var i := IndexOf(kids[1..], r.value);
        assert kids[..i + 1] == [kids[0]] + kids[1..][..i];
      }
    }
  }

  /** Of two elements one comes first. */
  lemma OneComesFirst<T>(kids: seq<T>, a: T, b: T)
    requires a in kids && b in kids
    ensures a == b || a in kids[..IndexOf(kids, b)] || b in kids[..IndexOf(kids, a)]
  {
    var i, j := IndexOf(kids, a), IndexOf(kids, b);
    if i < j {
      assert kids[..j][i] == a;
    } else if j < i {
      assert kids[..i][j] == b;
    }
  }

  /** The searches of waitpid find a child exactly if there is one to reap, and it is that one. */
  lemma ReapableExact<T>(s: Sys<T>, pid: int)
    requires Inv(s)
    ensures Reapable(s, pid).Some? ==> Reaps(s.task, s.current, pid, Reapable(s, pid).value)
    ensures forall c :: c in s.task && Reaps(s.task, s.current, pid, c) ==> Reapable(s, pid) == Some(c)
  {
    hide Partition, Calm, NoLostChild, NoLostKey;
    InvParts(s);
    var kids := s.task[s.current].children;
    if pid == -1 { FirstZombie(s, kids); }
    forall c | c in s.task && Reaps(s.task, s.current, pid, c) ensures Reapable(s, pid) == Some(c) {
      if pid == -1 { OneComesFirst(kids, c, FindZombie(s, kids).value); }
    }
  }

  /** A child is reaped: its record goes and its parent forgets it; nothing else changes but the zombie queue. */
  lemma WaitReaps<T>(s: Sys<T>, pid: int, c: T)
    requires Inv(s) && s.current != s.idle && Reaps(s.task, s.current, pid, c)
    ensures var r := Handle(s, WaitFor(pid)); var p := s.current;
            && |s.q| == 6 && r == s.(q := s.q[5 := Remove(s.q[5], c)], task := r.task) && p in r.task
            && r.task == (s.task - {c})[p := s.task[p].(children := Remove(s.task[p].children, c))]
  {
    hide Inv, Destroy, Reapable, PartitionBut, Reaps;
    InvParts(s);
    ReapableExact(s, pid);
    ReapedKin(s, pid, c);
    DestroyOk(s, c);
    DestroyRecords(s, c);
    OnlyParentKnows(s, c);
  }

  lemma ReapedKin<T>(s: Sys<T>, pid: int, c: T)
    requires Inv(s) && s.current != s.idle && Reaps(s.task, s.current, pid, c)
    ensures c in s.task && s.task[c].state == Zombie && c != s.init && c != s.idle && c != s.current
    ensures s.task[c].parent == Some(s.current)
  {
    hide PartitionBut, Calm, NoLostChild, NoLostKey;
    InvParts(s);
    assert Kin(s, s.current) && Kin(s, c);
  }

  lemma OnlyParentKnows<T>(s: Sys<T>, c: T)
    requires Tree(s) && c in s.task && s.task[c].parent.Some?
    ensures forall t {:trigger s.task[t].children} :: t in s.task && t != s.task[c].parent.value ==>
              c !in s.task[t].children
  {
    forall t | t in s.task && t != s.task[c].parent.value ensures c !in s.task[t].children { assert Kin(s, t); }
  }

  /** Nobody is reaped: an unknown pid changes nothing, and otherwise the caller sleeps until a child exits. */
  lemma WaitSleeps<T>(s: Sys<T>, pid: int)
    requires Inv(s) && s.current != s.idle && forall c :: c in s.task ==> !Reaps(s.task, s.current, pid, c)
    ensures Handle(s, WaitFor(pid)) ==
            if pid != -1 && (forall c :: c in s.task[s.current].children && c in s.task ==> s.task[c].pid != pid) then s
            else Switch(Yield(Block(s, s.current, ForChild(pid))))
  {
    hide Inv, Block, Yield, Reapable, Reaps;
    InvParts(s);
    ReapableExact(s, pid);
  }

  // ---------------------------------------------------------------- the status of a child

  /** `WIFEXITED`, `WEXITSTATUS`, `WIFSIGNALED` and `WTERMSIG`. */
  predicate IfExited(status: int) { status % 128 == 0 }
  function ExitStatus(status: int): int { status / 256 % 256 }
  predicate IfSignaled(status: int) { (status % 128 + 1) / 2 > 0 }
  function TermSig(status: int): int { status % 128 }

  /** The status `e` gives its target tells an exit from a signal, and which. */
  ghost predicate Tells<T>(e: Event<T>, status: int) {
    match e
    case Exit(code) => IfExited(status) && !IfSignaled(status) && ExitStatus(status) == code % 256
    case Kill(_, sig) => 1 <= sig < 128 ==> !IfExited(status) && IfSignaled(status) && TermSig(status) == sig
    case Deliver(_, sig, _) => 1 <= sig < 128 ==> !IfExited(status) && IfSignaled(status) && TermSig(status) == sig
    case _ => true
  }

  /** `e` ends task `t`. */
  ghost predicate Ends<T>(s: Sys<T>, e: Event<T>, t: T) {
    match e
    case Exit(_) => t == s.current
    case Kill(x, _) => t == x
    case Deliver(x, _, fits) => t == x && !fits
    case _ => false
  }

  lemma TerminateRecords<T>(s: Sys<T>, t: T, code: int, x: T)
    requires Inv(s) && Killable(s, t) && x in s.task
    ensures var r := Terminate(s, t, code);
            && x in r.task && r.task[x].code == (if x == t then code else s.task[x].code)
            && (r.task[x].state == Zombie <==> x == t || s.task[x].state == Zombie)
  {
    hide AfterExit, ExitTask, Yield, PartitionBut, Tree, NoLostChild, NoLostKey;
    InvParts(s);
    ExitShaped(s, t, code);
    KillExact(s, t, code);
    ExitKeeps(s, t, code);
    if t == s.current { YieldOk(ExitTask(s, t, code)); }
  }

  /** The event that ends a task records its status. */
  lemma EndRecords<T>(s: Sys<T>, e: Event<T>, t: T)
    requires Inv(s) && Enabled(s, e) && Ends(s, e, t)
    ensures var r := Handle(s, e); t in r.task && r.task[t].state == Zombie && Tells(e, r.task[t].code)
  {
    hide Inv, Terminate, Unblock, Shaped;
    RunnerIsKillable(s);
    match e
    case Exit(code) => TerminateRecords(s, t, Returned(code), t);
    case Kill(x, sig) => TerminateRecords(s, t, Signaled(sig), t);
    case Deliver(x, sig, fits) => DeliverKeeps(s, x); TerminateRecords(Unblock(s, x), t, Signaled(sig), t);
  }

  lemma RunnerIsKillable<T>(s: Sys<T>)
    requires Inv(s)
    ensures Shaped(s) && (s.current != s.idle && s.current != s.init ==> Killable(s, s.current))
  {}

  /** A zombie that is not reaped stays one, with its status. */
  lemma CodeKept<T>(s: Sys<T>, e: Event<T>, t: T)
    requires Inv(s) && Enabled(s, e) && t in s.task && s.task[t].state == Zombie && t in Handle(s, e).task
    ensures Handle(s, e).task[t].state == Zombie && Handle(s, e).task[t].code == s.task[t].code
  {
    hide PartitionBut, Calm, Tree, NoLostChild, NoLostKey, Schedule, Yield, Terminate, Unblock, Block, Wake, Shaped;
    RunnerIsKillable(s);
    match e
    case Tick => TickFree(s); ScheduleOk(s.(ticks := s.ticks + 1));
    case Key(c) => KeyCode(s, c, t);
    case Fork(child) => ForkExact(s, child);
    case Exit(code) => TerminateRecords(s, s.current, Returned(code), t);
    case WaitFor(pid) => WaitCode(s, pid, t);
    case Read(n) => if n > 0 && s.keys == [] { SleepCode(s, ForKeyboard, t); }
    case Kill(x, sig) => TerminateRecords(s, x, Signaled(sig), t);
    case Deliver(x, sig, fits) =>
      UnblockExact(s, x);
      DeliverKeeps(s, x);
      if !fits { TerminateRecords(Unblock(s, x), x, Signaled(sig), t); }
  }

  lemma KeyCode<T>(s: Sys<T>, c: int, t: T)
    requires Inv(s) && t in s.task && s.task[t].state == Zombie
    ensures var r := Handle(s, Key(c)); t in r.task && r.task[t] == s.task[t]
  {
    hide Tree, NoLostChild, NoLostKey, Calm;
    var s1 := if |s.keys| == KEYBOARD_CAPACITY then s else s.(keys := s.keys + [c]);
    KeysFree(s, s1.keys);
    WakeOk(s1, ForKeyboard);
  }

  lemma SleepCode<T>(s: Sys<T>, w: Wait, t: T)
    requires Inv(s) && s.current != s.idle && t in s.task && s.task[t].state == Zombie
    ensures var r := Switch(Yield(Block(s, s.current, w)));
            t in r.task && r.task[t].state == Zombie && r.task[t].code == s.task[t].code
  {
    hide Yield, Tree, NoLostChild, NoLostKey;
    BlockOk(s, s.current, w);
    YieldOk(Block(s, s.current, w));
  }

  lemma WaitCode<T>(s: Sys<T>, pid: int, t: T)
    requires Inv(s) && s.current != s.idle && t in s.task && s.task[t].state == Zombie
             && t in Handle(s, WaitFor(pid)).task
    ensures var r := Handle(s, WaitFor(pid)); r.task[t].state == Zombie && r.task[t].code == s.task[t].code
  {
    hide Inv, Destroy, Yield, Block, Reapable;
    InvParts(s);
    ReapableExact(s, pid);
    match Reapable(s, pid) {
      case Some(c) => DestroyRecords(s, c);
      case None =>
        if pid == -1 || FindChild(s, s.task[s.current].children, pid) != None { SleepCode(s, ForChild(pid), t); }
    }
  }

  /** `t` is there in every state of the run. */
  ghost predicate Unreaped<T>(s: Sys<T>, es: seq<Event<T>>, t: T)
    requires Inv(s) && Possible(s, es)
    decreases |es|
  {
    t in s.task && (es != [] ==> (StepKeeps(s, es[0]); Unreaped(Handle(s, es[0]), es[1..], t)))
  }

  lemma {:induction false} CodeLasts<T>(s: Sys<T>, es: seq<Event<T>>, t: T)
    requires Inv(s) && Possible(s, es) && Unreaped(s, es, t) && s.task[t].state == Zombie
    ensures var r := After(s, es); t in r.task && r.task[t].state == Zombie && r.task[t].code == s.task[t].code
    decreases |es|
  {
    hide Inv, Enabled, Handle;
    if es != [] {
      StepKeeps(s, es[0]);
      MayHandle(s, es[0]);
      assert Unreaped(Handle(s, es[0]), es[1..], t);
      UnreapedHere(Handle(s, es[0]), es[1..], t);
      CodeKept(s, es[0], t);
      CodeLasts(Handle(s, es[0]), es[1..], t);
    }
  }

  lemma MayHandle<T>(s: Sys<T>, e: Event<T>)
    requires Inv(s) && Enabled(s, e)
    ensures Shaped(s) && (e.Kill? || e.Deliver? ==> e.target in s.task)
  {}

  lemma UnreapedHere<T>(s: Sys<T>, es: seq<Event<T>>, t: T)
    requires Inv(s) && Possible(s, es) && Unreaped(s, es, t)
    ensures t in s.task
  {}

  /** Whenever waitpid reaps a child, however long after its end, the record it reaps holds the status by which
      `wait.h` tells how the child ended. */
  lemma StatusArrives<T>(s: Sys<T>, e: Event<T>, es: seq<Event<T>>, t: T, pid: int)
    requires Inv(s) && Enabled(s, e) && Ends(s, e, t) && Inv(Handle(s, e)) && Possible(Handle(s, e), es)
    requires Unreaped(Handle(s, e), es, t)
    requires var r := After(Handle(s, e), es); r.current in r.task && Reaps(r.task, r.current, pid, t)
    ensures Tells(e, After(Handle(s, e), es).task[t].code)
  {
    hide Inv, Handle, Enabled;
    MayHandle(s, e);
    EndRecords(s, e, t);
    CodeLasts(Handle(s, e), es, t);
  }
}
