/** A run from boot to the one state in which init oversleeps. */
module SchedWitness {
  import opened Options
  import opened Lists
  import opened SchedSpec
  import opened SchedInv
  import opened SchedLife
  import opened SchedRuns

  /** A task of these runs: nothing but the fields that change. */
  function Job(pid: int, state: State, level: nat, slice: nat, wait: Wait, parent: Option<int>,
        children: seq<int>): Task<int> {
    Task(pid, state, level, slice, false, wait, parent, children, 0)
  }

  /** The state with tasks 0 (idle) and 1 (init), empty middle queues and no keys. */
  function World(first: seq<int>, second: seq<int>, asleep: seq<int>, dead: seq<int>, task: map<int, Task<int>>,
        current: int, nextPid: int, ticks: nat): Sys<int> {
    Sys([first, second, [], [], asleep, dead], task, current, current, false, 0, 1, nextPid, ticks, 0, [])
  }

  // ---------------------------------------------------------------- steps in general

  /** A tick that leaves the current task some of its slice. */
  lemma PlainTick(s: Sys<int>)
    requires Shaped(s) && !s.switching && s.task[s.current].slice >= 2 && !s.task[s.current].yielding
    requires s.ticks + 1 - s.lastBoost < BOOST_INTERVAL
    ensures Handle(s, Tick) ==
              s.(ticks := s.ticks + 1,
                task := s.task[s.current := s.task[s.current].(slice := s.task[s.current].slice - 1)])
  {}

  /** The processor goes to `t`, the first of queue 0 or, if that is empty, of queue 1. */
  lemma HandOver(s: Sys<int>, t: int, k: nat)
    requires Shaped(s) && !s.switching && s.current != t && t != s.idle && t in s.task
    requires k < 2 && s.q[k] == [t] && (k == 1 ==> s.q[0] == [])
    ensures Switch(Dispatched(s)) ==
            s.(q := s.q[k := []], current := t, next := t,
               task := s.task[t := s.task[t].(state := Running, slice := if k == 0 then 4 else 8)])
  {
    assert [t][1..] == [];
    assert TopLevel(s.q) == k;
  }

  /** The last tick of idle's slice, with `t` waiting. */
  lemma IdleGivesWay(s: Sys<int>, t: int)
    requires Shaped(s) && !s.switching && s.current == s.idle && s.task[s.idle].slice == 1 && !s.task[s.idle].yielding
    requires s.ticks + 1 - s.lastBoost < BOOST_INTERVAL && s.q[0] == [t] && t != s.idle && t in s.task
    ensures Handle(s, Tick) == s.(ticks := s.ticks + 1, q := s.q[0 := []], current := t, next := t,
              task := s.task[s.idle := s.task[s.idle].(slice := 0)][t := s.task[t].(state := Running, slice := 4)])
  {
    hide Dispatched;
    var c := s.(ticks := s.ticks + 1, task := s.task[s.idle := s.task[s.idle].(slice := 0)]);
    assert Charged(Boosted(s.(ticks := s.ticks + 1))) == c;
    assert SteppedDown(c) == c;
    HandOver(c, t, 0);
  }

  /** A task of queue 0 that used up its slice goes to the empty queue 1. */
  lemma StepsDown(s: Sys<int>, c: int)
    requires Shaped(s) && s.current == c != s.idle && s.task[c].state == Running && s.task[c].level == 0
    requires !s.task[c].yielding && s.q[1] == []
    ensures SteppedDown(s) == s.(q := s.q[1 := [c]], task := s.task[c := s.task[c].(level := 1, state := Ready)])
  {
    assert [] + [c] == [c];
    assert s.task[c].(yielding := false) == s.task[c] && s.task[c := s.task[c]] == s.task;
  }

  /** The last tick of the slice of task `c` of queue 0, with `t` waiting: `c` goes to queue 1. */
  lemma TaskGivesWay(s: Sys<int>, c: int, t: int)
    requires Shaped(s) && !s.switching && s.current == c != s.idle && s.task[c].slice == 1 && !s.task[c].yielding
    requires s.task[c].state == Running && s.task[c].level == 0
    requires s.ticks + 1 - s.lastBoost < BOOST_INTERVAL && s.q[0] == [t] && s.q[1] == [] && t != s.idle && t != c
             && t in s.task
    ensures Handle(s, Tick) == s.(ticks := s.ticks + 1, q := s.q[0 := []][1 := [c]], current := t, next := t,
              task := s.task[c := s.task[c].(slice := 0, level := 1, state := Ready)]
                            [t := s.task[t].(state := Running, slice := 4)])
  {
    hide Dispatched, SteppedDown;
    var c1 := s.(ticks := s.ticks + 1, task := s.task[c := s.task[c].(slice := 0)]);
    assert Charged(Boosted(s.(ticks := s.ticks + 1))) == c1;
    StepsDown(c1, c);
    var d := c1.(q := s.q[1 := [c]], task := c1.task[c := c1.task[c].(level := 1, state := Ready)]);
    HandOver(d, t, 0);
  }

  /** The current task, no longer running, yields to `t`, the first of queue 0 or, if that is empty, of queue 1. */
  lemma YieldTo(s: Sys<int>, c: int, t: int, k: nat)
    requires Shaped(s) && !s.switching && s.current == c != s.idle && s.task[c].state != Running && s.task[c].slice >= 1
    requires s.ticks - s.lastBoost < BOOST_INTERVAL && k < 2 && s.q[k] == [t] && (k == 1 ==> s.q[0] == [])
    requires t != s.idle && t != c && t in s.task && !s.task[c].yielding
    ensures Switch(Yield(s)) == s.(q := s.q[k := []], current := t, next := t,
              task := s.task[c := s.task[c].(slice := s.task[c].slice - 1)]
                            [t := s.task[t].(state := Running, slice := if k == 0 then 4 else 8)])
  {
    hide Dispatched;
    var y := Put(s, c, s.task[c].(yielding := true));
    var d := s.(task := s.task[c := s.task[c].(slice := s.task[c].slice - 1)]);
    assert SteppedDown(Charged(Boosted(y))) == d;
    HandOver(d, t, k);
  }

  /** The current task sleeps and the first of queue 0 runs. */
  lemma SleepTo(s: Sys<int>, w: Wait, c: int, t: int)
    requires Shaped(s) && !s.switching && s.current == c != s.idle && s.task[c].state == Running && s.task[c].slice >= 1
    requires s.ticks - s.lastBoost < BOOST_INTERVAL && s.q[0] == [t] && t != s.idle && t != c && t in s.task
    requires s.task[c].level == 0 && !s.task[c].yielding
    ensures Switch(Yield(Block(s, c, w))) == s.(q := s.q[0 := []][4 := s.q[4] + [c]], current := t, next := t,
              task := s.task[c := s.task[c].(state := Blocked, wait := w, level := 4, slice := s.task[c].slice - 1)]
                            [t := s.task[t].(state := Running, slice := 4)])
  {
    hide Yield;
    assert Remove([t], c) == [t];
    var b := Block(s, c, w);
    assert s.q[0 := s.q[0]] == s.q;
    assert b == s.(q := s.q[4 := s.q[4] + [c]],
             task := s.task[c := s.task[c].(state := Blocked, wait := w, level := 4)]);
    YieldTo(b, c, t, 0);
  }

  // ---------------------------------------------------------------- reachable states

  ghost predicate Reached(s: Sys<int>) {
    Inv(Boot(0, 1)) && exists es :: Possible(Boot(0, 1), es) && After(Boot(0, 1), es) == s
  }

  lemma {:induction false} RunAppend(s: Sys<int>, es: seq<Event<int>>, e: Event<int>)
    requires Inv(s) && Possible(s, es) && Inv(After(s, es)) && Enabled(After(s, es), e)
    ensures Possible(s, es + [e]) && After(s, es + [e]) == Handle(After(s, es), e)
    decreases |es|
  {
    var all := es + [e];
    if es == [] {
      assert all[0] == e && all[1..] == [];
      StepKeeps(s, e);
    } else {
      assert all[0] == es[0] && all[1..] == es[1..] + [e];
      StepKeeps(s, es[0]);
      RunAppend(Handle(s, es[0]), es[1..], e);
    }
  }

  lemma ReachNext(s: Sys<int>, e: Event<int>, r: Sys<int>)
    requires Reached(s) && Enabled(s, e) && Shaped(s) && (e.Kill? || e.Deliver? ==> e.target in s.task)
             && Handle(s, e) == r
    ensures Reached(r) && Inv(r)
  {
    hide Inv, Handle;
    var es :| Possible(Boot(0, 1), es) && After(Boot(0, 1), es) == s;
    RunsAreSafe(Boot(0, 1), es);
    RunAppend(Boot(0, 1), es, e);
    StepKeeps(s, e);
  }

  /** Two states are the same if their parts are. */
  lemma Same(s: Sys<int>, r: Sys<int>)
    requires |s.q| == |r.q| && (forall k {:trigger s.q[k]} :: 0 <= k < |s.q| ==> s.q[k] == r.q[k])
    requires s.task.Keys == r.task.Keys && (forall x <- s.task :: s.task[x] == r.task[x])
    requires s.(q := r.q, task := r.task) == r
    ensures s == r
  {
    assert s.q == r.q;
    assert s.task == r.task by {
      forall x | x in s.task ensures x in r.task && s.task[x] == r.task[x] { assert x in s.task.Keys; }
      forall x | x in r.task ensures x in s.task { assert x in r.task.Keys; }
    }
  }

  // ---------------------------------------------------------------- the run

  const IDLE: Task<int> := Job(0, Running, 0, 0, NoWait, None, [])

  /** Idle runs since boot, `k` ticks long. */
  function Idling(k: nat): Sys<int>
    requires k < 5
  {
    World([1], [], [], [], map[0 := Job(0, Running, 0, 5 - k, NoWait, None, []),
          1 := Job(1, Ready, 0, 5, NoWait, None, [])], 0, 2, k)
  }

  function InitRuns(): Sys<int> {
    World([], [], [], [], map[0 := IDLE, 1 := Job(1, Running, 0, 4, NoWait, None, [])], 1, 2, 5)
  }

  lemma ToInit()
    ensures Reached(InitRuns()) && Inv(InitRuns())
  {
    hide Inv, Handle;
    BootInv(0, 1);
    assert Boot(0, 1) == Idling(0);
    assert Possible(Boot(0, 1), []) && After(Boot(0, 1), []) == Boot(0, 1);
    IdleTicks(4);
    InvParts(Idling(4));
    IdleGivesWay(Idling(4), 1);
    ReachNext(Idling(4), Tick, InitRuns());
  }

  lemma {:induction false} IdleTicks(k: nat)
    requires k < 5 && Reached(Idling(0)) && Inv(Idling(0))
    ensures Reached(Idling(k)) && Inv(Idling(k))
  {
    hide Inv, Handle, Reached;
    if k > 0 {
      IdleTicks(k - 1);
      InvParts(Idling(k - 1));
      PlainTick(Idling(k - 1));
      ReachNext(Idling(k - 1), Tick, Idling(k));
    }
  }

  /** A child at the back of an empty queue 0. */
  lemma ForkTo(s: Sys<int>, c: int, child: int)
    requires Shaped(s) && s.current == c != s.idle && child !in s.task && s.q[0] == [] && child != s.idle
    ensures Handle(s, Fork(child)) == s.(q := s.q[0 := [child]], nextPid := s.nextPid + 1,
              task := s.task[c := s.task[c].(children := s.task[c].children + [child])]
                            [child := Job(s.nextPid, Ready, 0, 5, NoWait, Some(c), [])])
  {
    assert [] + [child] == [child];
  }

  /** Init has forked task 2 and sleeps for any child. */
  function InitWaits(): Sys<int> {
    World([], [], [1], [], map[0 := IDLE, 1 := Job(1, Blocked, 4, 3, ForChild(-1), None, [2]),
                               2 := Job(2, Running, 0, 4, NoWait, Some(1), [])], 2, 3, 5)
  }

  lemma ToInitWaits()
    ensures Reached(InitWaits()) && Inv(InitWaits())
  {
    hide Inv, Handle, Reached;
    var a := InitRuns();
    ToInit();
    InvParts(a);
    var b := World([2], [], [], [], map[0 := IDLE, 1 := Job(1, Running, 0, 4, NoWait, None, [2]),
                                        2 := Job(2, Ready, 0, 5, NoWait, Some(1), [])], 1, 3, 5);
    ForkTo(a, 1, 2);
    Same(Handle(a, Fork(2)), b);
    ReachNext(a, Fork(2), b);
    InvParts(b);
    WaitTo(b, 1, 2);
    assert [] + [1] == [1];
    Same(Handle(b, WaitFor(-1)), InitWaits());
    ReachNext(b, WaitFor(-1), InitWaits());
  }

  /** Waiting for the only child, which is ready. */
  lemma WaitTo(s: Sys<int>, c: int, t: int)
    requires Shaped(s) && !s.switching && s.current == c != s.idle && s.task[c].state == Running && s.task[c].slice >= 1
    requires s.ticks - s.lastBoost < BOOST_INTERVAL && s.q[0] == [t] && t != s.idle && t != c && t in s.task
    requires s.task[c].level == 0 && !s.task[c].yielding && s.task[c].children == [t] && s.task[t].state == Ready
    ensures Handle(s, WaitFor(-1)) == s.(q := s.q[0 := []][4 := s.q[4] + [c]], current := t, next := t,
              task := s.task[c := s.task[c].(state := Blocked, wait := ForChild(-1), level := 4,
                                             slice := s.task[c].slice - 1)]
                            [t := s.task[t].(state := Running, slice := 4)])
  {
    hide Yield, Block;
    SleepTo(s, ForChild(-1), c, t);
  }

  /** Task 2 has forked task 3, sleeps for it, and task 3 has forked task 4 and run for `k` ticks. */
  function ThreeRuns(k: nat): Sys<int>
    requires k < 4
  {
    World([4], [], [1, 2], [], map[0 := IDLE, 1 := Job(1, Blocked, 4, 3, ForChild(-1), None, [2]),
                                   2 := Job(2, Blocked, 4, 3, ForChild(-1), Some(1), [3]),
                                   3 := Job(3, Running, 0, 4 - k, NoWait, Some(2), [4]),
                                   4 := Job(4, Ready, 0, 5, NoWait, Some(3), [])], 3, 5, 5 + k)
  }

  /** Task 2 has forked task 3 and runs. */
  function TwoForked(): Sys<int> {
    World([3], [], [1], [], map[0 := IDLE, 1 := Job(1, Blocked, 4, 3, ForChild(-1), None, [2]),
                                2 := Job(2, Running, 0, 4, NoWait, Some(1), [3]),
                                3 := Job(3, Ready, 0, 5, NoWait, Some(2), [])], 2, 4, 5)
  }

  lemma ToTwoForked()
    ensures Reached(TwoForked()) && Inv(TwoForked())
  {
    hide Inv, Handle, Reached;
    ToInitWaits();
    InvParts(InitWaits());
    ForkTo(InitWaits(), 2, 3);
    Same(Handle(InitWaits(), Fork(3)), TwoForked());
    ReachNext(InitWaits(), Fork(3), TwoForked());
  }

  lemma ToThree()
    ensures Reached(ThreeRuns(0)) && Inv(ThreeRuns(0))
  {
    hide Inv, Handle, Reached;
    var d := TwoForked();
    ToTwoForked();
    InvParts(d);
    var e := World([], [], [1, 2], [], map[0 := IDLE, 1 := Job(1, Blocked, 4, 3, ForChild(-1), None, [2]),
                                           2 := Job(2, Blocked, 4, 3, ForChild(-1), Some(1), [3]),
                                           3 := Job(3, Running, 0, 4, NoWait, Some(2), [])], 3, 4, 5);
    WaitTo(d, 2, 3);
    assert [1] + [2] == [1, 2];
    Same(Handle(d, WaitFor(-1)), e);
    ReachNext(d, WaitFor(-1), e);
    InvParts(e);
    ForkTo(e, 3, 4);
    Same(Handle(e, Fork(4)), ThreeRuns(0));
    ReachNext(e, Fork(4), ThreeRuns(0));
  }

  lemma {:induction false} ThreeTicks(k: nat)
    requires k < 4
    ensures Reached(ThreeRuns(k)) && Inv(ThreeRuns(k))
  {
    hide Inv, Handle, Reached;
    if k == 0 {
      ToThree();
    } else {
      ThreeTicks(k - 1);
      InvParts(ThreeRuns(k - 1));
      PlainTick(ThreeRuns(k - 1));
      ReachNext(ThreeRuns(k - 1), Tick, ThreeRuns(k));
    }
  }

  /** Task 4 has exited as a zombie of task 3, which runs; task 2 and init sleep for any child. */
  function Orphanage(): Sys<int> {
    World([], [], [1, 2], [4], map[0 := IDLE, 1 := Job(1, Blocked, 4, 3, ForChild(-1), None, [2]),
                                   2 := Job(2, Blocked, 4, 3, ForChild(-1), Some(1), [3]),
                                   3 := Job(3, Running, 1, 8, NoWait, Some(2), [4]),
                                   4 := Job(4, Zombie, 5, 3, NoWait, Some(3), [])], 3, 5, 9)
  }

  lemma ToOrphanage()
    ensures Reached(Orphanage()) && Inv(Orphanage())
  {
    hide Inv, Handle, Reached;
    var g := ThreeRuns(3);
    ThreeTicks(3);
    InvParts(g);
    var h := World([], [3], [1, 2], [], map[0 := IDLE, 1 := Job(1, Blocked, 4, 3, ForChild(-1), None, [2]),
                                            2 := Job(2, Blocked, 4, 3, ForChild(-1), Some(1), [3]),
                                            3 := Job(3, Ready, 1, 0, NoWait, Some(2), [4]),
                                            4 := Job(4, Running, 0, 4, NoWait, Some(3), [])], 4, 5, 9);
    TaskGivesWay(g, 3, 4);
    assert Handle(g, Tick) == h;
    ReachNext(g, Tick, h);
    InvParts(h);
    ExitTo(h, 4, 3);
    assert [] + [4] == [4];
    Same(Handle(h, Exit(0)), Orphanage());
    ReachNext(h, Exit(0), Orphanage());
  }

  /** The current task, without children, exits beside a parent that is not waiting and is next in queue 1. */
  lemma ExitTo(s: Sys<int>, c: int, t: int)
    requires Shaped(s) && !s.switching && s.current == c != s.idle && s.task[c].state == Running && s.task[c].slice >= 1
    requires s.ticks - s.lastBoost < BOOST_INTERVAL && s.q[0] == [] && s.q[1] == [t] && t != s.idle && t != c
             && t in s.task
    requires !s.task[c].yielding && s.task[c].children == [] && s.task[c].parent == Some(t) && s.task[t].state == Ready
    ensures Handle(s, Exit(0)) == s.(q := s.q[1 := []][5 := s.q[5] + [c]], current := t, next := t,
              task := s.task[c := s.task[c].(state := Zombie, code := 0, level := 5, slice := s.task[c].slice - 1)]
                            [t := s.task[t].(state := Running, slice := 8)])
  {
    hide Yield, ExitTask;
    var z := s.(q := s.q[5 := s.q[5] + [c]], task := s.task[c := s.task[c].(state := Zombie, code := 0, level := 5)]);
    QuietExit(s, c, t);
    YieldTo(z, c, t, 1);
  }

  lemma QuietExit(s: Sys<int>, c: int, t: int)
    requires Shaped(s) && c in s.task && c != s.idle && s.task[c].state == Running && s.task[c].children == []
    requires s.task[c].parent == Some(t) && t != c && t in s.task && s.task[t].state == Ready
    ensures ExitTask(s, c, 0) ==
            s.(q := s.q[5 := s.q[5] + [c]], task := s.task[c := s.task[c].(state := Zombie, code := 0, level := 5)])
  {
    hide Reparent;
    var s2 := Put(s, c, s.task[c].(state := Zombie, code := 0));
    assert Detached(s, c) == s;
    NoneToReparent(s2, c);
    assert WakeParent(s2, c) == s2;
  }

  lemma NoneToReparent(s: Sys<int>, c: int)
    requires Shaped(s) && c in s.task && s.task[c].children == []
    ensures Reparent(s, c) == s
  {
    var none: seq<int> := [];
    assert Reversed(none) == none;
    forall x | x in s.task ensures Reparent(s, c).task[x] == s.task[x] {
      assert none + s.task[x].children == s.task[x].children;
    }
    Same(Reparent(s, c), s);
  }

  /** Why init is excepted: from a state that is reached from boot, task 3 exits, its zombie goes to init,
      and init sleeps on. */
  lemma InitCanOversleep()
    ensures Reached(Orphanage()) && Inv(Orphanage()) && 1 in Orphanage().task && SleepsRightly(Orphanage(), 1)
    ensures Enabled(Orphanage(), Exit(0)) && Inv(Handle(Orphanage(), Exit(0)))
    ensures var r := ExitTask(Orphanage(), 3, 0); 1 in r.task && !SleepsRightly(r, 1)
  {
    hide Inv, ExitTask, Handle, Reached;
    var s := Orphanage();
    ToOrphanage();
    InvParts(s);
    StepKeeps(s, Exit(0));
    OrphanageExit(s);
  }

  lemma OrphanageExit(s: Sys<int>)
    requires Shaped(s) && Partition(s) && Tree(s) && s == Orphanage() && SleepsRightly(s, 1)
    ensures ExitTask(s, 3, 0).task.Keys == s.task.Keys && !SleepsRightly(ExitTask(s, 3, 0), 1)
  {
    hide PartitionBut, ExitTask;
    Distinct(s, 3);
    ExitRecords(s, 3, 0);
    InitSleepsExactly(s, ExitTask(s, 3, 0), 3, 0);
    assert 4 in s.task[3].children;
    assert LeavesZombie(s, 3);
  }
}
