/** When init oversleeps, in whole runs: beside a zombie that it waits for it sleeps exactly if some exit since
    it fell asleep left it one. */
module SchedOversleep {
  import opened Options
  import opened Lists
  import opened SchedSpec
  import opened SchedInv
  import opened SchedLife
  import opened SchedRuns

  /** Init sleeps in waitpid. */
  ghost predicate Asleep<T>(s: Sys<T>)
    requires s.init in s.task
  {
    s.task[s.init].state == Blocked && s.task[s.init].wait.ForChild?
  }

  /** Init sleeps although one of its children is a zombie that it waits for. */
  ghost predicate Oversleeps<T>(s: Sys<T>)
    requires s.init in s.task
  {
    !SleepsRightly(s, s.init)
  }

  /** `t` exits with a zombie child that init, asleep, waits for. */
  ghost predicate LeavesOne<T>(s: Sys<T>, t: T)
    requires s.init in s.task && t in s.task
  {
    Asleep(s) && LeavesZombie(s, t)
  }

  /** The event is an exit that leaves init such a zombie. */
  ghost predicate Leaves<T>(s: Sys<T>, e: Event<T>)
    requires Inv(s) && Enabled(s, e)
  {
    match e
    case Exit(_) => LeavesOne(s, s.current)
    case Kill(t, _) => LeavesOne(s, t)
    case Deliver(t, _, fits) => !fits && LeavesOne(s, t)
    case _ => false
  }

  /** As long as neither init's sleep nor its children change, it oversleeps as before. */
  lemma SameSleep<T>(s: Sys<T>, r: Sys<T>)
    requires Tree(s) && SameTree(s, r)
    requires r.task[r.init].state == Blocked ==>
               s.task[s.init].state == Blocked && s.task[s.init].wait == r.task[r.init].wait
    ensures (Asleep(r) ==> Asleep(s)) && (Oversleeps(r) <==> Asleep(r) && Oversleeps(s))
  {
    assert Kin(s, s.init);
  }

  lemma ScheduledSleep<T>(s: Sys<T>, r: Sys<T>)
    requires Tree(s) && SameWorld(s, r)
    ensures r.init == s.init && r.init in r.task
    ensures (Asleep(r) ==> Asleep(s)) && (Oversleeps(r) <==> Asleep(r) && Oversleeps(s))
  {
    SameSleep(s, r);
  }

  // ---------------------------------------------------------------- exits

  lemma ExitSleep<T>(s: Sys<T>, r: Sys<T>, t: T, code: int)
    requires Tree(s) && t in s.task && t != s.init && t !in s.task[t].children && Exited(s, t, code, r)
    ensures r.init == s.init && r.init in r.task && (Asleep(r) ==> Asleep(s))
    ensures Oversleeps(r) <==> Asleep(r) && (Oversleeps(s) || LeavesOne(s, t))
  {
    if SleepsRightly(s, s.init) {
      InitSleepsExactly(s, r, t, code);
      InitRecord(s, r, t, code);
    } else {
      StaysBeside(s, r, t, code);
    }
  }

  lemma InitRecord<T>(s: Sys<T>, r: Sys<T>, t: T, code: int)
    requires Tree(s) && t in s.task && t != s.init && Exited(s, t, code, r)
    ensures r.task[s.init].state == Blocked ==>
              s.task[s.init].state == Blocked && r.task[s.init].wait == s.task[s.init].wait
    ensures Asleep(s) ==>
              (Asleep(r) <==> !(s.task[t].parent == Some(s.init) && WaitsFor(s, s.init, s.task[t].pid)))
    ensures Asleep(r) ==> Asleep(s)
  {}

  lemma StaysBeside<T>(s: Sys<T>, r: Sys<T>, t: T, code: int)
    requires Tree(s) && t in s.task && t != s.init && t !in s.task[t].children && Exited(s, t, code, r)
    requires Oversleeps(s)
    ensures (Asleep(r) ==> Asleep(s)) && (Oversleeps(r) <==> Asleep(r))
  {
    hide AfterExit;
    InitRecord(s, r, t, code);
    var init, w := s.init, s.task[s.init].wait.pid;
    var c :| c in s.task[init].children && c in s.task && s.task[c].state == Zombie && (w == -1 || w == s.task[c].pid);
    assert Kin(s, init) && Kin(s, t);
    assert c in r.task[init].children && r.task[c].state == Zombie && r.task[c].pid == s.task[c].pid;
  }

  /** An exit or a fatal signal, with the switch that follows if the task was the running one. */
  lemma TerminateSleep<T>(s: Sys<T>, t: T, code: int)
    requires Inv(s) && t in s.task && t != s.init && t != s.idle && s.task[t].state != Zombie
    ensures var r := Terminate(s, t, code);
            && r.init == s.init && r.init in r.task && (Asleep(r) ==> Asleep(s))
            && (Oversleeps(r) <==> Asleep(r) && (Oversleeps(s) || LeavesOne(s, t)))
  {
    hide SleepsRightly, LeavesZombie, ExitTask, Yield, Exited, Tree, NoLostChild, NoLostKey;
    InvParts(s);
    Distinct(s, t);
    ExitRecords(s, t, code);
    var x := ExitTask(s, t, code);
    ExitSleep(s, x, t, code);
    ExitKeeps(s, t, code);
    if t == s.current {
      YieldOk(x);
      ScheduledSleep(x, Switch(Yield(x)));
    }
  }

  // ---------------------------------------------------------------- the other events

  lemma TickSleep<T>(s: Sys<T>)
    requires Inv(s)
    ensures var r := Handle(s, Tick);
            && r.init == s.init && r.init in r.task && (Asleep(r) ==> Asleep(s))
            && (Oversleeps(r) <==> Asleep(r) && Oversleeps(s))
  {
    hide Schedule, Tree, NoLostChild, SleepsRightly;
    var s1 := s.(ticks := s.ticks + 1);
    TickFree(s);
    TreeKept(s, s1) by { assert SameTree(s, s1); }
    SameSleep(s, s1);
    ScheduleOk(s1);
    ScheduledSleep(s1, Handle(s, Tick));
  }

  lemma KeySleep<T>(s: Sys<T>, c: int)
    requires Inv(s)
    ensures var r := Handle(s, Key(c));
            && r.init == s.init && r.init in r.task && (Asleep(r) ==> Asleep(s))
            && (Oversleeps(r) <==> Asleep(r) && Oversleeps(s))
  {
    hide Wake, NoLostChild, Located, SleepsRightly;
    InvParts(s);
    var s1 := if |s.keys| == KEYBOARD_CAPACITY then s else s.(keys := s.keys + [c]);
    KeysFree(s, s1.keys);
    WakeOk(s1, ForKeyboard);
    SameSleep(s, Handle(s, Key(c)));
  }

  lemma ForkSleep<T>(s: Sys<T>, child: T)
    requires Inv(s) && s.current != s.idle && child !in s.task
    ensures var r := Handle(s, Fork(child));
            && r.init == s.init && r.init in r.task && (Asleep(r) ==> Asleep(s))
            && (Oversleeps(r) <==> Asleep(r) && Oversleeps(s))
  {
    ForkOk(s, child);
    assert Kin(s, s.init);
  }

  /** The current task falls asleep with reason: if it is init, it does not oversleep. */
  lemma BlockSleep<T>(s: Sys<T>, w: Wait)
    requires Inv(s) && s.current != s.idle && !Oversleeps(s)
    requires w.ForChild? ==> forall c :: c in s.task[s.current].children && c in s.task && s.task[c].state == Zombie ==>
                               w.pid != -1 && w.pid != s.task[c].pid
    ensures var r := Switch(Yield(Block(s, s.current, w)));
            r.init == s.init && r.init in r.task && !Oversleeps(r)
  {
    hide Yield, NoLostChild, NoLostKey;
    var b := Block(s, s.current, w);
    BlockOk(s, s.current, w);
    assert SameTree(s, b);
    TreeKept(s, b);
    YieldOk(b);
    assert !Oversleeps(b);
    ScheduledSleep(b, Switch(Yield(b)));
  }

  /** Another task falls asleep. */
  lemma OtherBlocks<T>(s: Sys<T>, w: Wait)
    requires Inv(s) && s.current != s.idle && s.current != s.init
    ensures var r := Switch(Yield(Block(s, s.current, w)));
            && r.init == s.init && r.init in r.task && (Asleep(r) ==> Asleep(s))
            && (Oversleeps(r) <==> Asleep(r) && Oversleeps(s))
  {
    hide Yield, NoLostChild, NoLostKey, SleepsRightly;
    var b := Block(s, s.current, w);
    BlockOk(s, s.current, w);
    assert SameTree(s, b);
    TreeKept(s, b);
    SameSleep(s, b);
    YieldOk(b);
    ScheduledSleep(b, Switch(Yield(b)));
  }

  lemma Awake<T>(s: Sys<T>)
    requires Inv(s) && s.current == s.init
    ensures !Asleep(s) && !Oversleeps(s)
  {}

  lemma ReapSleep<T>(s: Sys<T>, c: T)
    requires Inv(s) && s.current != s.idle && c in s.task[s.current].children && c in s.task
             && s.task[c].state == Zombie
    ensures var r := Destroy(s, c);
            && r.init == s.init && r.init in r.task && (Asleep(r) ==> Asleep(s))
            && (Oversleeps(r) <==> Asleep(r) && Oversleeps(s))
  {
    hide Destroy, PartitionBut, NoLostChild, NoLostKey;
    InvParts(s);
    DestroyRecords(s, c);
    assert Kin(s, s.current) && Kin(s, s.init) && Kin(s, c);
    if s.current == s.init {
      Awake(s);
    } else {
      assert c !in s.task[s.init].children;
      assert Destroy(s, c).task[s.init] == s.task[s.init];
    }
  }

  lemma ReapsChild<T>(s: Sys<T>, pid: int)
    requires Shaped(s)
    ensures Reapable(s, pid).Some? ==> Reapable(s, pid).value in s.task[s.current].children
  {}

  lemma WaitSleep<T>(s: Sys<T>, pid: int)
    requires Inv(s) && s.current != s.idle
    ensures var r := Handle(s, WaitFor(pid));
            && r.init == s.init && r.init in r.task
            && (Oversleeps(r) <==> Asleep(r) && Oversleeps(s)) && (Oversleeps(r) ==> Asleep(s))
  {
    hide Inv, Destroy, Block, Yield, Reapable, SleepsRightly, Asleep;
    InvParts(s);
    ReapsChild(s, pid);
    OnlyAsleep(s);
    match Reapable(s, pid) {
      case Some(c) => ReapSleep(s, c);
      case None =>
        if pid == -1 || FindChild(s, s.task[s.current].children, pid) != None {
          NothingToReap(s, pid);
          if s.current == s.init { Awake(s); BlockSleep(s, ForChild(pid)); } else { OtherBlocks(s, ForChild(pid)); }
        }
    }
  }

  lemma OnlyAsleep<T>(s: Sys<T>)
    requires s.init in s.task
    ensures Oversleeps(s) ==> Asleep(s)
  {}

  lemma ReadSleep<T>(s: Sys<T>, n: nat)
    requires Inv(s) && s.current != s.idle
    ensures var r := Handle(s, Read(n));
            && r.init == s.init && r.init in r.task
            && (Oversleeps(r) <==> Asleep(r) && Oversleeps(s)) && (Oversleeps(r) ==> Asleep(s))
  {
    hide Block, Yield, SleepsRightly, NoLostChild, NoLostKey;
    OnlyAsleep(s);
    if n > 0 && s.keys == [] {
      if s.current == s.init { Awake(s); BlockSleep(s, ForKeyboard); } else { OtherBlocks(s, ForKeyboard); }
    } else {
      SameSleep(s, Handle(s, Read(n)));
    }
  }

  lemma DeliverSleep<T>(s: Sys<T>, t: T, sig: int, fits: bool)
    requires Inv(s) && Enabled(s, Deliver(t, sig, fits))
    ensures var r := Handle(s, Deliver(t, sig, fits));
            && r.init == s.init && r.init in r.task
            && (Oversleeps(r) <==> Asleep(r) && (Oversleeps(s) || Leaves(s, Deliver(t, sig, fits))))
            && (Oversleeps(r) ==> Asleep(s))
  {
    hide SleepsRightly, NoLostChild, NoLostKey, Yield, ExitTask;
    DeliverKeeps(s, t);
    var u := Unblock(s, t);
    UnblockSleep(s, t);
    if !fits { TerminateSleep(u, t, Signaled(sig)); }
  }

  lemma UnblockSleep<T>(s: Sys<T>, t: T)
    requires Inv(s) && Reachable(s, t)
    ensures var r := Unblock(s, t);
            && r.init == s.init && r.init in r.task && t in r.task && (Asleep(r) ==> Asleep(s))
            && (Oversleeps(r) <==> Asleep(r) && Oversleeps(s))
            && (t != s.init ==> (LeavesOne(r, t) <==> LeavesOne(s, t)))
  {
    hide SleepsRightly, NoLostChild, NoLostKey;
    if s.task[t].state == Blocked { UnblockOk(s, t); }
    var r := Unblock(s, t);
    SameSleep(s, r);
    assert Kin(s, t);
    assert forall c :: c in s.task[t].children ==>
             c in s.task && (r.task[c].state == Zombie <==> s.task[c].state == Zombie);
  }

  /** Each step: init oversleeps afterwards exactly if it is still asleep and overslept before, or was just left
      a zombie that it waits for. */
  lemma StepSleep<T>(s: Sys<T>, e: Event<T>)
    requires Inv(s) && Enabled(s, e)
    ensures var r := Handle(s, e);
            && r.init == s.init && r.init in r.task
            && (Oversleeps(r) <==> Asleep(r) && (Oversleeps(s) || Leaves(s, e)))
            && (Oversleeps(r) ==> Asleep(s))
  {
    hide SleepsRightly, LeavesZombie, Schedule, Yield, ExitTask, WaitPid, Block, KeyPress, Forked, NoLostChild,
         NoLostKey, Destroy;
    InvParts(s);
    match e
    case Tick => TickSleep(s);
    case Key(c) => KeySleep(s, c);
    case Fork(child) => ForkSleep(s, child);
    case Exit(code) => TerminateSleep(s, s.current, Returned(code));
    case WaitFor(pid) => WaitSleep(s, pid);
    case Read(n) => ReadSleep(s, n);
    case Kill(t, sig) => TerminateSleep(s, t, Signaled(sig));
    case Deliver(t, sig, fits) => DeliverSleep(s, t, sig, fits);
  }

  // ---------------------------------------------------------------- runs

  /** Init is asleep from the first state of the run to the last. */
  ghost predicate StaysAsleep<T>(s: Sys<T>, es: seq<Event<T>>)
    requires Inv(s) && Possible(s, es)
    decreases |es|
  {
    Asleep(s) && (es == [] || (StepKeeps(s, es[0]); StaysAsleep(Handle(s, es[0]), es[1..])))
  }

  /** Some exit of the run leaves init a zombie that it waits for, and from then on init is asleep to the end. */
  ghost predicate LeftOne<T>(s: Sys<T>, es: seq<Event<T>>)
    requires Inv(s) && Possible(s, es)
    decreases |es|
  {
    es != [] && (StepKeeps(s, es[0]);
                 || (Leaves(s, es[0]) && StaysAsleep(Handle(s, es[0]), es[1..]))
                 || LeftOne(Handle(s, es[0]), es[1..]))
  }

  lemma {:induction false} RunSleep<T>(s: Sys<T>, es: seq<Event<T>>)
    requires Inv(s) && Possible(s, es)
    ensures var r := After(s, es);
            r.init in r.task && (Oversleeps(r) <==> (Oversleeps(s) && StaysAsleep(s, es)) || LeftOne(s, es))
    decreases |es|
  {
    hide Inv, SleepsRightly, Leaves, Handle;
    InvParts(s);
    OnlyAsleep(s);
    if es != [] {
      StepKeeps(s, es[0]);
      StepSleep(s, es[0]);
      RunSleep(Handle(s, es[0]), es[1..]);
    }
  }

  /** In every run from boot, init sleeps beside a zombie that it waits for if and only if some exit since it
      fell asleep left it one. */
  lemma InitOversleepsIff<T>(idle: T, init: T, es: seq<Event<T>>)
    requires idle != init && Inv(Boot(idle, init)) && Possible(Boot(idle, init), es)
    ensures var r := After(Boot(idle, init), es);
            r.init in r.task && (Oversleeps(r) <==> LeftOne(Boot(idle, init), es))
  {
    RunSleep(Boot(idle, init), es);
  }
}
