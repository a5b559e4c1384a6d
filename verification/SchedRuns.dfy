/** Runs of the task manager: every interrupt or system call is one step, and the main results hold
    for every sequence of steps. */
module SchedRuns {
  import opened Options
  import opened Lists
  import opened SchedSpec
  import opened SchedInv
  import opened SchedLife

  /** One handler, from interrupt entry to the switch on its way out. System calls are made by the
      current task. `Kill` is a signal with the default action, `Deliver` one with a handler;
      `fits` says that the test of the stack passes (Signals.StackTest). */
  datatype Event<T> = Tick | Key(scancode: int) | Fork(child: T) | Exit(code: int) | WaitFor(pid: int)
                    | Read(length: nat) | Kill(target: T, sig: int) | Deliver(target: T, sig: int, fits: bool)

  ghost predicate Enabled<T>(s: Sys<T>, e: Event<T>) {
    match e
    case Tick => true
    case Key(_) => true
    case Fork(child) => s.current != s.idle && child !in s.task
    case Exit(_) => s.current != s.idle && s.current != s.init
    case WaitFor(_) => s.current != s.idle
    case Read(_) => s.current != s.idle
    case Kill(t, _) => s.current != s.idle && Killable(s, t)
    case Deliver(t, _, fits) => s.current != s.idle && (if fits then Reachable(s, t) else Killable(s, t))
  }

  /** Signals reach every live task of the tree. */
  ghost predicate Reachable<T>(s: Sys<T>, t: T) {
    t in s.task && t != s.idle && s.task[t].state != Zombie
  }

  /** In these runs init is never terminated; a handled signal may reach it. */
  ghost predicate Killable<T>(s: Sys<T>, t: T) { Reachable(s, t) && t != s.init }

  /** The status `waitpid` reports: `(code & 0xff) << 8` after exit, `sig & 0x7f` after a signal. */
  function Returned(code: int): int { code % 256 * 256 }
  function Signaled(sig: int): int { sig % 128 }

  function Terminate<T(==)>(s: Sys<T>, t: T, code: int): Sys<T>
    requires Shaped(s) && t in s.task
  {
    var r := ExitTask(s, t, code);
    if t == s.current then Switch(Yield(r)) else r
  }

  function Handle<T(==)>(s: Sys<T>, e: Event<T>): Sys<T>
    requires Shaped(s) && (e.Kill? || e.Deliver? ==> e.target in s.task)
  {
    match e
    case Tick => Switch(Schedule(s.(ticks := s.ticks + 1)))
    case Key(c) => KeyPress(s, c)
    case Fork(child) => Forked(s, child)
    case Exit(code) => Terminate(s, s.current, Returned(code))
    case WaitFor(pid) => Switch(WaitPid(s, pid))
    case Read(n) => Switch(ReadKeys(s, n))
    case Kill(t, sig) => Terminate(s, t, Signaled(sig))
    case Deliver(t, sig, fits) => if fits then Unblock(s, t) else Terminate(Unblock(s, t), t, Signaled(sig))
  }

  // ---------------------------------------------------------------- the process tree

  /** Parent and child lists agree around `t`; a zombie has no children left. */
  ghost predicate Kin<T>(s: Sys<T>, t: T)
    requires t in s.task
  {
    var r := s.task[t];
    && NoDup(r.children)
    && (forall c :: c in r.children ==> c in s.task && s.task[c].parent == Some(t))
    && (r.parent.Some? ==> r.parent.value in s.task && r.parent.value != t && t in s.task[r.parent.value].children)
    && (r.state == Zombie ==> r.children == [])
    && 0 <= r.pid < s.nextPid
  }

  ghost predicate Tree<T>(s: Sys<T>) {
    && s.init in s.task && s.idle in s.task && s.init != s.idle
    && s.task[s.init].parent == None && s.task[s.init].state != Zombie
    && s.task[s.idle].parent == None && s.task[s.idle].children == []
    && (forall t {:trigger Kin(s, t)} :: t in s.task ==> Kin(s, t))
    && (forall a, b {:trigger s.task[a].pid, s.task[b].pid} ::
          a in s.task && b in s.task && s.task[a].pid == s.task[b].pid ==> a == b)
  }

  /** If `t` sleeps in waitpid, none of its children is a zombie it waits for. */
  ghost predicate SleepsRightly<T>(s: Sys<T>, t: T)
    requires t in s.task
  {
    s.task[t].state == Blocked && s.task[t].wait.ForChild? ==>
      forall c :: c in s.task[t].children && c in s.task && s.task[c].state == Zombie ==>
        s.task[t].wait.pid != -1 && s.task[t].wait.pid != s.task[c].pid
  }

  /** No task but possibly init sleeps although a child is ready to be reaped. */
  ghost predicate NoLostChild<T>(s: Sys<T>) {
    forall t {:trigger SleepsRightly(s, t)} :: t in s.task && t != s.init ==> SleepsRightly(s, t)
  }

  /** Whoever sleeps on the keyboard does so because the ring is empty. */
  ghost predicate NoLostKey<T>(s: Sys<T>) {
    && |s.keys| <= KEYBOARD_CAPACITY
    && forall t {:trigger s.task[t]} :: t in s.task && s.task[t].state == Blocked && s.task[t].wait == ForKeyboard ==>
         s.keys == []
  }

  ghost predicate Inv<T>(s: Sys<T>) {
    Resting(s) && Tree(s) && NoLostChild(s) && NoLostKey(s) && s.lastBoost <= s.ticks < s.lastBoost + BOOST_INTERVAL
  }

  // ---------------------------------------------------------------- preservation: shared parts

  /** The fields the tree and the sleepers read are unchanged. */
  ghost predicate SameTree<T>(s: Sys<T>, r: Sys<T>) {
    && r.task.Keys == s.task.Keys && r.idle == s.idle && r.init == s.init && r.nextPid == s.nextPid
    && forall t {:trigger r.task[t]} {:trigger s.task[t]} :: t in s.task ==>
         && r.task[t].pid == s.task[t].pid && r.task[t].parent == s.task[t].parent
            && r.task[t].children == s.task[t].children
         && (r.task[t].state == Zombie <==> s.task[t].state == Zombie)
  }

  lemma TreeKept<T>(s: Sys<T>, r: Sys<T>)
    requires Tree(s) && SameTree(s, r)
    ensures Tree(r)
  {
    forall t | t in r.task ensures Kin(r, t) { assert Kin(s, t); }
  }

  /** Tasks asleep afterwards were asleep for the same reason before. */
  ghost predicate NoNewSleeper<T>(s: Sys<T>, r: Sys<T>) {
    forall t {:trigger r.task[t]} :: t in r.task && r.task[t].state == Blocked ==>
      t in s.task && s.task[t].state == Blocked && s.task[t].wait == r.task[t].wait
  }

  lemma SleepersKept<T>(s: Sys<T>, r: Sys<T>)
    requires Tree(s) && NoLostChild(s) && SameTree(s, r) && NoNewSleeper(s, r)
    ensures NoLostChild(r)
  {
    forall t | t in r.task && t != r.init ensures SleepsRightly(r, t) { assert SleepsRightly(s, t); }
  }

  /** A tick keeps the invariant. */
  lemma TickKeeps<T>(s: Sys<T>)
    requires Inv(s)
    ensures Inv(Handle(s, Tick))
  {
    hide Schedule, Tree, NoLostChild;
    var s1 := s.(ticks := s.ticks + 1);
    TickFree(s);
    assert Tree(s1) && NoLostChild(s1) by { TreeKept(s, s1); SleepersKept(s, s1); }
    ScheduleOk(s1);
    WorldKept(s1, Handle(s, Tick));
  }

  /** Scheduling keeps the tree, the sleepers and the keyboard. */
  lemma WorldKept<T>(s: Sys<T>, r: Sys<T>)
    requires Tree(s) && NoLostChild(s) && NoLostKey(s) && SameWorld(s, r)
    ensures Tree(r) && NoLostChild(r) && NoLostKey(r)
  {
    TreeKept(s, r);
    SleepersKept(s, r);
  }

  lemma TickFree<T>(s: Sys<T>)
    requires Resting(s)
    ensures MaySchedule(s.(ticks := s.ticks + 1))
  {
    var r := s.(ticks := s.ticks + 1);
    forall x | x in r.task && x != r.idle ensures Located(r, x) { assert Located(s, x); }
  }

  /** Setting the yield flag of the current task prepares a call of `schedule`. */
  lemma YieldReady<T>(s: Sys<T>)
    requires Partition(s) && Calm(s) && 1 <= s.task[s.current].slice <= 32
    ensures var y := Put(s, s.current, s.task[s.current].(yielding := true)); MaySchedule(y) && SameWorld(s, y)
  {
    Tweak(s, s.current, s.task[s.current].(yielding := true));
  }

  /** Yielding returns to a resting state and touches nothing but the schedule. */
  lemma YieldOk<T>(s: Sys<T>)
    requires Partition(s) && Calm(s) && 1 <= s.task[s.current].slice <= 32
    ensures var r := Switch(Yield(s));
            Resting(r) && SameWorld(s, r) && r.lastBoost == (if BoostDue(s) then s.ticks else s.lastBoost)
  {
    YieldReady(s);
    var y := Put(s, s.current, s.task[s.current].(yielding := true));
    ScheduleOk(y);
    SameWorldTrans(s, y, Switch(Yield(s)));
  }

  // ---------------------------------------------------------------- exit

  lemma Distinct<T>(s: Sys<T>, t: T)
    requires Tree(s) && t in s.task && t != s.idle
    ensures s.task[t].parent != Some(t) && t !in s.task[t].children && s.task[t].parent != Some(s.idle)
  {
    assert Kin(s, t);
    assert Kin(s, s.idle);
  }

  /** `r` has the records that the exit of `t` leaves. */
  ghost predicate Exited<T>(s: Sys<T>, t: T, code: int, r: Sys<T>)
    requires t in s.task
  {
    && r.task.Keys == s.task.Keys && r == s.(q := r.q, task := r.task)
    && forall x {:trigger r.task[x]} {:trigger s.task[x]} :: x in s.task ==> r.task[x] == AfterExit(s, t, code, x)
  }

  /** Around every other task an exit keeps the tree consistent. */
  lemma ExitKin<T>(s: Sys<T>, r: Sys<T>, t: T, code: int, x: T)
    requires Tree(s) && t in s.task && t != s.init && t !in s.task[t].children && Exited(s, t, code, r)
    requires x in s.task && x != s.init
    ensures Kin(r, x)
  {
    hide AfterExit;
    var kids := s.task[t].children;
    assert Kin(s, x) && Kin(s, t);
    if x in kids { ReversedMember(kids, x); }
    if s.task[x].parent.Some? { assert Kin(s, s.task[x].parent.value); }
  }

  /** Init takes over the children of the exiting task. */
  lemma ExitKinInit<T>(s: Sys<T>, r: Sys<T>, t: T, code: int)
    requires Tree(s) && t in s.task && t != s.init && t !in s.task[t].children && Exited(s, t, code, r)
    ensures Kin(r, s.init)
  {
    hide AfterExit;
    var kids := s.task[t].children;
    assert Kin(s, s.init) && Kin(s, t);
    ReversedNoDup(kids);
    forall y ensures y in Reversed(kids) <==> y in kids { ReversedMember(kids, y); }
    ConcatDisjoint(Reversed(kids), s.task[s.init].children);
  }

  lemma ExitTree<T>(s: Sys<T>, r: Sys<T>, t: T, code: int)
    requires Tree(s) && t in s.task && t != s.init && t != s.idle && Exited(s, t, code, r)
    ensures Tree(r)
  {
    hide AfterExit;
    Distinct(s, t);
    forall x | x in r.task ensures Kin(r, x) {
      if x == s.init { ExitKinInit(s, r, t, code); } else { ExitKin(s, r, t, code, x); }
    }
    assert Kin(s, t);
  }

  /** The parent of the exiting task is woken exactly if it waits for it, so nobody but init can be
      left asleep beside a zombie. */
  lemma ExitSleepers<T>(s: Sys<T>, r: Sys<T>, t: T, code: int)
    requires Tree(s) && t in s.task && NoLostChild(s) && Exited(s, t, code, r)
    ensures NoLostChild(r)
  {
    hide AfterExit;
    forall x | x in r.task && x != r.init ensures SleepsRightly(r, x) {
      assert SleepsRightly(s, x) && Kin(s, x);
    }
  }

  /** The exiting task has a zombie child that init waits for. */
  ghost predicate LeavesZombie<T>(s: Sys<T>, t: T)
    requires t in s.task && s.init in s.task && s.task[s.init].wait.ForChild?
  {
    exists c :: c in s.task[t].children && c in s.task && s.task[c].state == Zombie
      && (s.task[s.init].wait.pid == -1 || s.task[s.init].wait.pid == s.task[c].pid)
  }

  /** Init is left asleep beside a zombie exactly when the exiting task leaves it one that it waits
      for while its own exit does not wake init. */
  lemma InitSleepsExactly<T>(s: Sys<T>, r: Sys<T>, t: T, code: int)
    requires Tree(s) && t in s.task && t != s.init && SleepsRightly(s, s.init) && Exited(s, t, code, r)
    ensures SleepsRightly(r, s.init) <==>
            !( && s.task[s.init].state == Blocked && s.task[s.init].wait.ForChild?
               && !(s.task[t].parent == Some(s.init) && WaitsFor(s, s.init, s.task[t].pid))
               && LeavesZombie(s, t))
  {
    hide AfterExit;
    var kids, init := s.task[t].children, s.init;
    assert Kin(s, t) && Kin(s, init) && t !in kids;
    forall y ensures y in Reversed(kids) <==> y in kids { ReversedMember(kids, y); }
    if r.task[init].state == Blocked && r.task[init].wait.ForChild? {
      var w := s.task[init].wait.pid;
      forall c | c in r.task[init].children && c !in kids && c in r.task && r.task[c].state == Zombie
        ensures w != -1 && w != r.task[c].pid {
        assert c in s.task[init].children;
      }
      if LeavesZombie(s, t) {
        var c :| c in kids && c in s.task && s.task[c].state == Zombie && (w == -1 || w == s.task[c].pid);
        assert c in Reversed(kids) && c in r.task[init].children;
        assert r.task[c].state == Zombie;
      } else {
        forall c | c in kids && c in r.task && r.task[c].state == Zombie ensures w != -1 && w != r.task[c].pid {
          assert c != t ==> s.task[c].state == Zombie;
          assert Kin(s, c);
        }
      }
    }
  }

  /** After an exit: everything but the schedule is in order, and the slice is untouched. */
  lemma ExitKeeps<T>(s: Sys<T>, t: T, code: int)
    requires Inv(s) && t in s.task && t != s.init && t != s.idle && s.task[t].state != Zombie
    ensures var r := ExitTask(s, t, code);
            && Partition(r) && Calm(r) && Tree(r) && NoLostChild(r) && NoLostKey(r)
            && r == s.(q := r.q, task := r.task)
            && s.current in r.task && r.task[s.current].slice == s.task[s.current].slice
            && (t != s.current ==> Resting(r))
  {
    Distinct(s, t);
    ExitRecords(s, t, code);
    var r := ExitTask(s, t, code);
    ExitOk(s, t, code);
    ExitCalm(s, r, t, code);
    ExitTree(s, r, t, code);
    ExitSleepers(s, r, t, code);
  }

  lemma ExitCalm<T>(s: Sys<T>, r: Sys<T>, t: T, code: int)
    requires Resting(s) && NoLostKey(s) && t in s.task && t != s.idle && Exited(s, t, code, r)
    ensures Calm(r) && NoLostKey(r) && r.task[s.current].slice == s.task[s.current].slice
    ensures !r.task[s.current].yielding && (t != s.current ==> r.task[s.current].state == Running)
  {
    hide AfterExit;
  }

  lemma TerminateKeeps<T>(s: Sys<T>, t: T, code: int)
    requires Inv(s) && t in s.task && t != s.init && t != s.idle && s.task[t].state != Zombie
    ensures Inv(Terminate(s, t, code))
  {
    ExitKeeps(s, t, code);
    var r := ExitTask(s, t, code);
    if t == s.current {
      YieldOk(r);
      WorldKept(r, Switch(Yield(r)));
    }
  }

  // ---------------------------------------------------------------- sleeping

  /** Falling asleep is safe when the reason to sleep is real. */
  lemma SleepKeeps<T>(s: Sys<T>, w: Wait)
    requires Inv(s) && s.current != s.idle
    requires w.ForChild? ==> forall c :: c in s.task[s.current].children && c in s.task && s.task[c].state == Zombie ==>
                               w.pid != -1 && w.pid != s.task[c].pid
    requires w == ForKeyboard ==> s.keys == []
    ensures Inv(Switch(Yield(Block(s, s.current, w))))
  {
    var b := Block(s, s.current, w);
    BlockOk(s, s.current, w);
    AsleepWorld(s, b, w);
    YieldOk(b);
    WorldKept(b, Switch(Yield(b)));
  }

  lemma AsleepWorld<T>(s: Sys<T>, b: Sys<T>, w: Wait)
    requires Tree(s) && NoLostChild(s) && NoLostKey(s) && s.current in s.task && s.task[s.current].state == Running
    requires w.ForChild? ==> forall c :: c in s.task[s.current].children && c in s.task && s.task[c].state == Zombie ==>
                               w.pid != -1 && w.pid != s.task[c].pid
    requires w == ForKeyboard ==> s.keys == []
    requires b == s.(q := b.q, task := s.task[s.current := s.task[s.current].(state := Blocked, wait := w, level := 4)])
    ensures Tree(b) && NoLostChild(b) && NoLostKey(b)
  {
    assert SameTree(s, b);
    TreeKept(s, b);
    forall t | t in b.task && t != b.init ensures SleepsRightly(b, t) {
      if t != s.current { assert SleepsRightly(s, t); }
    }
  }

  lemma ReadKeeps<T>(s: Sys<T>, n: nat)
    requires Inv(s) && s.current != s.idle
    ensures Inv(Handle(s, Read(n)))
  {
    if n > 0 && s.keys == [] {
      SleepKeeps(s, ForKeyboard);
    } else {
      var r := Handle(s, Read(n));
      KeysFree(s, r.keys);
      TreeKept(s, r);
      SleepersKept(s, r);
    }
  }

  lemma KeysFree<T>(s: Sys<T>, keys: seq<int>)
    requires Resting(s)
    ensures Resting(s.(keys := keys))
  {
    var r := s.(keys := keys);
    forall x | x in r.task && x != r.idle ensures Located(r, x) { assert Located(s, x); }
  }

  /** A key press leaves nobody asleep on the keyboard. */
  lemma KeyKeeps<T>(s: Sys<T>, c: int)
    requires Inv(s)
    ensures Inv(Handle(s, Key(c)))
  {
    hide Wake, Tree, NoLostChild, Located;
    InvParts(s);
    var s1 := if |s.keys| == KEYBOARD_CAPACITY then s else s.(keys := s.keys + [c]);
    KeysFree(s, s1.keys);
    WakeOk(s1, ForKeyboard);
    WokenWorld(s, Handle(s, Key(c)));
  }

  /** Readying some sleepers and storing keys is harmless once nobody sleeps on the keyboard. */
  lemma WokenWorld<T>(s: Sys<T>, r: Sys<T>)
    requires Tree(s) && NoLostChild(s) && r.task.Keys == s.task.Keys
             && r == s.(q := r.q, task := r.task, keys := r.keys)
    requires forall t {:trigger r.task[t]} {:trigger s.task[t]} :: t in s.task ==>
               r.task[t] == s.task[t] || (s.task[t].state == Blocked
                   && r.task[t] == s.task[t].(state := Ready, level := 0))
    ensures Tree(r) && NoLostChild(r)
  {
    TreeKept(s, r);
    SleepersKept(s, r);
  }

  // ---------------------------------------------------------------- fork, waitpid, signals

  lemma ForkKeeps<T>(s: Sys<T>, child: T)
    requires Inv(s) && s.current != s.idle && child !in s.task
    ensures Inv(Handle(s, Fork(child)))
  {
    ForkOk(s, child);
    ForkTree(s, child);
    var r := Forked(s, child);
    forall t | t in r.task && t != r.init ensures SleepsRightly(r, t) {
      if t != child { assert SleepsRightly(s, t); }
    }
  }

  lemma ForkTree<T>(s: Sys<T>, child: T)
    requires Shaped(s) && Tree(s) && s.current != s.idle && child !in s.task && s.task[s.current].state == Running
    ensures Tree(Forked(s, child))
  {
    var r := Forked(s, child);
    assert Kin(s, s.current);
    forall t | t in r.task ensures Kin(r, t) {
      if t != child {
        assert Kin(s, t);
        if t == s.current { AppendNoDup(s.task[t].children, child); }
        if s.task[t].parent.Some? { assert Kin(s, s.task[t].parent.value); }
      }
    }
    forall a | a in s.task ensures s.task[a].pid < s.nextPid { assert Kin(s, a); }
  }

  /** Reaping `c` removes it and takes it off its parent's list; no other record changes. */
  lemma DestroyRecords<T>(s: Sys<T>, c: T)
    requires Shaped(s) && Tree(s) && c in s.task
    ensures var r := Destroy(s, c);
            && r.task.Keys == s.task.Keys - {c} && r == s.(q := r.q, task := r.task)
            && forall t {:trigger r.task[t]} :: t in r.task ==>
                 r.task[t] == s.task[t].(children := Remove(s.task[t].children, c))
  {
    assert Kin(s, c);
    var r := Destroy(s, c);
    forall t | t in r.task ensures r.task[t] == s.task[t].(children := Remove(s.task[t].children, c)) {
      assert Kin(s, t);
    }
  }

  lemma DestroyKin<T>(s: Sys<T>, r: Sys<T>, c: T, t: T)
    requires Tree(s) && c in s.task && s.task[c].children == [] && t in r.task && r.nextPid == s.nextPid
    requires r.task.Keys == s.task.Keys - {c}
    requires forall x {:trigger r.task[x]} :: x in r.task ==>
               r.task[x] == s.task[x].(children := Remove(s.task[x].children, c))
    ensures Kin(r, t)
  {
    assert Kin(s, t);
    RemoveNoDup(s.task[t].children, c);
    forall x ensures x in Remove(s.task[t].children, c) <==> x in s.task[t].children && x != c {
      RemoveMember(s.task[t].children, c, x);
    }
    if s.task[t].parent.Some? {
      assert Kin(s, s.task[t].parent.value);
      RemoveMember(s.task[s.task[t].parent.value].children, c, t);
    }
  }

  lemma DestroyTree<T>(s: Sys<T>, c: T)
    requires Shaped(s) && Tree(s) && c in s.task && s.task[c].state == Zombie && c != s.idle
    ensures Tree(Destroy(s, c))
  {
    hide Destroy;
    DestroyRecords(s, c);
    var r := Destroy(s, c);
    assert Kin(s, c);
    forall t | t in r.task ensures Kin(r, t) { DestroyKin(s, r, c, t); }
  }

  lemma DestroyKeeps<T>(s: Sys<T>, c: T)
    requires Inv(s) && c in s.task && s.task[c].state == Zombie && c != s.idle
    ensures Inv(Destroy(s, c))
  {
    assert Kin(s, c);
    DestroyOk(s, c);
    DestroyTree(s, c);
    DestroyRest(s, c);
  }

  lemma DestroyRest<T>(s: Sys<T>, c: T)
    requires Shaped(s) && Tree(s) && Calm(s) && NoLostChild(s) && NoLostKey(s) && c in s.task && c != s.idle
             && c != s.current
    ensures var r := Destroy(s, c);
            && Calm(r) && NoLostChild(r) && NoLostKey(r) && s.current in r.task
            && r.task[s.current].slice == s.task[s.current].slice && r.task[s.current].state == s.task[s.current].state
            && r.task[s.current].yielding == s.task[s.current].yielding
  {
    hide Destroy;
    DestroyRecords(s, c);
    var r := Destroy(s, c);
    forall t | t in r.task && t != r.init ensures SleepsRightly(r, t) {
      assert SleepsRightly(s, t) && Kin(s, t);
      RemoveSubset(s.task[t].children, c);
    }
  }

  /** When waitpid finds nothing to reap, no child matches what it is about to wait for. */
  lemma NothingToReap<T>(s: Sys<T>, pid: int)
    requires Shaped(s) && Tree(s) && Reapable(s, pid) == None
    ensures forall c :: c in s.task[s.current].children && c in s.task && s.task[c].state == Zombie ==>
              pid != -1 && pid != s.task[c].pid
  {
    assert Kin(s, s.current);
  }

  lemma WaitKeeps<T>(s: Sys<T>, pid: int)
    requires Inv(s) && s.current != s.idle
    ensures Inv(Handle(s, WaitFor(pid)))
  {
    hide Inv, Destroy, Block, Yield, Reapable;
    InvParts(s);
    match Reapable(s, pid) {
      case Some(c) => DestroyKeeps(s, c);
      case None =>
        if pid == -1 || FindChild(s, s.task[s.current].children, pid) != None {
          NothingToReap(s, pid);
          SleepKeeps(s, ForChild(pid));
        }
    }
  }

  lemma InvParts<T>(s: Sys<T>)
    requires Inv(s)
    ensures Shaped(s) && Partition(s) && Tree(s) && !s.switching
    ensures forall pid :: Reapable(s, pid).Some? ==>
              Reapable(s, pid).value != s.idle && !Destroy(s, Reapable(s, pid).value).switching
  {}

  lemma DeliverKeeps<T>(s: Sys<T>, t: T)
    requires Inv(s) && Reachable(s, t)
    ensures Inv(Unblock(s, t)) && Reachable(Unblock(s, t), t) && Unblock(s, t).current == s.current
            && Unblock(s, t).init == s.init
  {
    if s.task[t].state == Blocked {
      UnblockOk(s, t);
      WokenWorld(s, Unblock(s, t));
    }
  }

  // ---------------------------------------------------------------- runs

  lemma StepKeeps<T>(s: Sys<T>, e: Event<T>)
    requires Inv(s) && Enabled(s, e)
    ensures Inv(Handle(s, e))
  {
    match e
    case Tick => TickKeeps(s);
    case Key(c) => KeyKeeps(s, c);
    case Fork(child) => ForkKeeps(s, child);
    case Exit(code) => TerminateKeeps(s, s.current, Returned(code));
    case WaitFor(pid) => WaitKeeps(s, pid);
    case Read(n) => ReadKeeps(s, n);
    case Kill(t, sig) => TerminateKeeps(s, t, Signaled(sig));
    case Deliver(t, sig, fits) =>
      DeliverKeeps(s, t);
      if !fits { TerminateKeeps(Unblock(s, t), t, Signaled(sig)); }
  }

  /** The events of `es` can happen one after the other, starting from `s`. */
  ghost predicate Possible<T>(s: Sys<T>, es: seq<Event<T>>)
    requires Inv(s)
    decreases |es|
  {
    es == [] || (Enabled(s, es[0]) && (StepKeeps(s, es[0]); Possible(Handle(s, es[0]), es[1..])))
  }

  ghost function After<T>(s: Sys<T>, es: seq<Event<T>>): (r: Sys<T>)
    requires Inv(s) && Possible(s, es)
    decreases |es|
  {
    if es == [] then s else StepKeeps(s, es[0]); After(Handle(s, es[0]), es[1..])
  }

  /** In every reachable state each task is in exactly one place matching its state, the running task
      has between 1 and 32 ticks left, the process tree is consistent, no task but possibly init
      sleeps beside a child it could reap, and nobody sleeps on a keyboard with keys in it. */
  lemma {:induction false} RunsAreSafe<T>(s: Sys<T>, es: seq<Event<T>>)
    requires Inv(s) && Possible(s, es)
    ensures Inv(After(s, es))
    decreases |es|
  {
    if es != [] {
      StepKeeps(s, es[0]);
      RunsAreSafe(Handle(s, es[0]), es[1..]);
    }
  }

  // ---------------------------------------------------------------- bounded waiting

  ghost predicate IsReady<T>(s: Sys<T>, t: T) { t in s.task && s.task[t].state == Ready }

  /** `q'` still holds `t`, no further back than `q` does. */
  ghost predicate NotPushedBack<T>(q: seq<T>, q': seq<T>, t: T) { t in q && t in q' && IndexOf(q', t) <= IndexOf(q, t) }

  lemma PrefixKeeps<T>(q: seq<T>, q': seq<T>, t: T)
    requires t in q && q <= q'
    ensures NotPushedBack(q, q', t)
  {
    AppendIndex(q, q'[|q|..], t);
    assert q' == q + q'[|q|..];
  }

  /** An exit of another task moves nobody back in queue 0. */
  lemma ExitQueue<T>(s: Sys<T>, x: T, code: int, t: T)
    requires Partition(s) && Tree(s) && x in s.task && x != s.idle && s.task[x].state != Zombie && t in s.q[0] && t != x
    ensures NotPushedBack(s.q[0], ExitTask(s, x, code).q[0], t)
  {
    Distinct(s, x);
    ExitOk(s, x, code);
    DetachedOk(s, x);
    BuriedPartition(s, x, code);
    var s4 := Enqueue(Orphaned(s, x, code), 5, x);
    var front := if s.task[x].state == Ready && s.task[x].level == 0 then Remove(s.q[0], x) else s.q[0];
    assert s4.q[0] == front;
    RemoveIndex(s.q[0], x, t);
    RemoveMember(s.q[0], x, t);
    assert front <= ExitTask(s, x, code).q[0] by {
      match s4.task[x].parent
      case None =>
      case Some(p) => if WaitsFor(s4, p, s4.task[x].pid) { UnblockOk(s4, p); }
    }
    PrefixKeeps(front, ExitTask(s, x, code).q[0], t);
  }

  /** Yielding brings a task in queue 0 closer, or dispatches it. */
  lemma YieldRank<T>(s: Sys<T>, t: T)
    requires Partition(s) && Calm(s) && 1 <= s.task[s.current].slice <= 32 && t in s.q[0]
    ensures var r := Switch(Yield(s)); r.current == t || (t in r.q[0] && Shaped(r) && Rank(r, t) < Rank(s, t))
  {
    YieldReady(s);
    ScheduleRank(Put(s, s.current, s.task[s.current].(yielding := true)), t);
  }

  lemma TerminateRank<T>(s: Sys<T>, x: T, code: int, t: T)
    requires Inv(s) && Killable(s, x) && t in s.q[0] && IsReady(Terminate(s, x, code), t)
    ensures var r := Terminate(s, x, code); Shaped(r) && t in r.q[0] && Rank(r, t) <= Rank(s, t)
  {
    ExitKeeps(s, x, code);
    TerminateKeeps(s, x, code);
    var r := ExitTask(s, x, code);
    if x == t {
      Distinct(s, x);
      ExitRecords(s, x, code);
      assert false;
    }
    ExitQueue(s, x, code, t);
    if x == s.current { YieldRank(r, t); }
  }

  /** No event pushes a waiting task of queue 0 back, and every tick brings it strictly closer. */
  lemma StepRank<T>(s: Sys<T>, e: Event<T>, t: T)
    requires Inv(s) && Enabled(s, e) && t in s.q[0] && IsReady(Handle(s, e), t)
    ensures var r := Handle(s, e);
            Shaped(r) && t in r.q[0] && Rank(r, t) + (if e.Tick? then 1 else 0) <= Rank(s, t)
  {
    hide PartitionBut, Calm, Tree, NoLostChild, NoLostKey, Schedule, Yield, ExitTask, WaitPid, Block, KeyPress, Forked;
    StepKeeps(s, e);
    InvParts(s);
    InvParts(Handle(s, e));
    match e
    case Tick => TickFree(s); ScheduleRank(s.(ticks := s.ticks + 1), t);
    case Key(c) => KeyRank(s, c, t);
    case Fork(child) => ForkRank(s, child, t);
    case Exit(code) => TerminateRank(s, s.current, Returned(code), t);
    case WaitFor(pid) => WaitRank(s, pid, t);
    case Read(n) => if n > 0 && s.keys == [] { SleepRank(s, ForKeyboard, t); }
    case Kill(x, sig) => TerminateRank(s, x, Signaled(sig), t);
    case Deliver(x, sig, fits) =>
      DeliverKeeps(s, x);
      DeliverRank(s, x, t);
      if !fits { TerminateRank(Unblock(s, x), x, Signaled(sig), t); }
  }

  lemma ForkRank<T>(s: Sys<T>, child: T, t: T)
    requires Inv(s) && child !in s.task && t in s.q[0]
    ensures var r := Forked(s, child); t in r.q[0] && Rank(r, t) <= Rank(s, t)
  {
    ForkOk(s, child);
    PrefixKeeps(s.q[0], Forked(s, child).q[0], t);
  }

  lemma KeyRank<T>(s: Sys<T>, c: int, t: T)
    requires Inv(s) && t in s.q[0]
    ensures var r := Handle(s, Key(c)); Shaped(r) && t in r.q[0] && Rank(r, t) <= Rank(s, t)
  {
    KeyKeeps(s, c);
    var s1 := if |s.keys| == KEYBOARD_CAPACITY then s else s.(keys := s.keys + [c]);
    KeysFree(s, s1.keys);
    WakeOk(s1, ForKeyboard);
    PrefixKeeps(s.q[0], Handle(s, Key(c)).q[0], t);
  }

  lemma SleepRank<T>(s: Sys<T>, w: Wait, t: T)
    requires Inv(s) && s.current != s.idle && t in s.q[0] && IsReady(Switch(Yield(Block(s, s.current, w))), t)
    ensures var r := Switch(Yield(Block(s, s.current, w))); t in r.q[0] && Shaped(r) && Rank(r, t) < Rank(s, t)
  {
    BlockOk(s, s.current, w);
    YieldRank(Block(s, s.current, w), t);
    YieldOk(Block(s, s.current, w));
  }

  lemma WaitRank<T>(s: Sys<T>, pid: int, t: T)
    requires Inv(s) && s.current != s.idle && t in s.q[0] && IsReady(Handle(s, WaitFor(pid)), t)
    ensures var r := Handle(s, WaitFor(pid)); Shaped(r) && t in r.q[0] && Rank(r, t) <= Rank(s, t)
  {
    hide PartitionBut, Calm, Tree, NoLostChild, NoLostKey, Yield, Block, Destroy;
    WaitKeeps(s, pid);
    InvParts(s);
    InvParts(Handle(s, WaitFor(pid)));
    match Reapable(s, pid) {
      case Some(c) => ReapRank(s, c, t);
      case None =>
        if pid == -1 || FindChild(s, s.task[s.current].children, pid) != None { SleepRank(s, ForChild(pid), t); }
    }
  }

  lemma ReapRank<T>(s: Sys<T>, c: T, t: T)
    requires Inv(s) && c in s.task && s.task[c].state == Zombie && c != s.idle && t in s.q[0]
    ensures var r := Destroy(s, c); Shaped(r) && t in r.q[0] && Rank(r, t) <= Rank(s, t)
  {
    assert Kin(s, c);
    DestroyOk(s, c);
    DestroyRecords(s, c);
  }

  lemma DeliverRank<T>(s: Sys<T>, x: T, t: T)
    requires Inv(s) && Reachable(s, x) && t in s.q[0]
    ensures var r := Unblock(s, x); t in r.q[0] && Rank(r, t) <= Rank(s, t)
  {
    if s.task[x].state == Blocked {
      UnblockOk(s, x);
      PrefixKeeps(s.q[0], Unblock(s, x).q[0], t);
    }
  }

  function Ticks<T>(es: seq<Event<T>>): nat {
    if es == [] then 0 else (if es[0].Tick? then 1 else 0) + Ticks(es[1..])
  }

  /** `t` is ready, and not dispatched, in every state of the run. */
  ghost predicate Starves<T>(s: Sys<T>, es: seq<Event<T>>, t: T)
    requires Inv(s) && Possible(s, es)
    decreases |es|
  {
    IsReady(s, t) && (es != [] ==> (StepKeeps(s, es[0]); Starves(Handle(s, es[0]), es[1..], t)))
  }

  /** A task in queue 0 is dispatched before its rank runs out. */
  lemma {:induction false} WaitsInQueue0<T>(s: Sys<T>, es: seq<Event<T>>, t: T)
    requires Inv(s) && Possible(s, es) && Starves(s, es, t) && t in s.q[0]
    ensures Ticks(es) < Rank(s, t)
    decreases |es|
  {
    if es != [] {
      StepKeeps(s, es[0]);
      assert Starves(Handle(s, es[0]), es[1..], t);
      StepRank(s, es[0], t);
      WaitsInQueue0(Handle(s, es[0]), es[1..], t);
    }
  }

  // ---------------------------------------------------------------- boost

  /** A boost puts every ready task that it does not dispatch into queue 0. */
  lemma BoostBrings<T>(s: Sys<T>, t: T)
    requires MaySchedule(s) && BoostDue(s) && IsReady(s, t) && IsReady(Switch(Schedule(s)), t) && t != s.idle
    ensures t in Switch(Schedule(s)).q[0]
  {
    var b := Boosted(s);
    BoostOk(s);
    assert Located(s, t);
    assert t in b.q[0];
    assert Boosted(b) == b;
    assert Schedule(s) == Schedule(b);
    ScheduleRank(b, t);
    ScheduleOk(b);
  }

  lemma TerminateClock<T>(s: Sys<T>, t: T, code: int)
    requires Inv(s) && Killable(s, t)
    ensures Terminate(s, t, code).ticks == s.ticks && Terminate(s, t, code).lastBoost == s.lastBoost
  {
    ExitKeeps(s, t, code);
    if t == s.current { YieldOk(ExitTask(s, t, code)); }
  }

  lemma SleepClock<T>(s: Sys<T>, w: Wait)
    requires Inv(s) && s.current != s.idle
    ensures var r := Switch(Yield(Block(s, s.current, w))); r.ticks == s.ticks && r.lastBoost == s.lastBoost
  {
    BlockOk(s, s.current, w);
    YieldOk(Block(s, s.current, w));
  }

  lemma WaitClock<T>(s: Sys<T>, pid: int)
    requires Inv(s) && s.current != s.idle
    ensures var r := Handle(s, WaitFor(pid)); r.ticks == s.ticks && r.lastBoost == s.lastBoost
  {
    hide PartitionBut, Calm, Tree, NoLostChild, NoLostKey, Yield, Block, Reapable;
    InvParts(s);
    if Reapable(s, pid) == None && (pid == -1 || FindChild(s, s.task[s.current].children, pid) != None) {
      SleepClock(s, ForChild(pid));
    }
  }

  /** Only ticks move the clock, and only a tick can boost. */
  lemma StepClock<T>(s: Sys<T>, e: Event<T>)
    requires Inv(s) && Enabled(s, e)
    ensures var r := Handle(s, e);
            && r.ticks == s.ticks + (if e.Tick? then 1 else 0)
            && r.lastBoost == (if e.Tick? && s.ticks + 1 - s.lastBoost >= BOOST_INTERVAL then s.ticks + 1
                 else s.lastBoost)
  {
    hide PartitionBut, Calm, Tree, NoLostChild, NoLostKey, Schedule, Yield, Block, ExitTask, Shaped;
    InvParts(s);
    match e
    case Tick => TickFree(s); ScheduleOk(s.(ticks := s.ticks + 1));
    case Key(c) =>
    case Fork(child) =>
    case Exit(code) => TerminateClock(s, s.current, Returned(code));
    case WaitFor(pid) => WaitClock(s, pid);
    case Read(n) => if n > 0 && s.keys == [] { SleepClock(s, ForKeyboard); }
    case Kill(x, sig) => TerminateClock(s, x, Signaled(sig));
    case Deliver(x, sig, fits) =>
      DeliverKeeps(s, x);
      if !fits { TerminateClock(Unblock(s, x), x, Signaled(sig)); }
  }

  ghost predicate InQueue0<T>(s: Sys<T>, t: T) { |s.q| == 6 && t in s.q[0] }

  /** Ticks left until the next boost. */
  ghost function BoostIn<T>(s: Sys<T>): int { s.lastBoost + BOOST_INTERVAL - s.ticks }

  /** A ready task is in queue 0 after the step, or the boost has come one tick closer if it was a tick. */
  lemma StepLower<T>(s: Sys<T>, e: Event<T>, t: T)
    requires Inv(s) && Enabled(s, e) && IsReady(s, t) && t != s.idle && IsReady(Handle(s, e), t)
    ensures var r := Handle(s, e); InQueue0(r, t) || BoostIn(r) == BoostIn(s) - (if e.Tick? then 1 else 0)
  {
    hide PartitionBut, Calm, Tree, NoLostChild, NoLostKey, Schedule, Yield, ExitTask, WaitPid, Block;
    StepKeeps(s, e);
    InvParts(s);
    InvParts(Handle(s, e));
    StepClock(s, e);
    if e.Tick? && s.ticks + 1 - s.lastBoost >= BOOST_INTERVAL {
      TickFree(s);
      BoostBrings(s.(ticks := s.ticks + 1), t);
    }
  }

  /** In any run in which `t` stays ready without being dispatched there is a point, at most 5000 ticks
      in, from which on `t` is in queue 0, and fewer than 32 + 4 * (tasks ahead of it there) ticks
      follow. If there is no such point, the run has fewer than 5000 ticks. */
  lemma {:induction false} BoundedWaiting<T>(s: Sys<T>, es: seq<Event<T>>, t: T) returns (n: nat)
    requires Inv(s) && Possible(s, es) && Starves(s, es, t) && t != s.idle
    ensures n <= |es| && Possible(s, es[..n]) && Ticks(es[..n]) <= BOOST_INTERVAL
    ensures !InQueue0(After(s, es[..n]), t) ==> n == |es| && Ticks(es) < BOOST_INTERVAL
    ensures InQueue0(After(s, es[..n]), t) ==> Ticks(es[n..]) < 32 + 4 * IndexOf(After(s, es[..n]).q[0], t)
  {
    n := Reaches(s, es, t);
    var r := After(s, es[..n]);
    RunsAreSafe(s, es[..n]);
    if t in r.q[0] {
      SplitRun(s, es, t, n);
      WaitsInQueue0(r, es[n..], t);
    } else {
      assert es[..n] == es;
    }
  }

  lemma {:induction false} Reaches<T>(s: Sys<T>, es: seq<Event<T>>, t: T) returns (n: nat)
    requires Inv(s) && Possible(s, es) && Starves(s, es, t) && t != s.idle
    ensures n <= |es| && Possible(s, es[..n]) && Ticks(es[..n]) <= BoostIn(s)
    ensures !InQueue0(After(s, es[..n]), t) ==> n == |es| && Ticks(es[..n]) < BoostIn(s)
    decreases |es|
  {
    if t in s.q[0] || es == [] {
      n := 0;
    } else {
      var e, rest := es[0], es[1..];
      StepKeeps(s, e);
      var r := Handle(s, e);
      assert Starves(r, rest, t);
      assert IsReady(r, t);
      StepLower(s, e, t);
      if t in r.q[0] {
        n := 1;
        assert es[..1] == [e] && [e][1..] == [];
        assert After(r, []) == r;
      } else {
        var m := Reaches(r, rest, t);
        n := m + 1;
        assert es[..n][1..] == rest[..m];
      }
    }
  }

  /** A run may be cut in two anywhere. */
  lemma {:induction false} SplitRun<T>(s: Sys<T>, es: seq<Event<T>>, t: T, n: nat)
    requires Inv(s) && Possible(s, es) && Starves(s, es, t) && n <= |es| && Possible(s, es[..n])
    ensures Inv(After(s, es[..n])) && Possible(After(s, es[..n]), es[n..]) && Starves(After(s, es[..n]), es[n..], t)
    decreases n
  {
    if n == 0 {
      assert es[0..] == es;
    } else {
      StepKeeps(s, es[0]);
      assert es[..n][1..] == es[1..][..n - 1];
      SplitRun(Handle(s, es[0]), es[1..], t, n - 1);
      assert es[1..][n - 1..] == es[n..];
    }
  }

  // ---------------------------------------------------------------- boot, and init's blind spot

  /** After the first switch: idle runs on its default slice and init waits in queue 0. */
  function Boot<T(==)>(idle: T, init: T): Sys<T>
    requires idle != init
  {
    Sys([[init], [], [], [], [], []],
        map[idle := Task(0, Running, 0, 5, false, NoWait, None, [], 0),
            init := Task(1, Ready, 0, 5, false, NoWait, None, [], 0)],
        idle, idle, false, idle, init, 2, 0, 0, [])
  }

  lemma BootInv<T>(idle: T, init: T)
    requires idle != init
    ensures Inv(Boot(idle, init))
  {
    var s := Boot(idle, init);
    forall t | t in s.task && t != s.idle ensures Located(s, t) {}
    forall t | t in s.task ensures Kin(s, t) {}
    forall t | t in s.task && t != s.init ensures SleepsRightly(s, t) {}
  }
}
