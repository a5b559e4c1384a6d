/** The partition invariant of the task manager and its preservation by every operation. */
module SchedInv {
  import opened Options
  import opened Lists
  import opened SchedSpec

  // ---------------------------------------------------------------- partition

  /** A task found in queue `k` has that level and the state that belongs to the queue. */
  ghost predicate Fits<T>(s: Sys<T>, k: nat, t: T) {
    t in s.task && t != s.idle && s.task[t].level == k && s.task[t].state == QueueState(k)
  }

  /** A task is running on the processor or waits in the queue of its level and state. */
  ghost predicate Located<T>(s: Sys<T>, t: T)
    requires t in s.task && |s.q| == 6
  {
    if s.task[t].state == Running then t == s.current && s.task[t].level < 4
    else s.task[t].level < 6 && QueueState(s.task[t].level) == s.task[t].state && t in s.q[s.task[t].level]
  }

  /** Partition of the tasks, with `loose` (if any) in no queue and otherwise unconstrained. */
  ghost predicate PartitionBut<T>(s: Sys<T>, loose: Option<T>) {
    && Shaped(s)
    && s.task[s.idle].state == Running
    && (forall k, t {:trigger t in s.q[k]} :: 0 <= k < 6 && t in s.q[k] ==> Fits(s, k, t) && loose != Some(t))
    && (forall k :: 0 <= k < 6 ==> NoDup(s.q[k]))
    && (forall t {:trigger Located(s, t)} :: t in s.task && t != s.idle && loose != Some(t) ==> Located(s, t))
  }

  /** Every task but idle is in exactly one place, and that place matches its state and level. */
  ghost predicate Partition<T>(s: Sys<T>) { PartitionBut(s, None) }

  /** Taking a queued task out of its queue leaves it loose. */
  lemma Detach<T>(s: Sys<T>, t: T)
    requires Partition(s) && t in s.task && t != s.idle && s.task[t].state != Running
    ensures PartitionBut(Unqueue(s, s.task[t].level, t), Some(t))
  {
    assert Located(s, t);
    var k := s.task[t].level;
    var r := Unqueue(s, k, t);
    RemoveNoDup(s.q[k], t);
    forall j, x | 0 <= j < 6 && x in r.q[j] ensures Fits(r, j, x) && x != t {
      RemoveMember(s.q[k], t, x);
      assert x in s.q[j];
    }
    forall x | x in r.task && x != r.idle && x != t ensures Located(r, x) {
      assert Located(s, x);
      RemoveMember(s.q[k], t, x);
    }
  }

  /** A running task is in no queue. */
  lemma RunningIsLoose<T>(s: Sys<T>, t: T)
    requires Partition(s) && t in s.task && t != s.idle && s.task[t].state == Running
    ensures PartitionBut(s, Some(t))
  {
    forall x | x in s.task && x != s.idle && x != t ensures Located(s, x) { assert Located(s, x); }
  }

  /** The record of a loose task may change freely. */
  lemma Change<T>(s: Sys<T>, t: T, r: Task<T>)
    requires PartitionBut(s, Some(t)) && t in s.task && t != s.idle && r.level < 6
    ensures PartitionBut(Put(s, t, r), Some(t))
  {
    var s' := Put(s, t, r);
    forall x | x in s'.task && x != s.idle && x != t ensures Located(s', x) { assert Located(s, x); }
  }

  /** Queueing a loose task where its state belongs completes the partition. */
  lemma Attach<T>(s: Sys<T>, t: T, k: nat)
    requires PartitionBut(s, Some(t)) && t in s.task && t != s.idle && k < 6 && s.task[t].state == QueueState(k)
    ensures Partition(Enqueue(s, k, t))
  {
    var r := Enqueue(s, k, t);
    assert t !in s.q[k];
    AppendNoDup(s.q[k], t);
    forall j, x | 0 <= j < 6 && x in r.q[j] ensures Fits(r, j, x) {
      assert x == t || x in s.q[j];
    }
    forall x | x in r.task && x != r.idle ensures Located(r, x) {
      if x != t { assert Located(s, x); }
    }
  }

  /** A loose task that takes the processor completes the partition. */
  lemma Run<T>(s: Sys<T>, t: T, r: Task<T>)
    requires PartitionBut(s, Some(t)) && t in s.task && t != s.idle
    requires r.state == Running && r.level < 4
    requires s.current == s.idle || s.current == t || s.task[s.current].state != Running
    ensures Partition(Put(s, t, r).(current := t))
  {
    var s' := Put(s, t, r).(current := t);
    forall x | x in s'.task && x != s.idle ensures Located(s', x) {
      if x != t { assert Located(s, x); }
    }
  }

  // ---------------------------------------------------------------- fields a handler leaves alone

  /** `b` differs from `a` only in what scheduling changes: level, slice, yield, ready or running. */
  ghost predicate Alike<T>(a: Task<T>, b: Task<T>) {
    && a.pid == b.pid && a.parent == b.parent && a.children == b.children && a.wait == b.wait && a.code == b.code
    && (a.state == Blocked <==> b.state == Blocked) && (a.state == Zombie <==> b.state == Zombie)
  }

  /** Scheduling does not touch the process tree, the sleepers, the zombies or the keyboard. */
  ghost predicate SameWorld<T>(s: Sys<T>, r: Sys<T>) {
    && r.task.Keys == s.task.Keys && r.idle == s.idle && r.init == s.init && r.nextPid == s.nextPid
    && r.keys == s.keys && r.ticks == s.ticks
    && |s.q| == |r.q| == 6 && r.q[4] == s.q[4] && r.q[5] == s.q[5]
    && forall t {:trigger r.task[t]} {:trigger s.task[t]} :: t in s.task ==> Alike(s.task[t], r.task[t])
  }

  // ---------------------------------------------------------------- schedule

  /** Between the parts of `schedule`: nobody yields but possibly the current task. */
  ghost predicate Calm<T>(s: Sys<T>) {
    && !s.switching && s.idle in s.task && s.task[s.idle].level == 0
    && forall t {:trigger s.task[t]} :: t in s.task && t != s.current ==> !s.task[t].yielding
  }

  /** A due boost empties queues 1 to 3 into queue 0, in this order; otherwise nothing moves. */
  lemma BoostOk<T>(s: Sys<T>)
    requires Partition(s) && Calm(s)
    ensures var r := Boosted(s); Partition(r) && Calm(r) && SameWorld(s, r) && r.current == s.current
    ensures Boosted(s).q == if BoostDue(s) then [s.q[0] + s.q[1] + s.q[2] + s.q[3], [], [], [], s.q[4], s.q[5]] else s.q
    ensures Boosted(s).task[s.current] == s.task[s.current] || s.task[s.current].state != Running
    ensures Boosted(s).task[s.idle] == s.task[s.idle]
  {
    if BoostDue(s) {
      var r := Boost(s);
      BoostNoDup(s);
      forall k, x | 0 <= k < 6 && x in r.q[k] ensures Fits(r, k, x) {
        if k == 0 { assert x in s.q[0] || x in s.q[1] || x in s.q[2] || x in s.q[3]; }
      }
      forall x | x in r.task && x != r.idle ensures Located(r, x) { assert Located(s, x); }
    }
  }

  lemma BoostNoDup<T>(s: Sys<T>)
    requires Partition(s)
    ensures NoDup(s.q[0] + s.q[1] + s.q[2] + s.q[3])
  {
    ConcatNoDup(s, s.q[0], 1);
    ConcatNoDup(s, s.q[0] + s.q[1], 2);
    ConcatNoDup(s, s.q[0] + s.q[1] + s.q[2], 3);
  }

  lemma ConcatNoDup<T>(s: Sys<T>, front: seq<T>, k: nat)
    requires Partition(s) && NoDup(front) && k < 4
    requires forall t :: t in front ==> t in s.task && s.task[t].level < k
    ensures NoDup(front + s.q[k])
    ensures forall t :: t in front + s.q[k] ==> t in s.task && s.task[t].level < k + 1
  {
    forall t | t in s.q[k] ensures t in s.task && s.task[t].level == k {}
    var all := front + s.q[k];
    forall i, j | 0 <= i < j < |all| ensures all[i] != all[j] {
      if i < |front| <= j {
        assert all[i] in front && all[j] in s.q[k];
      } else if j < |front| {
        assert all[i] == front[i] && all[j] == front[j];
      } else {
        assert all[i] == s.q[k][i - |front|] && all[j] == s.q[k][j - |front|];
      }
    }
  }

  /** A record may change in the fields that placement does not read. */
  lemma Tweak<T>(s: Sys<T>, t: T, r: Task<T>)
    requires Partition(s) && t in s.task && r.state == s.task[t].state && r.level == s.task[t].level
    ensures Partition(Put(s, t, r))
  {
    var s' := Put(s, t, r);
    forall x | x in s'.task && x != s'.idle ensures Located(s', x) { assert Located(s, x); }
  }

  lemma ChargeOk<T>(s: Sys<T>)
    requires Partition(s) && Calm(s)
    ensures var r := Charged(s); Partition(r) && Calm(r) && SameWorld(s, r) && r.q == s.q && r.current == s.current
  {
    Tweak(s, s.current, s.task[s.current].(slice := Decrement(s.task[s.current].slice)));
  }

  /** After stepping down, no task but idle claims the processor. */
  lemma StepDownOk<T>(s: Sys<T>)
    requires Partition(s) && Calm(s)
    ensures var r := SteppedDown(s);
            && Partition(r) && Calm(r) && SameWorld(s, r) && r.current == s.current
            && (r.current == r.idle || r.task[r.current].state != Running) && !r.task[r.current].yielding
            && r.q[0] == s.q[0]
  {
    var c := s.current;
    var s1 := Put(s, c, s.task[c].(yielding := false));
    Tweak(s, c, s.task[c].(yielding := false));
    if c != s.idle && s.task[c].state == Running {
      assert Located(s, c);
      RequeueOk(s1, c);
    }
  }

  lemma RequeueOk<T>(s: Sys<T>, c: T)
    requires Partition(s) && c in s.task && c != s.idle && s.task[c].state == Running
    ensures Partition(Requeue(s, c)) && Requeue(s, c).q[0] == s.q[0]
  {
    var ready := s.task[c].(state := Ready);
    assert Located(s, c);
    RunningIsLoose(s, c);
    Change(s, c, ready);
    Attach(Put(s, c, ready), c, if s.task[c].level < 3 then s.task[c].level + 1 else s.task[c].level);
  }

  /** Dispatch and switch in one step: the picked task leaves its queue and runs. */
  function Dispatch<T(==)>(s: Sys<T>): Sys<T>
    requires Shaped(s)
  {
    var t, k := Picked(s), TopLevel(s.q);
    Put(s, t, s.task[t].(state := Running, slice := TimeSlice(if k < 4 then k else 0)))
      .(q := if k < 4 then s.q[k := s.q[k][1..]] else s.q, current := t, next := if t == s.current then s.next else t)
  }

  lemma DispatchedIsDispatch<T>(s: Sys<T>)
    requires Partition(s) && Calm(s)
    ensures Switch(Dispatched(s)) == Dispatch(s)
  {
    var t, k := Picked(s), TopLevel(s.q);
    assert k < 4 ==> t in s.q[k];
    assert k < 4 ==> Fits(s, k, t);
    assert Switch(Dispatched(s)).task == Dispatch(s).task;
  }

  /** The head of the highest queue that is not empty runs, idle exactly if all four are empty. */
  lemma DispatchOk<T>(s: Sys<T>)
    requires Partition(s) && Calm(s) && !s.task[s.current].yielding
    requires s.current == s.idle || s.task[s.current].state != Running
    ensures var r := Dispatch(s);
            && Partition(r) && Calm(r) && SameWorld(s, r)
            && r.task[r.current].state == Running && !r.task[r.current].yielding
            && (r.current == s.idle <==> s.q[0] == [] && s.q[1] == [] && s.q[2] == [] && s.q[3] == [])
            && forall k {:trigger s.q[k]} :: 0 <= k < 4 && s.q[k] != [] && (forall j :: 0 <= j < k ==> s.q[j] == []) ==>
                 r.current == s.q[k][0] && r.q == s.q[k := s.q[k][1..]] && r.task[r.current].slice == TimeSlice(k)
  {
    var t, k := Picked(s), TopLevel(s.q);
    var r := Dispatch(s);
    if k < 4 {
      assert t in s.q[k] && Fits(s, k, t);
      var s1 := s.(q := s.q[k := s.q[k][1..]]);
      Dequeued(s, k);
      Run(s1, t, r.task[t]);
      NextFree(Put(s1, t, r.task[t]).(current := t), r.next);
    } else {
      IdleTakesOver(s);
      Tweak(s.(current := s.idle), t, r.task[t]);
      NextFree(Put(s.(current := s.idle), t, r.task[t]), r.next);
    }
  }

  lemma NextFree<T>(s: Sys<T>, next: T)
    requires Partition(s)
    ensures Partition(s.(next := next))
  {
    var r := s.(next := next);
    forall x | x in r.task && x != r.idle ensures Located(r, x) { assert Located(s, x); }
  }

  lemma IdleTakesOver<T>(s: Sys<T>)
    requires Partition(s) && (s.current == s.idle || s.task[s.current].state != Running)
    ensures Partition(s.(current := s.idle))
  {
    var r := s.(current := s.idle);
    forall x | x in r.task && x != r.idle ensures Located(r, x) { assert Located(s, x); }
  }

  lemma Dequeued<T>(s: Sys<T>, k: nat)
    requires Partition(s) && k < 4 && s.q[k] != []
    ensures PartitionBut(s.(q := s.q[k := s.q[k][1..]]), Some(s.q[k][0]))
  {
    var t := s.q[k][0];
    assert t in s.q[k];
    assert s.q[k] == [t] + s.q[k][1..];
    Detach(s, t);
    assert Remove(s.q[k], t) == s.q[k][1..];
  }

  /** `schedule` may be called: the current task has slice left, and it runs unless it yields. */
  ghost predicate MaySchedule<T>(s: Sys<T>) {
    && Partition(s) && Calm(s) && 1 <= s.task[s.current].slice <= 32
    && (s.task[s.current].state == Running || s.task[s.current].yielding)
  }

  /** Between handlers: one task runs, it has slice left, and nobody yields. */
  ghost predicate Resting<T>(s: Sys<T>) {
    && Partition(s) && Calm(s) && 1 <= s.task[s.current].slice <= 32
    && s.task[s.current].state == Running && !s.task[s.current].yielding
  }

  lemma BeforeStepDown<T>(s: Sys<T>)
    requires MaySchedule(s)
    ensures var r := Charged(Boosted(s));
            && Partition(r) && Calm(r) && SameWorld(s, r) && r.current == s.current
            && r.task[r.current].slice == s.task[s.current].slice - 1
            && r.task[r.current].state == s.task[s.current].state
            && r.task[r.current].yielding == s.task[s.current].yielding
  {
    BoostOk(s);
    ChargeOk(Boosted(s));
  }

  /** `schedule` followed by the switch returns to a resting state; the decrement never wraps. */
  lemma ScheduleOk<T>(s: Sys<T>)
    requires MaySchedule(s)
    ensures var r := Switch(Schedule(s));
            && Resting(r) && SameWorld(s, r)
            && r.lastBoost == (if BoostDue(s) then s.ticks else s.lastBoost)
  {
    hide SameWorld, PartitionBut, Calm;
    PartitionShaped(s);
    BeforeStepDown(s);
    var s1 := Charged(Boosted(s));
    PartitionShaped(s1);
    if Expired(s1) {
      StepDownOk(s1);
      var s2 := SteppedDown(s1);
      DispatchedIsDispatch(s2);
      DispatchOk(s2);
      SliceRange(s2);
      SameWorldTrans(s, s1, s2);
      SameWorldTrans(s, s2, Dispatch(s2));
    }
  }

  lemma PartitionShaped<T>(s: Sys<T>)
    requires Partition(s) && Calm(s)
    ensures Shaped(s) && !s.switching
  {}

  lemma SameWorldTrans<T>(a: Sys<T>, b: Sys<T>, c: Sys<T>)
    requires SameWorld(a, b) && SameWorld(b, c)
    ensures SameWorld(a, c)
  {}

  lemma SliceRange<T>(s: Sys<T>)
    requires Shaped(s)
    ensures 4 <= Dispatch(s).task[Dispatch(s).current].slice <= 32
  {}

  // ---------------------------------------------------------------- waiting in queue 0

  /** Upper bound on the schedule calls before `t`, queued at level 0, is dispatched. */
  ghost function Rank<T>(s: Sys<T>, t: T): nat
    requires Shaped(s)
  {
    s.task[s.current].slice + 4 * IndexOf(s.q[0], t)
  }

  /** Every call of `schedule` that does not dispatch `t` brings it strictly closer. */
  lemma ScheduleRank<T>(s: Sys<T>, t: T)
    requires MaySchedule(s) && t in s.q[0]
    ensures var r := Switch(Schedule(s));
            r.current == t || (t in r.q[0] && Shaped(r) && Rank(r, t) < Rank(s, t))
  {
    BeforeStepDown(s);
    ScheduleOk(s);
    var s1 := Charged(Boosted(s));
    if BoostDue(s) {
      AppendIndex(s.q[0], s.q[1] + s.q[2] + s.q[3], t);
      assert s1.q[0] == s.q[0] + (s.q[1] + s.q[2] + s.q[3]);
    }
    if Expired(s1) {
      StepDownOk(s1);
      var s2 := SteppedDown(s1);
      DispatchedIsDispatch(s2);
      assert TopLevel(s2.q) == 0;
      if t != s2.q[0][0] { TailIndex(s2.q[0], t); }
    }
  }
}
