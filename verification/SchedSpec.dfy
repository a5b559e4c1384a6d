/** Value-level task manager: four ready queues, the blocked queue and the zombie queue, the
    process tree, and the handlers that change them. Tasks are identified by values of type `T`. */
module SchedSpec {
  import opened Options
  import opened Lists

  datatype State = Ready | Running | Blocked | Zombie

  /** Why a blocked task sleeps: for a child (-1: any child), or for a device. */
  datatype Wait = NoWait | ForChild(pid: int) | ForKeyboard | ForOther(object: int)

  datatype Task<T> = Task(pid: int, state: State, level: nat, slice: nat, yielding: bool, wait: Wait,
                          parent: Option<T>, children: seq<T>, code: int)

  /** `q[0..4]` are the ready queues, `q[4]` holds the blocked tasks and `q[5]` the zombies.
      `next` and `switching` are the request that the interrupt exit path carries out. */
  datatype Sys<T(==)> = Sys(q: seq<seq<T>>, task: map<T, Task<T>>, current: T, next: T, switching: bool,
                        idle: T, init: T, nextPid: int, ticks: nat, lastBoost: nat, keys: seq<int>)

  const BLOCKED := 4
  const ZOMBIES := 5
  const BOOST_INTERVAL := 5000
  const KEYBOARD_CAPACITY := 256

  function QueueState(k: nat): State { if k < 4 then Ready else if k == 4 then Blocked else Zombie }

  /** Slice of a task dispatched from queue `level`: 4, 8, 16, 32 ticks. */
  function TimeSlice(level: nat): (r: nat)
    ensures r >= 4
    ensures (level == 0 ==> r == 4) && (level == 1 ==> r == 8) && (level == 2 ==> r == 16) && (level == 3 ==> r == 32)
  {
    if level == 0 then 4 else 2 * TimeSlice(level - 1)
  }

  // ---------------------------------------------------------------- queue operations

  /** Every task named is there and every queue index is one of the six. */
  ghost predicate Shaped<T>(s: Sys<T>) {
    && |s.q| == 6 && s.current in s.task && s.idle in s.task && s.init in s.task
    && (forall k, t {:trigger t in s.q[k]} :: 0 <= k < 6 && t in s.q[k] ==> t in s.task)
    && (forall t {:trigger s.task[t]} :: t in s.task ==> s.task[t].level < 6)
  }

  function Put<T(==)>(s: Sys<T>, t: T, r: Task<T>): Sys<T> { s.(task := s.task[t := r]) }

  function Enqueue<T(==)>(s: Sys<T>, k: nat, t: T): (r: Sys<T>)
    requires Shaped(s) && k < 6 && t in s.task
    ensures Shaped(r)
  {
    if t == s.idle then s
    else Put(s, t, s.task[t].(level := k)).(q := s.q[k := s.q[k] + [t]])
  }

  function Unqueue<T(==)>(s: Sys<T>, k: nat, t: T): (r: Sys<T>)
    requires Shaped(s) && k < 6
    ensures Shaped(r)
  {
    RemoveSubset(s.q[k], t);
    s.(q := s.q[k := Remove(s.q[k], t)])
  }

  function Block<T(==)>(s: Sys<T>, t: T, w: Wait): (r: Sys<T>)
    requires Shaped(s) && t in s.task
    ensures Shaped(r)
  {
    if s.task[t].state == Blocked then s
    else Enqueue(Unqueue(Put(s, t, s.task[t].(state := Blocked, wait := w)), s.task[t].level, t), BLOCKED, t)
  }

  function Unblock<T(==)>(s: Sys<T>, t: T): (r: Sys<T>)
    requires Shaped(s) && t in s.task
    ensures Shaped(r)
  {
    if s.task[t].state != Blocked then s
    else Enqueue(Unqueue(Put(s, t, s.task[t].(state := Ready)), s.task[t].level, t), 0, t)
  }

  predicate WaitsOn<T(==)>(task: map<T, Task<T>>, t: T, w: Wait) { t in task && task[t].wait == w }

  /** The elements of `list` that wait (`hit`) or do not wait for `w`, in order. */
  function Select<T(==)>(task: map<T, Task<T>>, list: seq<T>, w: Wait, hit: bool): seq<T> {
    if list == [] then []
    else
      var last := list[|list| - 1];
      Select(task, list[..|list| - 1], w, hit) + (if WaitsOn(task, last, w) == hit then [last] else [])
  }

  /** The first `n` blocked tasks examined: those that wait for `w` move, in order, to the end of
      queue 0; the rest stay in order. */
  function WakeFirst<T(==)>(s: Sys<T>, n: nat, w: Wait): Sys<T>
    requires Shaped(s) && n <= |s.q[BLOCKED]|
  {
    var list := s.q[BLOCKED];
    var woken := Select(s.task, list[..n], w, true);
    s.(q := s.q[0 := s.q[0] + woken][4 := Select(s.task, list[..n], w, false) + list[n..]],
       task := Readied(s.task, woken))
  }

  /** The records with the tasks of `woken` made ready at level 0. */
  function Readied<T(==)>(task: map<T, Task<T>>, woken: seq<T>): map<T, Task<T>> {
    map t | t in task :: if t in woken then task[t].(state := Ready, level := 0) else task[t]
  }

  function Wake<T(==)>(s: Sys<T>, w: Wait): Sys<T>
    requires Shaped(s)
  {
    WakeFirst(s, |s.q[BLOCKED]|, w)
  }

  // ---------------------------------------------------------------- scheduling

  /** All of queues 1 to 3 behind queue 0, at level 0. */
  function Boost<T(==)>(s: Sys<T>): (r: Sys<T>)
    requires Shaped(s)
    ensures Shaped(r)
  {
    s.(q := [s.q[0] + s.q[1] + s.q[2] + s.q[3], [], [], [], s.q[4], s.q[5]],
       task := map t | t in s.task ::
                 if t in s.q[1] || t in s.q[2] || t in s.q[3] then s.task[t].(level := 0) else s.task[t],
       lastBoost := s.ticks)
  }

  /** The highest ready queue that is not empty, 4 when all are. */
  function TopLevel<T(==)>(q: seq<seq<T>>): (k: nat)
    requires |q| == 6
    ensures k <= 4 && (k < 4 ==> q[k] != [])
    ensures forall i {:trigger q[i]} :: 0 <= i < k ==> q[i] == []
  {
    if q[0] != [] then 0 else if q[1] != [] then 1 else if q[2] != [] then 2 else if q[3] != [] then 3 else 4
  }

  function Picked<T(==)>(s: Sys<T>): T
    requires Shaped(s)
    ensures Picked(s) in s.task
  {
    var k := TopLevel(s.q);
    if k < 4 then assert s.q[k][0] in s.q[k]; s.q[k][0] else s.idle
  }

  /** State after `pick_task`: the picked task leaves its queue with a fresh slice. */
  function Pick<T(==)>(s: Sys<T>): (r: Sys<T>)
    requires Shaped(s)
    ensures Shaped(r)
  {
    var k := TopLevel(s.q);
    var t := Picked(s);
    if k < 4 then
      assert forall x :: x in s.q[k][1..] ==> x in s.q[k];
      Put(s, t, s.task[t].(slice := TimeSlice(k))).(q := s.q[k := s.q[k][1..]])
    else Put(s, t, s.task[t].(slice := TimeSlice(0)))
  }

  /** A task that used up its slice goes one level down. */
  function Requeue<T(==)>(s: Sys<T>, t: T): (r: Sys<T>)
    requires Shaped(s) && t in s.task
    ensures Shaped(r)
  {
    if t == s.idle then s
    else
      var k := if s.task[t].level < 3 then s.task[t].level + 1 else s.task[t].level;
      Enqueue(Put(s, t, s.task[t].(state := Ready)), k, t)
  }

  /** The unsigned decrement of the slice. */
  function Decrement(n: nat): nat { if n == 0 then 0xFFFF_FFFF else n - 1 }

  predicate BoostDue<T(==)>(s: Sys<T>) { s.ticks - s.lastBoost >= BOOST_INTERVAL }

  function Boosted<T(==)>(s: Sys<T>): (r: Sys<T>)
    requires Shaped(s)
    ensures Shaped(r)
  {
    if BoostDue(s) then Boost(s) else s
  }

  /** One tick off the current task's slice. */
  function Charged<T(==)>(s: Sys<T>): (r: Sys<T>)
    requires Shaped(s)
    ensures Shaped(r)
  {
    Put(s, s.current, s.task[s.current].(slice := Decrement(s.task[s.current].slice)))
  }

  predicate Expired<T(==)>(s: Sys<T>)
    requires Shaped(s)
  {
    s.task[s.current].slice == 0 || s.task[s.current].yielding
  }

  /** The current task steps down: it stops yielding and, if it still runs, is queued again. */
  function SteppedDown<T(==)>(s: Sys<T>): (r: Sys<T>)
    requires Shaped(s)
    ensures Shaped(r)
  {
    var c := s.current;
    var s1 := Put(s, c, s.task[c].(yielding := false));
    if c != s.idle && s.task[c].state == Running then Requeue(s1, c) else s1
  }

  /** Hands the processor to the picked task. */
  function Dispatched<T(==)>(s: Sys<T>): (r: Sys<T>)
    requires Shaped(s)
    ensures Shaped(r) && (r.switching && !s.switching ==> r.next in r.task)
  {
    var t := Picked(s);
    var s1 := Pick(s);
    var s2 := Put(s1, t, s1.task[t].(state := Running));
    if t != s.current then s2.(next := t, switching := true)
    else Put(s2, t, s2.task[t].(slice := TimeSlice(s2.task[t].level)))
  }

  /** `task_manager_schedule`. */
  function Schedule<T(==)>(s: Sys<T>): (r: Sys<T>)
    requires Shaped(s)
    ensures Shaped(r)
  {
    var s1 := Charged(Boosted(s));
    if Expired(s1) then Dispatched(SteppedDown(s1)) else s1
  }

  function Yield<T(==)>(s: Sys<T>): (r: Sys<T>)
    requires Shaped(s)
    ensures Shaped(r)
  {
    Schedule(Put(s, s.current, s.task[s.current].(yielding := true)))
  }

  /** The interrupt exit path: carry out a requested switch. */
  function Switch<T(==)>(s: Sys<T>): Sys<T> {
    if s.switching then s.(current := s.next, switching := false) else s
  }

  // ---------------------------------------------------------------- process lifecycle

  function Reversed<T>(s: seq<T>): seq<T> {
    if s == [] then [] else Reversed(s[1..]) + [s[0]]
  }

  /** The children of `t` become, in reverse, the first children of init. */
  function Reparent<T(==)>(s: Sys<T>, t: T): (r: Sys<T>)
    requires Shaped(s) && t in s.task
    ensures Shaped(r) && t in r.task
  {
    var kids := s.task[t].children;
    s.(task := map x | x in s.task ::
         if x == t then s.task[x].(children := [])
         else
           var r := if x in kids then s.task[x].(parent := Some(s.init)) else s.task[x];
           if x == s.init then r.(children := Reversed(kids) + r.children) else r)
  }

  /** `p` sleeps in waitpid and the exit of a child with this pid ends the wait. */
  predicate WaitsFor<T(==)>(s: Sys<T>, p: T, pid: int) {
    p in s.task && s.task[p].state == Blocked && (s.task[p].wait == ForChild(pid) || s.task[p].wait == ForChild(-1))
  }

  function WakeParent<T(==)>(s: Sys<T>, t: T): (r: Sys<T>)
    requires Shaped(s) && t in s.task
    ensures Shaped(r) && t in r.task
  {
    match s.task[t].parent
    case None => s
    case Some(p) => if WaitsFor(s, p, s.task[t].pid) then Unblock(s, p) else s
  }

  /** Takes `t` out of the queue its state says it is in. */
  function Detached<T(==)>(s: Sys<T>, t: T): (r: Sys<T>)
    requires Shaped(s) && t in s.task
    ensures Shaped(r) && t in r.task
  {
    if s.task[t].state == Ready then Unqueue(s, s.task[t].level, t)
    else if s.task[t].state == Blocked then Unqueue(s, BLOCKED, t)
    else s
  }

  /** `task_manager_exit_task`. */
  function ExitTask<T(==)>(s: Sys<T>, t: T, code: int): (r: Sys<T>)
    requires Shaped(s) && t in s.task
    ensures Shaped(r) && t in r.task
  {
    var s1 := Detached(s, t);
    var s2 := Put(s1, t, s1.task[t].(state := Zombie, code := code));
    Enqueue(WakeParent(Reparent(s2, t), t), ZOMBIES, t)
  }

  /** `fork`: the child starts at the back of queue 0. */
  function Forked<T(==)>(s: Sys<T>, child: T): (r: Sys<T>)
    requires Shaped(s)
    ensures Shaped(r)
  {
    var c := s.current;
    var s1 := Put(s, child, Task(s.nextPid, Ready, 0, 5, false, NoWait, Some(c), [], 0)).(nextPid := s.nextPid + 1);
    var s2 := Enqueue(s1, 0, child);
    Put(s2, c, s2.task[c].(children := s2.task[c].children + [child]))
  }

  /** First child with the pid, as a search through the child list. */
  function FindChild<T(==)>(s: Sys<T>, kids: seq<T>, pid: int): (r: Option<T>)
    ensures r.Some? ==> r.value in kids && r.value in s.task && s.task[r.value].pid == pid
    ensures r.None? ==> forall c :: c in kids && c in s.task ==> s.task[c].pid != pid
  {
    if kids == [] then None
    else if kids[0] in s.task && s.task[kids[0]].pid == pid then Some(kids[0])
    else FindChild(s, kids[1..], pid)
  }

  function FindZombie<T(==)>(s: Sys<T>, kids: seq<T>): (r: Option<T>)
    ensures r.Some? ==> r.value in kids && r.value in s.task && s.task[r.value].state == Zombie
    ensures r.None? ==> forall c :: c in kids && c in s.task ==> s.task[c].state != Zombie
  {
    if kids == [] then None
    else if kids[0] in s.task && s.task[kids[0]].state == Zombie then Some(kids[0])
    else FindZombie(s, kids[1..])
  }

  /** The child that waitpid can reap now. */
  function Reapable<T(==)>(s: Sys<T>, pid: int): (r: Option<T>)
    requires Shaped(s)
    ensures r.Some? ==> r.value in s.task && s.task[r.value].state == Zombie
  {
    var kids := s.task[s.current].children;
    if pid == -1 then FindZombie(s, kids)
    else match FindChild(s, kids, pid)
         case None => None
         case Some(c) => if c in s.task && s.task[c].state == Zombie then Some(c) else None
  }

  /** `task_manager_destroy_task`, without the memory and the handles of the task. */
  function Destroy<T(==)>(s: Sys<T>, c: T): Sys<T>
    requires Shaped(s) && c in s.task
  {
    var s1 := match s.task[c].parent
              case None => s
              case Some(p) => if p in s.task then Put(s, p, s.task[p].(children := Remove(s.task[p].children, c)))
                else s;
    var s2 := Unqueue(s1, s.task[c].level, c);
    s2.(task := s2.task - {c})
  }

  function WaitPid<T(==)>(s: Sys<T>, pid: int): Sys<T>
    requires Shaped(s)
  {
    match Reapable(s, pid)
    case Some(c) => Destroy(s, c)
    case None =>
      if pid != -1 && FindChild(s, s.task[s.current].children, pid) == None then s
      else Yield(Block(s, s.current, ForChild(pid)))
  }

  // ---------------------------------------------------------------- keyboard

  /** The interrupt stores the scancode if there is room and wakes every reader. */
  function KeyPress<T(==)>(s: Sys<T>, scancode: int): Sys<T>
    requires Shaped(s)
  {
    Wake(if |s.keys| == KEYBOARD_CAPACITY then s else s.(keys := s.keys + [scancode]), ForKeyboard)
  }

  /** A read of `length` bytes: nothing for length 0, whatever is there otherwise, or sleep. */
  function ReadKeys<T(==)>(s: Sys<T>, length: nat): Sys<T>
    requires Shaped(s)
  {
    if length == 0 then s
    else if s.keys != [] then s.(keys := s.keys[if length < |s.keys| then length else |s.keys|..])
    else Yield(Block(s, s.current, ForKeyboard))
  }
}
