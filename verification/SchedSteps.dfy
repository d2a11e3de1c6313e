/** The scheduler of kernel/proc/sched.c as steps on values.  Each region under `sched_lock` is
    one step; any interleaving of the steps of all CPUs is a run. */
module SchedSteps {
  import opened Common

  /** MILLIS_TO_NANOS(1). */
  const NANOS: nat := 1_000_000
  const TID_MAX: nat := 0xFFFF

  datatype Status = Ready | Running | Sleeping | Dead

  /** The fields of `task_t` the scheduler uses. */
  datatype Task = Task(status: Status, wakeup: nat, lastTick: nat, kstackTop: nat)

  /** All tasks by their task id, the queue `tasks_active`, and per CPU the running task, the
      idle task and the tick count. */
  datatype State = State(tasks: seq<Task>, active: seq<nat>, running: seq<Option<nat>>, idle: seq<nat>, ticks: seq<nat>)

  // ----- the selection loop -----

  /** A task the loop takes when the clock reads `now`. */
  predicate Runnable(t: Task, now: nat) {
    t.status == Ready || (t.status == Sleeping && now >= t.wakeup)
  }

  /** Task ids that name tasks. */
  ghost predicate Ids(s: seq<nat>, n: nat) {
    forall i :: 0 <= i < |s| ==> s[i] < n
  }

  /** The least position from `i` on whose task is runnable at its clock reading, or the length
      of the queue. */
  function FirstRunnable(tasks: seq<Task>, q: seq<nat>, clock: seq<nat>, i: nat): (j: nat)
    requires Ids(q, |tasks|) && |q| <= |clock| && i <= |q|
    ensures i <= j <= |q|
    ensures forall k :: i <= k < j ==> !Runnable(tasks[q[k]], clock[k])
    ensures j < |q| ==> Runnable(tasks[q[j]], clock[j])
    decreases |q| - i
  {
    if i == |q| || Runnable(tasks[q[i]], clock[i]) then i else FirstRunnable(tasks, q, clock, i + 1)
  }

  /** The queue after position `j` was taken: the tasks before it went to the back. */
  function Rotated(q: seq<nat>, j: nat): seq<nat>
    requires j <= |q|
  {
    if j < |q| then q[j + 1..] + q[..j] else q
  }

  /** The queue after `i` visits that took nothing. */
  function Turned(q: seq<nat>, i: nat): (r: seq<nat>)
    requires i <= |q|
    ensures |r| == |q|
  {
    q[i..] + q[..i]
  }

  lemma TurnStep(q: seq<nat>, i: nat)
    requires i < |q|
    ensures |Turned(q, i)| == |q| && Turned(q, i)[0] == q[i] && Turned(q, i)[1..] == Rotated(q, i)
    ensures Rotated(q, i) + [q[i]] == Turned(q, i + 1)
  {
  }

  lemma TurnedEnds(q: seq<nat>)
    ensures Turned(q, 0) == q == Turned(q, |q|) == Rotated(q, |q|)
  {
  }

  // ----- the steps -----

  ghost predicate Shape(s: State) {
    && |s.running| == |s.idle| == |s.ticks|
    && Ids(s.active, |s.tasks|) && Ids(s.idle, |s.tasks|)
    && forall c :: 0 <= c < |s.running| && s.running[c].Some? ==> s.running[c].value < |s.tasks|
  }

  /** do_context_switch up to the loop: the running task becomes ready unless it sleeps, and
      goes to the back of the queue unless it is the CPU's idle task.  Until the loop has
      chosen, the CPU has no task. */
  function Requeue(s: State, cpu: nat, stack: nat): State
    requires Shape(s) && cpu < |s.running|
  {
    if s.running[cpu].None? then s
    else
      var c := s.running[cpu].value;
      var t := s.tasks[c];
      s.(tasks := s.tasks[c := Task(if t.status == Running then Ready else t.status, t.wakeup, s.ticks[cpu], stack)],
         active := if c == s.idle[cpu] then s.active else s.active + [c],
         running := s.running[cpu := None])
  }

  /** Putting a waiting task on a CPU that has none. */
  function Occupy(r: State, cpu: nat, next: nat, q: seq<nat>): State
    requires Shape(r) && cpu < |r.running| && next < |r.tasks|
  {
    State(r.tasks[next := r.tasks[next].(status := Running)], q,
          r.running[cpu := Some(next)], r.idle, r.ticks[cpu := (r.ticks[cpu] + 1) % TWO64])
  }

  /** The rest of do_context_switch. */
  function Dispatch(r: State, cpu: nat, clock: seq<nat>): State
    requires Shape(r) && cpu < |r.running| && |r.active| <= |clock|
  {
    var j := FirstRunnable(r.tasks, r.active, clock, 0);
    var next := if j < |r.active| then r.active[j] else r.idle[cpu];
    Occupy(r, cpu, next, Rotated(r.active, j))
  }

  function Switched(s: State, cpu: nat, stack: nat, clock: seq<nat>): State
    requires Shape(s) && cpu < |s.running| && |s.active| < |clock|
  {
    RequeueShape(s, cpu, stack);
    Dispatch(Requeue(s, cpu, stack), cpu, clock)
  }

  /** The CPU's slot is overwritten by the dispatch, the others keep their tasks. */
  lemma RequeueRunning(s: State, cpu: nat, stack: nat, id: nat)
    requires Shape(s) && cpu < |s.running|
    ensures var r := Requeue(s, cpu, stack);
            && |r.running| == |s.running| && r.idle == s.idle && r.ticks == s.ticks
            && r.running[cpu := Some(id)] == s.running[cpu := Some(id)]
  {
  }

  lemma RequeueShape(s: State, cpu: nat, stack: nat)
    requires Shape(s) && cpu < |s.running|
    ensures Shape(Requeue(s, cpu, stack)) && |Requeue(s, cpu, stack).active| <= |s.active| + 1
  {
  }

  /** sched_sleep. */
  function Slept(s: State, cpu: nat, millis: nat, now: nat): State
    requires Shape(s) && cpu < |s.running|
  {
    if s.running[cpu].None? then s
    else
      var c := s.running[cpu].value;
      s.(tasks := s.tasks[c := s.tasks[c].(wakeup := (now + millis * NANOS) % TWO64, status := Sleeping)])
  }

  /** sched_add, with the stack task_make set up. */
  function Added(s: State, stack: nat): State {
    s.(tasks := s.tasks + [Task(Ready, 0, 0, stack)], active := s.active + [|s.tasks|])
  }

  /** One region under the lock.  `clock` holds a reading for each visit the loop may make. */
  datatype Action =
    | Switch(cpu: nat, stack: nat, clock: seq<nat>)
    | Sleep(cpu: nat, millis: nat, now: nat)
    | Add(stack: nat)

  ghost predicate Enabled(s: State, a: Action) {
    Shape(s) &&
    match a
    case Switch(cpu, _, clock) => cpu < |s.running| && |s.active| < |clock|
    case Sleep(cpu, _, _) => cpu < |s.running|
    case Add(_) => |s.tasks| < TID_MAX
  }

  ghost function After(s: State, a: Action): State
    requires Enabled(s, a)
  {
    match a
    case Switch(cpu, stack, clock) => Switched(s, cpu, stack, clock)
    case Sleep(cpu, millis, now) => Slept(s, cpu, millis, now)
    case Add(stack) => Added(s, stack)
  }

  // ----- conservation -----

  ghost predicate NoDup(q: seq<nat>) {
    forall i, j :: 0 <= i < j < |q| ==> q[i] != q[j]
  }

  /** The queue holds no idle task, no task twice, and none that is on a CPU. */
  ghost predicate QueueOk(s: State)
    requires Shape(s)
  {
    && NoDup(s.active)
    && forall t :: t in s.active ==> t !in s.idle && Some(t) !in s.running && s.tasks[t].status != Running
  }

  /** No task runs on two CPUs, and an idle task runs only on its own. */
  ghost predicate CpusOk(s: State)
    requires Shape(s)
  {
    && NoDup(s.idle)
    && forall c, d :: 0 <= c < |s.running| && 0 <= d < |s.running| && c != d && s.running[c].Some?
                      ==> s.running[c] != s.running[d] && s.running[c].value != s.idle[d]
  }

  /** Every task that is not an idle task is in the queue or on a CPU, and a task whose status
      is Running is on a CPU. */
  ghost predicate AllPlaced(s: State) {
    && (forall t :: 0 <= t < |s.tasks| && t !in s.idle ==> t in s.active || Some(t) in s.running)
    && (forall t :: 0 <= t < |s.tasks| && s.tasks[t].status == Running ==> Some(t) in s.running)
  }

  /** Every task that is not an idle task is in exactly one place: once in the queue, or
      running on exactly one CPU. */
  ghost predicate Inv(s: State) {
    Shape(s) && QueueOk(s) && CpusOk(s) && AllPlaced(s)
  }

  lemma RequeueInv(s: State, cpu: nat, stack: nat)
    requires Inv(s) && cpu < |s.running|
    ensures Inv(Requeue(s, cpu, stack)) && Requeue(s, cpu, stack).running[cpu].None?
  {
    hide QueueOk, CpusOk, AllPlaced;
    RequeueShape(s, cpu, stack);
    RequeueQueue(s, cpu, stack);
    RequeueCpus(s, cpu, stack);
    RequeuePlaced(s, cpu, stack);
  }

  lemma RequeueQueue(s: State, cpu: nat, stack: nat)
    requires Inv(s) && cpu < |s.running|
    ensures Shape(Requeue(s, cpu, stack)) && QueueOk(Requeue(s, cpu, stack))
  {
    hide NoDup;
    RequeueShape(s, cpu, stack);
    if s.running[cpu].Some? {
      assert s.running[cpu] in s.running;
      NoDupAppend(s.active, s.running[cpu].value);
      OwnIdle(s, cpu);
      assert forall o :: o in Requeue(s, cpu, stack).running ==> o == None || o in s.running;
    }
  }

  /** A task that runs and is not the CPU's idle task is no idle task. */
  lemma OwnIdle(s: State, cpu: nat)
    requires Inv(s) && cpu < |s.running| && s.running[cpu].Some?
    ensures s.running[cpu].value in s.idle ==> s.running[cpu].value == s.idle[cpu]
    ensures Requeue(s, cpu, 0).running[cpu].None?
    ensures forall d :: 0 <= d < |s.running| && d != cpu ==> s.running[d] != s.running[cpu]
  {
  }

  lemma RequeueCpus(s: State, cpu: nat, stack: nat)
    requires Inv(s) && cpu < |s.running|
    ensures Shape(Requeue(s, cpu, stack)) && CpusOk(Requeue(s, cpu, stack))
    ensures Requeue(s, cpu, stack).running[cpu].None?
  {
    hide QueueOk, AllPlaced, NoDup;
    RequeueShape(s, cpu, stack);
  }

  lemma RequeuePlaced(s: State, cpu: nat, stack: nat)
    requires Inv(s) && cpu < |s.running|
    ensures Shape(Requeue(s, cpu, stack)) && AllPlaced(Requeue(s, cpu, stack))
  {
    hide QueueOk, CpusOk;
    RequeueShape(s, cpu, stack);
    var r := Requeue(s, cpu, stack);
    if s.running[cpu].Some? {
      var c := s.running[cpu].value;
      forall t | 0 <= t < |r.tasks| && t != c && Some(t) in s.running ensures Some(t) in r.running {
        var d :| 0 <= d < |s.running| && s.running[d] == Some(t);
        assert r.running[d] == Some(t);
      }
      assert s.idle[cpu] in s.idle;
      assert forall t :: t in s.active ==> t in r.active;
    }
  }

  lemma NoDupAppend(q: seq<nat>, c: nat)
    requires NoDup(q) && c !in q
    ensures NoDup(q + [c])
  {
  }

  lemma RotatedSame(q: seq<nat>, j: nat)
    requires j < |q|
    ensures forall t :: t in q <==> t == q[j] || t in Rotated(q, j)
    ensures NoDup(q) ==> NoDup(Rotated(q, j)) && q[j] !in Rotated(q, j)
  {
  }

  lemma OccupyInv(r: State, cpu: nat, next: nat, q: seq<nat>)
    requires Inv(r) && cpu < |r.running| && r.running[cpu].None? && next < |r.tasks|
    requires Some(next) !in r.running && next !in q && NoDup(q)
    requires forall t :: t in r.active <==> t in q || (t == next && next in r.active)
    requires next in r.active || next == r.idle[cpu]
    ensures Inv(Occupy(r, cpu, next, q))
  {
    var s := Occupy(r, cpu, next, q);
    forall i | 0 <= i < |q| ensures q[i] < |r.tasks| {
      assert q[i] in r.active;
    }
    assert s.running[cpu] == Some(next);
    assert forall c :: 0 <= c < |r.running| && c != cpu ==> s.running[c] == r.running[c];
    assert forall o :: o in r.running && o != None ==> o in s.running;
  }

  lemma DispatchInv(r: State, cpu: nat, clock: seq<nat>)
    requires Inv(r) && cpu < |r.running| && r.running[cpu].None? && |r.active| <= |clock|
    ensures Inv(Dispatch(r, cpu, clock))
  {
    var j := FirstRunnable(r.tasks, r.active, clock, 0);
    if j < |r.active| {
      RotatedSame(r.active, j);
      OccupyInv(r, cpu, r.active[j], Rotated(r.active, j));
    } else {
      assert Some(r.idle[cpu]) !in r.running;
      OccupyInv(r, cpu, r.idle[cpu], r.active);
    }
  }

  /** No step loses, duplicates or misplaces a task. */
  lemma StepInv(s: State, a: Action)
    requires Inv(s) && Enabled(s, a)
    ensures Inv(After(s, a)) && |After(s, a).tasks| == |s.tasks| + (if a.Add? then 1 else 0)
    ensures After(s, a).idle == s.idle
  {
    match a
    case Switch(cpu, stack, clock) =>
      RequeueInv(s, cpu, stack);
      DispatchInv(Requeue(s, cpu, stack), cpu, clock);
    case Sleep(cpu, millis, now) =>
      SleepInv(s, cpu, millis, now);
    case Add(stack) =>
      AddInv(s, stack);
  }

  lemma SleepInv(s: State, cpu: nat, millis: nat, now: nat)
    requires Inv(s) && cpu < |s.running|
    ensures Inv(Slept(s, cpu, millis, now))
  {
    if s.running[cpu].Some? {
      assert s.running[cpu] in s.running;
    }
  }

  lemma AddInv(s: State, stack: nat)
    requires Inv(s)
    ensures Inv(Added(s, stack))
  {
    var t := |s.tasks|;
    assert forall c :: 0 <= c < |s.running| ==> s.running[c] != Some(t);
    assert t !in s.active && t !in s.idle;
  }

  /** A run: each state comes from the one before by an action of some CPU. */
  ghost predicate IsRun(states: seq<State>, acts: seq<Action>) {
    && |states| == |acts| + 1
    && forall k :: 0 <= k < |acts| ==> Enabled(states[k], acts[k]) && states[k + 1] == After(states[k], acts[k])
  }

  function Adds(acts: seq<Action>): nat {
    if acts == [] then 0 else Adds(acts[..|acts| - 1]) + if acts[|acts| - 1].Add? then 1 else 0
  }

  /** In every state of every run each task is in exactly one place, and there are as many
      tasks as were added. */
  lemma {:induction false} RunInv(states: seq<State>, acts: seq<Action>)
    requires IsRun(states, acts) && Inv(states[0])
    ensures var last := states[|acts|];
            Inv(last) && |last.tasks| == |states[0].tasks| + Adds(acts) && last.idle == states[0].idle
  {
    if acts != [] {
      var n := |acts| - 1;
      RunInv(states[..n + 1], acts[..n]);
      StepInv(states[n], acts[n]);
    }
  }

  // ----- bounded waiting -----

  /** Task `t` is at position `k` of the queue and may run whenever the clock reads `now` or
      later. */
  ghost predicate Waits(s: State, t: nat, k: nat, now: nat) {
    Shape(s) && k < |s.active| && s.active[k] == t && Runnable(s.tasks[t], now)
  }

  /** All clock readings of the action are `now` or later. */
  ghost predicate ReadsFrom(a: Action, now: nat) {
    a.Switch? ==> forall i :: 0 <= i < |a.clock| ==> a.clock[i] >= now
  }

  /** A waiting task is dispatched by the next switch of any CPU, or gets strictly closer to
      the front; other steps leave it where it is. */
  lemma WaitStep(s: State, a: Action, t: nat, k: nat, now: nat)
    requires Inv(s) && Enabled(s, a) && Waits(s, t, k, now) && ReadsFrom(a, now)
    ensures Dispatched(s, a, t) || exists m: nat :: Closer(a, m, k) && Waits(After(s, a), t, m, now)
  {
    assert t in s.active;
    match a
    case Switch(cpu, stack, clock) =>
      var r := Requeue(s, cpu, stack);
      RequeueShape(s, cpu, stack);
      assert r.active[k] == t && r.tasks[t] == s.tasks[t];
      hide Requeue, Inv;
      WaitDispatch(r, cpu, clock, t, k, now);
    case _ =>
      assert Waits(After(s, a), t, k, now) && Closer(a, k, k);
  }

  lemma WaitDispatch(r: State, cpu: nat, clock: seq<nat>, t: nat, k: nat, now: nat)
    requires Shape(r) && Waits(r, t, k, now) && cpu < |r.running| && |r.active| <= |clock|
    requires forall i :: 0 <= i < |clock| ==> clock[i] >= now
    ensures var s' := Dispatch(r, cpu, clock);
            s'.running[cpu] == Some(t) || exists m: nat :: m < k && Waits(s', t, m, now)
  {
    var j := FirstRunnable(r.tasks, r.active, clock, 0);
    assert Runnable(r.tasks[r.active[k]], clock[k]);
    var s' := Dispatch(r, cpu, clock);
    if j < k && s'.running[cpu] != Some(t) {
      assert Rotated(r.active, j)[k - j - 1] == t;
      assert Ids(s'.active, |s'.tasks|) by {
        RotatedSame(r.active, j);
        assert forall i :: 0 <= i < |s'.active| ==> s'.active[i] in r.active;
      }
      assert Waits(s', t, k - j - 1, now);
    }
  }

  /** A switch moves the task forward, other steps leave it at its place. */
  predicate Closer(a: Action, m: nat, k: nat) {
    if a.Switch? then m < k else m == k
  }

  /** The action puts `t` on its CPU. */
  ghost predicate Dispatched(s: State, a: Action, t: nat) {
    Enabled(s, a) && a.Switch? && After(s, a).running[a.cpu] == Some(t)
  }

  function Switches(acts: seq<Action>): nat {
    if acts == [] then 0 else (if acts[0].Switch? then 1 else 0) + Switches(acts[1..])
  }

  /** Some action puts `t` on its CPU, with at most `k` switches before it. */
  ghost predicate DispatchedWithin(states: seq<State>, acts: seq<Action>, t: nat, k: nat)
    requires |states| == |acts| + 1
  {
    exists i :: 0 <= i < |acts| && Dispatched(states[i], acts[i], t) && Switches(acts[..i]) <= k
  }

  /** Bounded waiting: a runnable task at position `k` is dispatched within the next `k + 1`
      switches, counted over all CPUs, however sleeps, new tasks and other switches are
      interleaved. */
  lemma {:induction false} BoundedWaiting(states: seq<State>, acts: seq<Action>, t: nat, k: nat, now: nat)
    requires IsRun(states, acts) && Inv(states[0]) && Waits(states[0], t, k, now)
    requires forall i :: 0 <= i < |acts| ==> ReadsFrom(acts[i], now)
    requires Switches(acts) > k
    ensures DispatchedWithin(states, acts, t, k)
    decreases |acts|
  {
    var s, a := states[0], acts[0];
    StepInv(s, a);
    WaitStep(s, a, t, k, now);
    RunTail(states, acts);
    hide After, Enabled, Inv, Waits, IsRun, Dispatched, ReadsFrom, DispatchedWithin;
    if Dispatched(s, a, t) {
      AtOnce(states, acts, t, k);
    } else {
      var m: nat :| Closer(a, m, k) && Waits(After(s, a), t, m, now);
      BoundedWaiting(states[1..], acts[1..], t, m, now);
      WithinTail(states, acts, t, m, k);
    }
  }

  lemma AtOnce(states: seq<State>, acts: seq<Action>, t: nat, k: nat)
    requires |states| == |acts| + 1 && acts != [] && Dispatched(states[0], acts[0], t)
    ensures DispatchedWithin(states, acts, t, k)
  {
    assert acts[..0] == [];
  }

  lemma WithinTail(states: seq<State>, acts: seq<Action>, t: nat, m: nat, k: nat)
    requires |states| == |acts| + 1 && acts != [] && Closer(acts[0], m, k)
    requires DispatchedWithin(states[1..], acts[1..], t, m)
    ensures DispatchedWithin(states, acts, t, k)
  {
    hide Dispatched;
    var i :| 0 <= i < |acts[1..]| && Dispatched(states[1..][i], acts[1..][i], t) && Switches(acts[1..][..i]) <= m;
    assert acts[..i + 1][1..] == acts[1..][..i] && acts[..i + 1][0] == acts[0];
    assert states[1..][i] == states[i + 1] && acts[1..][i] == acts[i + 1];
  }

  lemma RunTail(states: seq<State>, acts: seq<Action>)
    requires IsRun(states, acts) && acts != []
    ensures |states| == |acts| + 1 && Enabled(states[0], acts[0])
    ensures IsRun(states[1..], acts[1..]) && states[1..][0] == After(states[0], acts[0])
  {
  }

  // ----- sleeping -----

  /** What a requeue leaves of a task that is not running. */
  lemma RequeueTask(s: State, cpu: nat, stack: nat, t: nat)
    requires Shape(s) && cpu < |s.running| && t < |s.tasks|
    ensures var r := Requeue(s, cpu, stack);
            && Shape(r) && |r.tasks| == |s.tasks| && r.idle == s.idle && |r.running| == |s.running|
            && r.tasks[t].wakeup == s.tasks[t].wakeup
            && (s.tasks[t].status != Running ==> r.tasks[t].status == s.tasks[t].status)
            && (t in s.active ==> t in r.active)
  {
    RequeueShape(s, cpu, stack);
  }

  /** A dispatch changes no task but the one it puts on the CPU, which comes from the queue or is
      the CPU's idle task. */
  lemma DispatchTask(r: State, cpu: nat, clock: seq<nat>, t: nat)
    requires Shape(r) && cpu < |r.running| && |r.active| <= |clock| && t < |r.tasks| && t != r.idle[cpu]
    ensures var s, j := Dispatch(r, cpu, clock), FirstRunnable(r.tasks, r.active, clock, 0);
            && |s.tasks| == |r.tasks| && cpu < |s.running|
            && (s.running[cpu] == Some(t) ==> j < |r.active| && r.active[j] == t)
            && (s.running[cpu] != Some(t) ==> s.tasks[t] == r.tasks[t] && (t in r.active ==> t in s.active))
  {
    hide FirstRunnable, Rotated;
    var j := FirstRunnable(r.tasks, r.active, clock, 0);
    if j < |r.active| {
      RotatedSame(r.active, j);
    } else {
      RotatedNot(r.active, j);
    }
  }

  lemma RotatedNot(q: seq<nat>, j: nat)
    requires j == |q|
    ensures Rotated(q, j) == q
  {
  }

  /** A sleeping task that is not an idle task wakes only by being dispatched, on a clock
      reading not below its wake-up time. */
  lemma NeverEarly(s: State, a: Action, t: nat)
    requires Inv(s) && Enabled(s, a) && t < |s.tasks| && t !in s.idle && s.tasks[t].status == Sleeping
    requires After(s, a).tasks[t].status != Sleeping
    ensures a.Switch? && Dispatched(s, a, t) && exists i :: 0 <= i < |a.clock| && a.clock[i] >= s.tasks[t].wakeup
  {
    hide QueueOk, CpusOk, AllPlaced, Requeue, Dispatch, FirstRunnable;
    match a
    case Switch(cpu, stack, clock) =>
      RequeueShape(s, cpu, stack);
      RequeueTask(s, cpu, stack, t);
      assert s.idle[cpu] in s.idle;
      DispatchTask(Requeue(s, cpu, stack), cpu, clock, t);
    case _ =>
  }

  /** The wake-up time changes only when the CPU the task is on calls sched_sleep. */
  lemma WakeupKept(s: State, a: Action, t: nat)
    requires Inv(s) && Enabled(s, a) && t < |s.tasks|
    requires !(a.Sleep? && s.running[a.cpu] == Some(t))
    ensures After(s, a).tasks[t].wakeup == s.tasks[t].wakeup
  {
  }

  /** `t` is a sleeping task, not an idle one, to be woken at `wakeup`. */
  ghost predicate Asleep(s: State, t: nat, wakeup: nat) {
    t < |s.tasks| && t !in s.idle && s.tasks[t].status == Sleeping && s.tasks[t].wakeup == wakeup
  }

  /** Readings below `wakeup`, and no sched_sleep by the CPU that `t` is on. */
  ghost predicate Before(s: State, a: Action, t: nat, wakeup: nat) {
    match a
    case Switch(_, _, clock) => forall i :: 0 <= i < |clock| ==> clock[i] < wakeup
    case Sleep(cpu, _, _) => cpu < |s.running| ==> s.running[cpu] != Some(t)
    case Add(_) => true
  }

  ghost predicate AllBefore(states: seq<State>, acts: seq<Action>, t: nat, wakeup: nat)
    requires |states| == |acts| + 1
  {
    forall k :: 0 <= k < |acts| ==> Before(states[k], acts[k], t, wakeup)
  }

  ghost predicate NeverDispatched(states: seq<State>, acts: seq<Action>, t: nat)
    requires |states| == |acts| + 1
  {
    forall k :: 0 <= k < |acts| ==> !Dispatched(states[k], acts[k], t)
  }

  /** sched_sleep holds for the whole run: while every clock reading is below the wake-up time
      and the task does not call it again, the task is not put on any CPU. */
  lemma {:induction false} SleepHonoured(states: seq<State>, acts: seq<Action>, t: nat, wakeup: nat)
    requires IsRun(states, acts) && Inv(states[0]) && Asleep(states[0], t, wakeup)
    requires AllBefore(states, acts, t, wakeup)
    ensures Asleep(states[|acts|], t, wakeup) && NeverDispatched(states, acts, t)
    decreases |acts|
  {
    if acts != [] {
      RunTail(states, acts);
      StepInv(states[0], acts[0]);
      AllBeforeTail(states, acts, t, wakeup);
      hide After, Enabled, Inv, IsRun, AllBefore, NeverDispatched, Before, Dispatched, Asleep;
      StaysAsleep(states[0], acts[0], t, wakeup);
      SleepHonoured(states[1..], acts[1..], t, wakeup);
      NeverDispatchedTail(states, acts, t);
    }
  }

  lemma AllBeforeTail(states: seq<State>, acts: seq<Action>, t: nat, wakeup: nat)
    requires |states| == |acts| + 1 && acts != [] && AllBefore(states, acts, t, wakeup)
    ensures Before(states[0], acts[0], t, wakeup) && AllBefore(states[1..], acts[1..], t, wakeup)
  {
    hide Before;
  }

  lemma NeverDispatchedTail(states: seq<State>, acts: seq<Action>, t: nat)
    requires |states| == |acts| + 1 && acts != []
    requires !Dispatched(states[0], acts[0], t) && NeverDispatched(states[1..], acts[1..], t)
    ensures NeverDispatched(states, acts, t)
  {
    hide Dispatched;
    forall k | 0 <= k < |acts| ensures !Dispatched(states[k], acts[k], t) {
      assert k > 0 ==> states[1..][k - 1] == states[k] && acts[1..][k - 1] == acts[k];
    }
  }

  lemma StaysAsleep(s: State, a: Action, t: nat, wakeup: nat)
    requires Inv(s) && Enabled(s, a) && Asleep(s, t, wakeup) && Before(s, a, t, wakeup)
    ensures Asleep(After(s, a), t, wakeup) && !Dispatched(s, a, t)
  {
    hide Inv, After, Shape, Dispatched;
    WakeupKept(s, a, t);
    TasksStay(s, a);
    if After(s, a).tasks[t].status != Sleeping {
      NeverEarly(s, a, t);
    }
    if Dispatched(s, a, t) {
      DispatchedRuns(s, a, t);
    }
  }

  lemma TasksStay(s: State, a: Action)
    requires Enabled(s, a)
    ensures |After(s, a).tasks| >= |s.tasks| && After(s, a).idle == s.idle
  {
  }

  lemma DispatchedRuns(s: State, a: Action, t: nat)
    requires Enabled(s, a) && Dispatched(s, a, t)
    ensures t < |After(s, a).tasks| && After(s, a).tasks[t].status == Running
  {
    hide Requeue, Dispatch, FirstRunnable;
    RequeueShape(s, a.cpu, a.stack);
    RequeueRunning(s, a.cpu, a.stack, t);
    DispatchRuns(Requeue(s, a.cpu, a.stack), a.cpu, a.clock);
  }

  lemma DispatchRuns(r: State, cpu: nat, clock: seq<nat>)
    requires Shape(r) && cpu < |r.running| && |r.active| <= |clock|
    ensures var s := Dispatch(r, cpu, clock);
            && cpu < |s.running| && s.running[cpu].Some? && s.running[cpu].value < |s.tasks|
            && s.tasks[s.running[cpu].value].status == Running
  {
    hide FirstRunnable, Rotated;
  }

  /** A dead task is never dispatched. */
  lemma DeadStays(s: State, a: Action, t: nat)
    requires Inv(s) && Enabled(s, a) && t < |s.tasks| && t !in s.idle && s.tasks[t].status == Dead
    requires Some(t) !in s.running
    ensures !Dispatched(s, a, t) && After(s, a).tasks[t].status == Dead && t in After(s, a).active
  {
    hide QueueOk, CpusOk, Requeue, Dispatch, FirstRunnable;
    assert t in s.active;
    match a
    case Switch(cpu, stack, clock) =>
      RequeueShape(s, cpu, stack);
      RequeueTask(s, cpu, stack, t);
      assert s.idle[cpu] in s.idle;
      DispatchTask(Requeue(s, cpu, stack), cpu, clock, t);
    case _ =>
  }

  /** So a task that calls sched_sleep for `millis` milliseconds at time `now` is not put on a
      CPU before `now + millis` milliseconds, as long as the sum does not wrap around. */
  lemma SleepLasts(states: seq<State>, acts: seq<Action>, cpu: nat, millis: nat, now: nat, t: nat)
    requires IsRun(states, acts) && Inv(states[0]) && acts != [] && acts[0] == Sleep(cpu, millis, now)
    requires t !in states[0].idle && cpu < |states[0].running| && states[0].running[cpu] == Some(t)
    requires now + millis * NANOS < TWO64 && AllBefore(states[1..], acts[1..], t, now + millis * NANOS)
    ensures NeverDispatched(states, acts, t)
  {
    RunTail(states, acts);
    StepInv(states[0], acts[0]);
    assert Asleep(After(states[0], acts[0]), t, now + millis * NANOS);
    hide After, Inv, IsRun, AllBefore, NeverDispatched, Asleep;
    SleepHonoured(states[1..], acts[1..], t, now + millis * NANOS);
    NeverDispatchedTail(states, acts, t);
  }

  /** The switches of one CPU. */
  function SwitchesOf(acts: seq<Action>, c: nat): nat {
    if acts == [] then 0
    else SwitchesOf(acts[..|acts| - 1], c) + if acts[|acts| - 1].Switch? && acts[|acts| - 1].cpu == c then 1 else 0
  }

  /** sched_get_ticks counts the switches of its CPU, modulo the width of the counter. */
  lemma {:induction false} TicksCount(states: seq<State>, acts: seq<Action>, c: nat)
    requires IsRun(states, acts) && Inv(states[0]) && c < |states[0].ticks| && states[0].ticks[c] < TWO64
    ensures c < |states[|acts|].ticks|
    ensures states[|acts|].ticks[c] == (states[0].ticks[c] + SwitchesOf(acts, c)) % TWO64
  {
    hide After, Enabled, Inv, IsRun;
    RunSize(states, acts);
    if acts != [] {
      var n := |acts| - 1;
      RunInit(states, acts);
      TicksCount(states[..n + 1], acts[..n], c);
      TickStep(states[n], acts[n], c);
      AddOne(states[0].ticks[c] + SwitchesOf(acts[..n], c));
    }
  }

  lemma AddOne(x: nat)
    ensures (x % TWO64 + 1) % TWO64 == (x + 1) % TWO64
  {
  }

  lemma RunSize(states: seq<State>, acts: seq<Action>)
    requires IsRun(states, acts)
    ensures |states| == |acts| + 1
  {
  }

  lemma RunInit(states: seq<State>, acts: seq<Action>)
    requires IsRun(states, acts) && acts != []
    ensures var n := |acts| - 1;
            && |states| == n + 2 && IsRun(states[..n + 1], acts[..n])
            && Enabled(states[n], acts[n]) && states[n + 1] == After(states[n], acts[n])
  {
  }

  lemma TickStep(s: State, a: Action, c: nat)
    requires Enabled(s, a) && c < |s.ticks|
    ensures var t := After(s, a);
            |t.ticks| == |s.ticks|
            && t.ticks[c] == if a.Switch? && a.cpu == c then (s.ticks[c] + 1) % TWO64 else s.ticks[c]
  {
  }

  /** The stack a task is resumed on is the one it was switched out with, and its last tick is
      the tick at which it was. */
  lemma StackKept(s: State, a: Action, t: nat)
    requires Inv(s) && Enabled(s, a) && t < |s.tasks|
    ensures After(s, a).tasks[t].kstackTop
            == if a.Switch? && s.running[a.cpu] == Some(t) then a.stack else s.tasks[t].kstackTop
    ensures After(s, a).tasks[t].lastTick
            == if a.Switch? && s.running[a.cpu] == Some(t) then s.ticks[a.cpu] else s.tasks[t].lastTick
  {
  }
}
