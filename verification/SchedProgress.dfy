/** What the scheduler of kernel/proc/sched.c owes every task that can run: a task that is
    preempted, added, or through with its sleep gets a CPU again, in every interleaving. */
module SchedProgress {
  import opened Common
  import opened SchedSteps

  /** Task `t` is at position `k` of the queue. */
  ghost predicate Queued(s: State, t: nat, k: nat) {
    Shape(s) && k < |s.active| && s.active[k] == t
  }

  /** A ready task at position `k` gets a CPU within `k + 1` switches, whatever the clock reads. */
  lemma ReadyRuns(states: seq<State>, acts: seq<Action>, t: nat, k: nat)
    requires IsRun(states, acts) && Inv(states[0]) && Queued(states[0], t, k)
    requires states[0].tasks[t].status == Ready && Switches(acts) > k
    ensures DispatchedWithin(states, acts, t, k)
  {
    assert Waits(states[0], t, k, 0);
    assert forall i :: 0 <= i < |acts| ==> ReadsFrom(acts[i], 0);
    hide IsRun, Inv, Waits, ReadsFrom, DispatchedWithin;
    BoundedWaiting(states, acts, t, k, 0);
  }

  /** So does a sleeping task, when the clock reads its wake-up time or later. */
  lemma SleeperRuns(states: seq<State>, acts: seq<Action>, t: nat, k: nat)
    requires IsRun(states, acts) && Inv(states[0]) && Queued(states[0], t, k)
    requires states[0].tasks[t].status == Sleeping && Switches(acts) > k
    requires forall i :: 0 <= i < |acts| ==> ReadsFrom(acts[i], states[0].tasks[t].wakeup)
    ensures DispatchedWithin(states, acts, t, k)
  {
    var now := states[0].tasks[t].wakeup;
    assert Waits(states[0], t, k, now);
    hide IsRun, Inv, Waits, ReadsFrom, DispatchedWithin;
    BoundedWaiting(states, acts, t, k, now);
  }

  // ----- the task that is switched out -----

  /** The switch takes `t`, which is no idle task, off its CPU. */
  ghost predicate SwitchesOut(s: State, a: Action, t: nat) {
    Enabled(s, a) && a.Switch? && s.running[a.cpu] == Some(t) && t !in s.idle
  }

  /** In a switch an interrupted task keeps its status and its wake-up time, except that it is no
      longer running but ready, and it is behind the tasks that were waiting. */
  lemma SwitchedOut(s: State, a: Action, t: nat)
    requires Inv(s) && SwitchesOut(s, a, t)
    ensures var r := Requeue(s, a.cpu, a.stack);
            && Shape(r) && |r.active| == |s.active| + 1 && a.cpu < |r.running|
            && Queued(r, t, |s.active|) && r.tasks[t].wakeup == s.tasks[t].wakeup && t != r.idle[a.cpu]
            && r.tasks[t].status == (if s.tasks[t].status == Running then Ready else s.tasks[t].status)
            && After(s, a) == Dispatch(r, a.cpu, a.clock)
  {
    RequeueShape(s, a.cpu, a.stack);
    assert s.idle[a.cpu] in s.idle;
  }

  /** A dispatch puts the last task of the queue on the CPU, or moves it forward, or leaves it. */
  lemma LastMoves(r: State, cpu: nat, clock: seq<nat>, t: nat, n: nat)
    requires Shape(r) && cpu < |r.running| && |r.active| == n + 1 <= |clock| && Queued(r, t, n) && t != r.idle[cpu]
    ensures var s := Dispatch(r, cpu, clock);
            s.running[cpu] == Some(t)
            || exists k: nat ::
                 k <= n && Queued(s, t, k) && s.tasks[t] == r.tasks[t] && (Runnable(r.tasks[t], clock[n]) ==> k < n)
  {
    hide FirstRunnable;
    var s, j := Dispatch(r, cpu, clock), FirstRunnable(r.tasks, r.active, clock, 0);
    DispatchTask(r, cpu, clock, t);
    if s.running[cpu] != Some(t) {
      assert j != n;
      DispatchShape(r, cpu, clock);
      if j < n {
        assert Rotated(r.active, j)[n - j - 1] == t;
        assert Queued(s, t, n - j - 1);
      } else {
        assert !Runnable(r.tasks[r.active[n]], clock[n]) by {
          NoneRunnable(r, clock);
        }
        assert Queued(s, t, n);
      }
    }
  }

  lemma NoneRunnable(r: State, clock: seq<nat>)
    requires Shape(r) && |r.active| <= |clock| && FirstRunnable(r.tasks, r.active, clock, 0) == |r.active|
    ensures forall k :: 0 <= k < |r.active| ==> !Runnable(r.tasks[r.active[k]], clock[k])
  {
  }

  lemma DispatchShape(r: State, cpu: nat, clock: seq<nat>)
    requires Shape(r) && cpu < |r.running| && |r.active| <= |clock|
    ensures Shape(Dispatch(r, cpu, clock))
  {
    hide FirstRunnable;
    var j := FirstRunnable(r.tasks, r.active, clock, 0);
    forall i | 0 <= i < |Rotated(r.active, j)| ensures Rotated(r.active, j)[i] < |r.tasks| {
      assert Rotated(r.active, j)[i] in r.active;
    }
  }

  /** A running task that is preempted is put on the CPU again at once, or it is ready, at a
      position below the number of tasks that were waiting. */
  lemma Preempted(s: State, a: Action, t: nat)
    requires Inv(s) && SwitchesOut(s, a, t) && s.tasks[t].status == Running
    ensures Dispatched(s, a, t)
            || exists k: nat :: k < |s.active| && Queued(After(s, a), t, k) && After(s, a).tasks[t].status == Ready
  {
    SwitchedOut(s, a, t);
    var r, n := Requeue(s, a.cpu, a.stack), |s.active|;
    assert Runnable(r.tasks[t], a.clock[n]);
    hide Requeue, Dispatch, Inv, Runnable;
    LastMoves(r, a.cpu, a.clock, t, n);
  }

  /** A sleeping task that is switched out is put on the CPU again at once, or it sleeps on, at a
      position no larger than the number of tasks that were waiting. */
  lemma PutToSleep(s: State, a: Action, t: nat)
    requires Inv(s) && SwitchesOut(s, a, t) && s.tasks[t].status == Sleeping
    ensures Dispatched(s, a, t)
            || exists k: nat :: k <= |s.active| && Queued(After(s, a), t, k)
                 && After(s, a).tasks[t].status == Sleeping && After(s, a).tasks[t].wakeup == s.tasks[t].wakeup
  {
    SwitchedOut(s, a, t);
    hide Requeue, Dispatch, Inv, Runnable;
    LastMoves(Requeue(s, a.cpu, a.stack), a.cpu, a.clock, t, |s.active|);
  }

  lemma MoreRoom(states: seq<State>, acts: seq<Action>, t: nat, j: nat, k: nat)
    requires |states| == |acts| + 1 && DispatchedWithin(states, acts, t, j) && j <= k
    ensures DispatchedWithin(states, acts, t, k)
  {
    hide Dispatched;
  }

  /** Over every run: a task that is preempted while it is running gets a CPU again, in the same
      switch or before as many more switches are over as tasks were waiting. */
  lemma PreemptedRuns(states: seq<State>, acts: seq<Action>, t: nat)
    requires IsRun(states, acts) && Inv(states[0]) && acts != []
    requires SwitchesOut(states[0], acts[0], t) && states[0].tasks[t].status == Running
    requires Switches(acts[1..]) >= |states[0].active|
    ensures |states| == |acts| + 1
    ensures Dispatched(states[0], acts[0], t)
            || (|states[0].active| > 0 && DispatchedWithin(states[1..], acts[1..], t, |states[0].active| - 1))
  {
    RunTail(states, acts);
    StepInv(states[0], acts[0]);
    Preempted(states[0], acts[0], t);
    hide IsRun, Inv, After, Enabled, Dispatched, DispatchedWithin, SwitchesOut;
    if !Dispatched(states[0], acts[0], t) {
      var k: nat :| k < |states[0].active| && Queued(After(states[0], acts[0]), t, k)
                    && After(states[0], acts[0]).tasks[t].status == Ready;
      ReadyRuns(states[1..], acts[1..], t, k);
      MoreRoom(states[1..], acts[1..], t, k, |states[0].active| - 1);
    }
  }

  // ----- the task that is added -----

  /** Over every run: a task that is added gets a CPU before one more switch is over than tasks were
      waiting, and it begins on the stack it was made with. */
  lemma AddedRuns(states: seq<State>, acts: seq<Action>, stack: nat)
    requires IsRun(states, acts) && Inv(states[0]) && acts != [] && acts[0] == Add(stack)
    requires Switches(acts[1..]) > |states[0].active|
    ensures |states| == |acts| + 1
    ensures var t, after := |states[0].tasks|, states[1];
            && Queued(after, t, |states[0].active|)
            && after.tasks[t].status == Ready && after.tasks[t].kstackTop == stack
            && after.tasks[t].lastTick == 0 && after.tasks[t].wakeup == 0
            && DispatchedWithin(states[1..], acts[1..], t, |states[0].active|)
  {
    RunTail(states, acts);
    StepInv(states[0], acts[0]);
    AddedWaits(states[0], stack);
    assert states[1..][0] == states[1];
    hide IsRun, Inv, After, Enabled, DispatchedWithin;
    ReadyRuns(states[1..], acts[1..], |states[0].tasks|, |states[0].active|);
  }

  lemma AddedWaits(s: State, stack: nat)
    requires Enabled(s, Add(stack))
    ensures var after, t := After(s, Add(stack)), |s.tasks|;
            && Queued(after, t, |s.active|) && after.tasks[t].status == Ready && after.tasks[t].kstackTop == stack
            && after.tasks[t].lastTick == 0 && after.tasks[t].wakeup == 0
  {
  }

  // ----- the task that sleeps -----

  /** The action is a region of another CPU. */
  predicate Elsewhere(a: Action, cpu: nat) {
    match a
    case Switch(c, _, _) => c != cpu
    case Sleep(c, _, _) => c != cpu
    case Add(_) => true
  }

  /** What other CPUs do leaves the task on a CPU alone. */
  lemma StaysOn(s: State, a: Action, cpu: nat, t: nat)
    requires Inv(s) && Enabled(s, a) && cpu < |s.running| && s.running[cpu] == Some(t) && Elsewhere(a, cpu)
    ensures var after := After(s, a);
            cpu < |after.running| && after.running[cpu] == Some(t) && t < |after.tasks| && after.tasks[t] == s.tasks[t]
  {
    match a
    case Switch(c, stack, clock) =>
      SwitchElsewhere(s, c, stack, clock, cpu, t);
    case _ =>
  }

  lemma SwitchElsewhere(s: State, c: nat, stack: nat, clock: seq<nat>, cpu: nat, t: nat)
    requires Inv(s) && c < |s.running| && |s.active| < |clock|
    requires cpu < |s.running| && s.running[cpu] == Some(t) && c != cpu
    ensures var after := Switched(s, c, stack, clock);
            cpu < |after.running| && after.running[cpu] == Some(t) && t < |after.tasks| && after.tasks[t] == s.tasks[t]
  {
    RequeueInv(s, c, stack);
    var r := Requeue(s, c, stack);
    RequeueElsewhere(s, c, stack, cpu, t);
    hide Requeue, AllPlaced;
    assert Some(t) in r.running;
    assert t !in r.active && t != r.idle[c];
    var j := FirstRunnable(r.tasks, r.active, clock, 0);
    if j < |r.active| {
      assert r.active[j] in r.active;
    }
  }

  lemma RequeueElsewhere(s: State, c: nat, stack: nat, cpu: nat, t: nat)
    requires Inv(s) && c < |s.running| && cpu < |s.running| && s.running[cpu] == Some(t) && c != cpu
    ensures var r := Requeue(s, c, stack);
            && |r.running| == |s.running| && r.running[cpu] == Some(t) && r.tasks[t] == s.tasks[t]
            && |r.active| <= |s.active| + 1
  {
  }

  ghost predicate AllElsewhere(acts: seq<Action>, cpu: nat) {
    forall i :: 0 <= i < |acts| ==> Elsewhere(acts[i], cpu)
  }

  lemma {:induction false} StaysOnRun(states: seq<State>, acts: seq<Action>, cpu: nat, t: nat)
    requires IsRun(states, acts) && Inv(states[0]) && AllElsewhere(acts, cpu)
    requires cpu < |states[0].running| && states[0].running[cpu] == Some(t)
    ensures var last := states[|acts|];
            && Inv(last) && cpu < |last.running| && last.running[cpu] == Some(t) && last.idle == states[0].idle
            && t < |states[0].tasks| && t < |last.tasks| && last.tasks[t] == states[0].tasks[t]
  {
    hide After, Enabled, Inv, IsRun, Elsewhere;
    RunSize(states, acts);
    OnCpu(states[0], cpu, t);
    if acts != [] {
      var n := |acts| - 1;
      RunInit(states, acts);
      StaysOnRun(states[..n + 1], acts[..n], cpu, t);
      StepInv(states[n], acts[n]);
      StaysOn(states[n], acts[n], cpu, t);
    }
  }

  lemma OnCpu(s: State, cpu: nat, t: nat)
    requires Inv(s) && cpu < |s.running| && s.running[cpu] == Some(t)
    ensures t < |s.tasks|
  {
  }

  /** A sleeping task is switched out, and all later clock readings are its wake-up time or more:
      then it gets a CPU again, in the same switch or before one more switch is over than tasks
      were waiting. */
  lemma SwitchedOutWakes(states: seq<State>, acts: seq<Action>, t: nat)
    requires IsRun(states, acts) && Inv(states[0]) && acts != []
    requires SwitchesOut(states[0], acts[0], t) && states[0].tasks[t].status == Sleeping
    requires forall i :: 1 <= i < |acts| ==> ReadsFrom(acts[i], states[0].tasks[t].wakeup)
    requires Switches(acts[1..]) > |states[0].active|
    ensures |states| == |acts| + 1
    ensures Dispatched(states[0], acts[0], t) || DispatchedWithin(states[1..], acts[1..], t, |states[0].active|)
  {
    RunTail(states, acts);
    StepInv(states[0], acts[0]);
    PutToSleep(states[0], acts[0], t);
    hide IsRun, Inv, After, Enabled, Dispatched, DispatchedWithin, SwitchesOut, ReadsFrom;
    if !Dispatched(states[0], acts[0], t) {
      var s := After(states[0], acts[0]);
      var k: nat :| k <= |states[0].active| && Queued(s, t, k) && s.tasks[t].status == Sleeping
                    && s.tasks[t].wakeup == states[0].tasks[t].wakeup;
      forall i | 0 <= i < |acts[1..]| ensures ReadsFrom(acts[1..][i], s.tasks[t].wakeup) {
        assert acts[1..][i] == acts[i + 1];
      }
      SleeperRuns(states[1..], acts[1..], t, k);
      MoreRoom(states[1..], acts[1..], t, k, |states[0].active|);
    }
  }

  /** So `sched_sleep` ends: a task calls it at time `now` for `millis` milliseconds, its CPU switches
      `m` steps later, and from then on all clock readings are at least `now` plus 1,000,000 times
      `millis`.  Then the task gets a CPU again, in that switch or before one more switch is over than
      tasks were waiting at it. */
  lemma SleepEnds(states: seq<State>, acts: seq<Action>, cpu: nat, millis: nat, now: nat, t: nat, m: nat)
    requires IsRun(states, acts) && Inv(states[0]) && 1 <= m < |acts| && acts[0] == Sleep(cpu, millis, now)
    requires cpu < |states[0].running| && states[0].running[cpu] == Some(t) && t !in states[0].idle
    requires now + millis * 1_000_000 < TWO64
    requires AllElsewhere(acts[1..m], cpu) && acts[m].Switch? && acts[m].cpu == cpu
    requires forall i :: m < i < |acts| ==> ReadsFrom(acts[i], now + millis * 1_000_000)
    requires |states| == |acts| + 1 && Switches(acts[m + 1..]) > |states[m].active|
    ensures Dispatched(states[m], acts[m], t)
            || DispatchedWithin(states[m + 1..], acts[m + 1..], t, |states[m].active|)
  {
    hide IsRun, Inv, After, Enabled, Dispatched, DispatchedWithin, ReadsFrom, Switches, AllElsewhere, SwitchesOut;
    StillAsleep(states, acts, cpu, millis, now, t, m);
    SleepParts(states, acts, m);
    var later, rest := states[m..], acts[m..];
    assert later[1..] == states[m + 1..] && rest[1..] == acts[m + 1..] && later[0] == states[m] && rest[0] == acts[m];
    forall i | 1 <= i < |rest| ensures ReadsFrom(rest[i], now + millis * 1_000_000) {
      assert rest[i] == acts[m + i];
    }
    SwitchedOutWakes(later, rest, t);
  }

  /** The state in which the sleeping task is switched out. */
  lemma StillAsleep(states: seq<State>, acts: seq<Action>, cpu: nat, millis: nat, now: nat, t: nat, m: nat)
    requires IsRun(states, acts) && Inv(states[0]) && 1 <= m < |acts| && acts[0] == Sleep(cpu, millis, now)
    requires cpu < |states[0].running| && states[0].running[cpu] == Some(t) && t !in states[0].idle
    requires now + millis * 1_000_000 < TWO64
    requires AllElsewhere(acts[1..m], cpu) && acts[m].Switch? && acts[m].cpu == cpu
    ensures |states| == |acts| + 1 && Inv(states[m]) && SwitchesOut(states[m], acts[m], t)
    ensures t < |states[m].tasks| && states[m].tasks[t].status == Sleeping
    ensures states[m].tasks[t].wakeup == now + millis * 1_000_000
  {
    hide Inv, IsRun, After, Enabled, AllElsewhere;
    RunTail(states, acts);
    StepInv(states[0], acts[0]);
    SleepSets(states[0], cpu, millis, now, t);
    SleepParts(states, acts, m);
    StaysOnRun(states[1..m + 1], acts[1..m], cpu, t);
  }

  lemma SleepParts(states: seq<State>, acts: seq<Action>, m: nat)
    requires IsRun(states, acts) && 1 <= m < |acts|
    ensures |states| == |acts| + 1 && states[1] == After(states[0], acts[0]) && Enabled(states[m], acts[m])
    ensures IsRun(states[1..m + 1], acts[1..m]) && IsRun(states[m..], acts[m..])
    ensures states[1..m + 1][0] == states[1] && states[1..m + 1][|acts[1..m]|] == states[m]
  {
    hide After, Enabled;
  }

  /** What `sched_sleep` stores. */
  lemma SleepSets(s: State, cpu: nat, millis: nat, now: nat, t: nat)
    requires Enabled(s, Sleep(cpu, millis, now)) && s.running[cpu] == Some(t)
    ensures var after := After(s, Sleep(cpu, millis, now));
            && after.running == s.running && after.idle == s.idle && t < |after.tasks|
            && after.tasks[t].status == Sleeping && after.tasks[t].wakeup == (now + millis * 1_000_000) % TWO64
  {
  }

  // ----- the task on a CPU -----

  /** A task on a CPU is running, or it has called `sched_sleep` and not been switched out yet. */
  ghost predicate Busy(s: State) {
    forall c :: 0 <= c < |s.running| && s.running[c].Some? ==> BusyTask(s, s.running[c].value)
  }

  ghost predicate BusyTask(s: State, t: nat) {
    t < |s.tasks| && (s.tasks[t].status == Running || s.tasks[t].status == Sleeping)
  }

  lemma StepBusy(s: State, a: Action)
    requires Inv(s) && Busy(s) && Enabled(s, a)
    ensures Busy(After(s, a))
  {
    var after := After(s, a);
    StepInv(s, a);
    assert |after.running| == |s.running|;
    forall c: nat | c < |after.running| && after.running[c].Some? ensures BusyTask(after, after.running[c].value) {
      if Elsewhere(a, c) {
        BusyElsewhere(s, a, c);
      } else if a.Switch? {
        DispatchedRuns(s, a, after.running[c].value);
      } else {
        SleepSets(s, c, a.millis, a.now, s.running[c].value);
      }
    }
  }

  lemma BusyElsewhere(s: State, a: Action, c: nat)
    requires Inv(s) && Busy(s) && Enabled(s, a) && Elsewhere(a, c) && c < |s.running|
    requires c < |After(s, a).running| && After(s, a).running[c].Some?
    ensures BusyTask(After(s, a), After(s, a).running[c].value)
  {
    if s.running[c].Some? {
      StaysOn(s, a, c, s.running[c].value);
    }
  }

  /** Over every run that begins so, as with no task on any CPU, a task on a CPU is running or in
      its call of `sched_sleep`; so a preempted task is one of the two above. */
  lemma {:induction false} RunBusy(states: seq<State>, acts: seq<Action>)
    requires IsRun(states, acts) && Inv(states[0]) && Busy(states[0])
    ensures Busy(states[|acts|])
  {
    hide After, Enabled, Inv, IsRun, Busy;
    RunSize(states, acts);
    if acts != [] {
      var n := |acts| - 1;
      RunInit(states, acts);
      RunInv(states[..n + 1], acts[..n]);
      RunBusy(states[..n + 1], acts[..n]);
      StepBusy(states[n], acts[n]);
    }
  }
}
