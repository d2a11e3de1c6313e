/** The scheduler of kernel/proc/sched.c, updated in place.  Every method is the region under
    `sched_lock` of the function it is named after. */
module Sched {
  import opened Common
  import opened SchedSteps

  class Scheduler {
    var tasks: seq<Task>
    /** `tasks_active`, by task id. */
    var active: seq<nat>
    var running: seq<Option<nat>>
    const idle: seq<nat>
    /** `tasks_coordinate`. */
    var ticks: seq<nat>

    ghost function View(): State
      reads this
    {
      State(tasks, active, running, idle, ticks)
    }

    /** The CPUs are up, each with an idle task of its own, and no other task exists. */
    constructor (cpus: nat, stacks: seq<nat>)
      requires |stacks| == cpus
      ensures Inv(View()) && |running| == cpus && active == []
    {
      tasks := seq(cpus, (c: nat) requires c < |stacks| => Task(Ready, 0, 0, stacks[c]));
      active := [];
      running := seq(cpus, c => None);
      idle := seq(cpus, c => c);
      ticks := seq(cpus, c => 0);
      new;
      forall c: nat | c < cpus ensures c in idle {
        assert idle[c] == c;
      }
    }

    /** `do_context_switch`; `clock` are the readings of the clock, one a visit of the loop.
        Returns the stack to go on with. */
    method Switch(cpu: nat, stack: nat, clock: seq<nat>) returns (next: nat)
      requires Shape(View()) && cpu < |running| && |active| < |clock|
      modifies this
      ensures View() == Switched(old(View()), cpu, stack, clock)
      ensures running[cpu].Some? && running[cpu].value < |tasks| && next == tasks[running[cpu].value].kstackTop
    {
      ghost var s := View();
      RequeueShape(s, cpu, stack);
      PutBack(cpu, stack);
      ghost var r := Requeue(s, cpu, stack);
      hide Requeue, FirstRunnable, Ids;
      var chosen := Select(clock);
      var id := if chosen.Some? then chosen.value else idle[cpu];
      RequeueRunning(s, cpu, stack, id);
      tasks := tasks[id := tasks[id].(status := Running)];
      running := running[cpu := Some(id)];
      ticks := ticks[cpu := (ticks[cpu] + 1) % TWO64];
      next := tasks[id].kstackTop;
    }

    /** The part of `do_context_switch` before the loop: the interrupted task is saved, and
        queued unless it is the idle task. */
    method PutBack(cpu: nat, stack: nat)
      requires Shape(View()) && cpu < |running|
      modifies this`tasks, this`active
      ensures tasks == Requeue(old(View()), cpu, stack).tasks
      ensures active == Requeue(old(View()), cpu, stack).active
    {
      if running[cpu].Some? {
        var curr := running[cpu].value;
        tasks := tasks[curr := tasks[curr].(kstackTop := stack)];
        tasks := tasks[curr := tasks[curr].(lastTick := ticks[cpu])];
        if tasks[curr].status == Running {
          tasks := tasks[curr := tasks[curr].(status := Ready)];
        }
        if curr != idle[cpu] {
          active := active + [curr];
        }
      }
    }

    /** The loop: the first runnable task leaves the queue, those before it go to the back;
        without one the queue ends up as it was. */
    method Select(clock: seq<nat>) returns (next: Option<nat>)
      requires Ids(active, |tasks|) && |active| <= |clock|
      modifies this`active
      ensures var j := FirstRunnable(tasks, old(active), clock, 0);
              && active == Rotated(old(active), j)
              && next == if j < |old(active)| then Some(old(active)[j]) else None
    {
      var loopSize := 0;
      ghost var q := active;
      TurnedEnds(q);
      hide Turned, Rotated;
      while true
        invariant loopSize <= |q| && (loopSize == |q| ==> q == [])
        invariant active == Turned(q, loopSize)
        invariant FirstRunnable(tasks, q, clock, loopSize) == FirstRunnable(tasks, q, clock, 0)
        decreases |q| - loopSize
      {
        if |active| == 0 {
          return None;
        }
        TurnStep(q, loopSize);
        var head := active[0];
        active := active[1..];
        if tasks[head].status == Ready {
          return Some(head);
        }
        if tasks[head].status == Sleeping && clock[loopSize] >= tasks[head].wakeup {
          return Some(head);
        }
        active := active + [head];
        loopSize := loopSize + 1;
        if loopSize >= |active| {
          return None;
        }
      }
    }

    /** `sched_sleep` on a CPU that has a scheduler. */
    method Sleep(cpu: nat, millis: nat, now: nat)
      requires Shape(View()) && cpu < |running|
      modifies this`tasks
      ensures View() == Slept(old(View()), cpu, millis, now)
    {
      if running[cpu].Some? {
        var curr := running[cpu].value;
        tasks := tasks[curr := tasks[curr].(wakeup := (now + millis * NANOS) % TWO64)];
        tasks := tasks[curr := tasks[curr].(status := Sleeping)];
      }
    }

    /** `sched_add`; the new task has the next task id. */
    method Add(stack: nat)
      requires |tasks| < TID_MAX
      modifies this`tasks, this`active
      ensures View() == Added(old(View()), stack)
    {
      var id := |tasks|;
      tasks := tasks + [Task(Ready, 0, 0, stack)];
      active := active + [id];
    }
  }
}
