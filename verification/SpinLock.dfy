/** The spinlock of kernel/lib/lock.h, instruction by instruction, on any number of CPUs that
    take steps in any order and may be interrupted wherever interrupts are enabled. */
module SpinLock {
  import opened Common

  /** RFLAGS: the interrupt flag, the carry flag, and the other bits. */
  datatype Flags = Flags(ie: bool, cf: bool, rest: nat)

  /** The instruction a CPU executes next.  `Out` and `Critical` stand for the code around
      `lock_lock` and `lock_release`. */
  datatype Pc =
    | Out
    | Cli | Bts | Jnc | Pause | Bt | Jc | BtsAgain | JcAgain | Pop
    | Critical
    | Btr | Popfq

  /** A flow of control: the next instruction, the flags it has on its stack, and (for the
      statements below) the flags with which it entered `lock_lock`. */
  datatype Flow = Flow(pc: Pc, pushed: Option<Flags>, entry: Flags)

  /** A CPU: its flags, its flow, and the flows its interrupts have suspended, latest first,
      each with the flags the hardware saved. */
  datatype Cpu = Cpu(flags: Flags, flow: Flow, suspended: seq<(Flow, Flags)>)

  /** `lock_t` and the CPUs. */
  datatype State = State(lock: bool, rflags: Flags, cpus: seq<Cpu>)

  /** What a CPU may do: its next instruction; code of its own outside or inside the critical
      section, which leaves some flags behind; an interrupt; the return from one. */
  datatype Action = Instruction | Local(flags: Flags) | Interrupt | Return

  // ----- the instructions -----

  /** One instruction of a CPU: the CPU and the lock after it. */
  function Execute(lock: bool, rflags: Flags, cpu: Cpu): (bool, Flags, Cpu) {
    var f, w := cpu.flags, cpu.flow;
    match w.pc
    // lock_lock: pushfq; cli; lock bts; jnc 2f; 1: pause; bt; jc 1b; lock bts; jc 1b; 2: pop
    case Out => (lock, rflags, cpu.(flow := Flow(Cli, Some(f), f)))
    case Cli => (lock, rflags, cpu.(flags := f.(ie := false), flow := w.(pc := Bts)))
    case Bts => (true, rflags, cpu.(flags := f.(cf := lock), flow := w.(pc := Jnc)))
    case Jnc => (lock, rflags, cpu.(flow := w.(pc := if f.cf then Pause else Pop)))
    case Pause => (lock, rflags, cpu.(flow := w.(pc := Bt)))
    case Bt => (lock, rflags, cpu.(flags := f.(cf := lock), flow := w.(pc := Jc)))
    case Jc => (lock, rflags, cpu.(flow := w.(pc := if f.cf then Pause else BtsAgain)))
    case BtsAgain => (true, rflags, cpu.(flags := f.(cf := lock), flow := w.(pc := JcAgain)))
    case JcAgain => (lock, rflags, cpu.(flow := w.(pc := if f.cf then Pause else Pop)))
    case Pop =>
      (lock, if w.pushed.Some? then w.pushed.value else rflags, cpu.(flow := w.(pc := Critical, pushed := None)))
    // lock_release: push; lock btr; popfq
    case Critical => (lock, rflags, cpu.(flow := w.(pc := Btr, pushed := Some(rflags))))
    case Btr => (false, rflags, cpu.(flags := f.(cf := lock), flow := w.(pc := Popfq)))
    case Popfq =>
      (lock, rflags, cpu.(flags := if w.pushed.Some? then w.pushed.value else f, flow := w.(pc := Out, pushed := None)))
  }

  /** Code outside may do anything to the flags; code in the critical section does not enable
      interrupts.  An interrupt needs the interrupt flag and clears it. */
  predicate Enabled(cpu: Cpu, a: Action) {
    match a
    case Instruction => true
    case Local(f) => cpu.flow.pc == Out || (cpu.flow.pc == Critical && f.ie == cpu.flags.ie)
    case Interrupt => cpu.flags.ie
    case Return => cpu.flow.pc == Out && cpu.suspended != []
  }

  function Next(s: State, c: nat, a: Action): State
    requires c < |s.cpus| && Enabled(s.cpus[c], a)
  {
    var cpu := s.cpus[c];
    match a
    case Instruction =>
      var (lock, rflags, after) := Execute(s.lock, s.rflags, cpu);
      State(lock, rflags, s.cpus[c := after])
    case Local(f) => s.(cpus := s.cpus[c := cpu.(flags := f)])
    case Interrupt =>
      s.(cpus := s.cpus[c := Cpu(cpu.flags.(ie := false), Flow(Out, None, cpu.flags),
                                 [(cpu.flow, cpu.flags)] + cpu.suspended)])
    case Return =>
      s.(cpus := s.cpus[c := Cpu(cpu.suspended[0].1, cpu.suspended[0].0, cpu.suspended[1..])])
  }

  // ----- the invariant -----

  /** Between a `bts` that found the bit clear and the `btr`. */
  predicate Owns(cpu: Cpu) {
    var pc := cpu.flow.pc;
    pc == Pop || pc == Critical || pc == Btr || ((pc == Jnc || pc == JcAgain) && !cpu.flags.cf)
  }

  /** After `cli` and before the final `popfq` is done. */
  predicate Masked(pc: Pc) {
    pc != Out && pc != Cli
  }

  /** The entry flags are on the stack of the flow, except outside and while the lock holds
      them. */
  predicate FlowOk(w: Flow) {
    w.pushed == if w.pc == Out || w.pc == Critical then None else Some(w.entry)
  }

  ghost predicate CpuOk(cpu: Cpu) {
    && FlowOk(cpu.flow) && (Masked(cpu.flow.pc) ==> !cpu.flags.ie)
    && forall i :: 0 <= i < |cpu.suspended| ==> FlowOk(cpu.suspended[i].0) && !Masked(cpu.suspended[i].0.pc)
  }

  /** The invariant of every reachable state: at most one CPU owns the lock, the bit is set
      exactly when one does, and in the critical section the lock holds the owner's flags. */
  ghost predicate Inv(s: State) {
    && (forall c :: 0 <= c < |s.cpus| ==> CpuOk(s.cpus[c]))
    && (forall c, d :: 0 <= c < d < |s.cpus| ==> !(Owns(s.cpus[c]) && Owns(s.cpus[d])))
    && (s.lock <==> Owned(s))
    && (forall c :: 0 <= c < |s.cpus| ==> Holds(s.cpus[c], s.rflags))
  }

  ghost predicate Owned(s: State) {
    exists c :: 0 <= c < |s.cpus| && Owns(s.cpus[c])
  }

  predicate Holds(cpu: Cpu, rflags: Flags) {
    cpu.flow.pc == Critical ==> rflags == cpu.flow.entry
  }

  /** The effect of an action on who owns the lock: winning a `bts` takes it if the bit was
      clear, `btr` gives it up, nothing else changes it. */
  lemma OwnershipStep(s: State, c: nat, a: Action)
    requires c < |s.cpus| && Enabled(s.cpus[c], a) && CpuOk(s.cpus[c])
    ensures var cpu, t := s.cpus[c], Next(s, c, a);
            var after := t.cpus[c];
            if a.Instruction? && (cpu.flow.pc == Bts || cpu.flow.pc == BtsAgain)
            then t.lock && !Owns(cpu) && (Owns(after) <==> !s.lock)
            else if a.Instruction? && cpu.flow.pc == Btr then !t.lock && Owns(cpu) && !Owns(after)
            else t.lock == s.lock && (Owns(after) <==> Owns(cpu))
  {
  }

  /** The saved flags change only when the owner stores its own. */
  lemma SavedFlagsStep(s: State, c: nat, a: Action)
    requires c < |s.cpus| && Enabled(s.cpus[c], a) && CpuOk(s.cpus[c]) && Holds(s.cpus[c], s.rflags)
    ensures var t := Next(s, c, a);
            && CpuOk(t.cpus[c]) && Holds(t.cpus[c], t.rflags)
            && (t.rflags != s.rflags ==> Owns(s.cpus[c]))
  {
    var cpu := s.cpus[c];
    if a.Instruction? {
      ExecuteKeeps(s.lock, s.rflags, cpu);
    }
    hide Execute;
    if a.Return? {
      assert FlowOk(cpu.suspended[0].0) && !Masked(cpu.suspended[0].0.pc);
    }
  }

  lemma ExecuteKeeps(lock: bool, rflags: Flags, cpu: Cpu)
    requires CpuOk(cpu) && Holds(cpu, rflags)
    ensures var (_, after, next) := Execute(lock, rflags, cpu);
            CpuOk(next) && Holds(next, after) && (after != rflags ==> Owns(cpu))
  {
  }

  lemma OthersKeep(s: State, c: nat, a: Action)
    requires c < |s.cpus| && Enabled(s.cpus[c], a)
    ensures |Next(s, c, a).cpus| == |s.cpus|
    ensures forall d :: 0 <= d < |s.cpus| && d != c ==> Next(s, c, a).cpus[d] == s.cpus[d]
  {
  }

  /** Every step of every CPU keeps the invariant. */
  lemma StepInv(s: State, c: nat, a: Action)
    requires Inv(s) && c < |s.cpus| && Enabled(s.cpus[c], a)
    ensures Inv(Next(s, c, a))
  {
    var t := Next(s, c, a);
    OwnershipStep(s, c, a);
    SavedFlagsStep(s, c, a);
    OthersKeep(s, c, a);
    assert Owns(s.cpus[c]) ==> Owned(s);
    hide Next, CpuOk, Owns, Enabled, Execute;
    assert Owns(t.cpus[c]) ==> Owned(t);
    forall d | 0 <= d < |t.cpus| ensures Holds(t.cpus[d], t.rflags) {
      if d != c && t.cpus[d].flow.pc == Critical {
        CriticalOwns(t.cpus[d]);
        assert Holds(s.cpus[d], s.rflags);
      }
    }
    forall d | 0 <= d < |s.cpus| && d != c && Owns(s.cpus[d]) ensures Owned(t) && Owned(s) {
      assert Owns(t.cpus[d]);
    }
  }

  lemma CriticalOwns(cpu: Cpu)
    requires cpu.flow.pc == Critical
    ensures Owns(cpu)
  {
  }

  // ----- runs -----

  datatype Step = Step(cpu: nat, action: Action)

  /** Any interleaving of the CPUs' actions. */
  ghost predicate IsRun(states: seq<State>, steps: seq<Step>) {
    && |states| == |steps| + 1
    && forall k :: 0 <= k < |steps| ==> IsStep(states[k], steps[k], states[k + 1])
  }

  ghost predicate IsStep(s: State, e: Step, t: State) {
    e.cpu < |s.cpus| && Enabled(s.cpus[e.cpu], e.action) && t == Next(s, e.cpu, e.action)
  }

  /** `lock_new`, with every CPU outside. */
  ghost predicate Initial(s: State) {
    !s.lock && forall c :: 0 <= c < |s.cpus| ==>
      s.cpus[c].flow.pc == Out && s.cpus[c].flow.pushed == None && s.cpus[c].suspended == []
  }

  lemma InitialInv(s: State)
    requires Initial(s)
    ensures Inv(s)
  {
  }

  lemma {:induction false} RunInv(states: seq<State>, steps: seq<Step>)
    requires IsRun(states, steps) && Inv(states[0])
    ensures Inv(states[|steps|]) && |states[|steps|].cpus| == |states[0].cpus|
  {
    if steps != [] {
      var n := |steps| - 1;
      var e := steps[n];
      assert IsRun(states[..n + 1], steps[..n]) && IsStep(states[n], e, states[n + 1]);
      RunInv(states[..n + 1], steps[..n]);
      hide Inv, IsRun, Enabled, Next;
      StepInv(states[n], e.cpu, e.action);
      OthersKeep(states[n], e.cpu, e.action);
    }
  }

  /** Mutual exclusion over every interleaving. */
  lemma MutualExclusion(states: seq<State>, steps: seq<Step>, c: nat, d: nat)
    requires IsRun(states, steps) && Initial(states[0])
    requires c < |states[0].cpus| && d < |states[0].cpus|
    ensures var s := states[|steps|];
            && |s.cpus| == |states[0].cpus|
            && (Owns(s.cpus[c]) && Owns(s.cpus[d]) ==> c == d)
            && (Owns(s.cpus[c]) ==> s.lock && !s.cpus[c].flags.ie)
            && (s.lock ==> exists e :: 0 <= e < |s.cpus| && Owns(s.cpus[e]))
  {
    InitialInv(states[0]);
    RunInv(states, steps);
    hide IsRun, Initial, Next;
  }

  // ----- the interrupt flag -----

  /** `lock_release` leaves the CPU with all flags as they were when it entered `lock_lock`. */
  lemma ReleaseRestores(s: State, c: nat)
    requires Inv(s) && c < |s.cpus| && s.cpus[c].flow.pc == Popfq
    ensures var t := Next(s, c, Instruction);
            t.cpus[c].flow.pc == Out && t.cpus[c].flags == s.cpus[c].flow.entry
  {
    assert CpuOk(s.cpus[c]);
  }

  /** The entry flags are set on entering `lock_lock` and belong to their flow from then on:
      no other step of any CPU changes them, and an interrupt that returns brings the flow and
      its flags back. */
  lemma EntryFlags(s: State, c: nat, a: Action)
    requires Inv(s) && c < |s.cpus| && Enabled(s.cpus[c], a)
    ensures FlowsKept(s.cpus[c], a, Next(s, c, a).cpus[c])
    ensures a.Interrupt? ==> !Owns(s.cpus[c])
  {
    assert CpuOk(s.cpus[c]);
  }

  /** What an action of a CPU does to its flows and their entry flags. */
  predicate FlowsKept(cpu: Cpu, a: Action, after: Cpu) {
    match a
    case Instruction =>
      after.suspended == cpu.suspended
      && after.flow.entry == (if cpu.flow.pc == Out then cpu.flags else cpu.flow.entry)
    case Local(_) => after.flow == cpu.flow && after.suspended == cpu.suspended
    case Interrupt => after.suspended == [(cpu.flow, cpu.flags)] + cpu.suspended
    case Return => [(after.flow, after.flags)] + after.suspended == cpu.suspended
  }

  /** The flow of the CPU at a depth of nested interrupts; depth 0 is the one at the bottom. */
  function FlowAt(cpu: Cpu, depth: nat): Flow
    requires depth <= |cpu.suspended|
  {
    if depth == |cpu.suspended| then cpu.flow else cpu.suspended[|cpu.suspended| - 1 - depth].0
  }

  /** The flow at that depth of CPU `c` is inside of a lock and release pair. */
  ghost predicate Inside(s: State, c: nat, depth: nat) {
    c < |s.cpus| && depth <= |s.cpus[c].suspended| && FlowAt(s.cpus[c], depth).pc != Out
  }

  ghost predicate AllInside(states: seq<State>, c: nat, depth: nat) {
    forall k :: 0 <= k < |states| ==> Inside(states[k], c, depth)
  }

  lemma FlowCarried(cpu: Cpu, a: Action, after: Cpu, depth: nat)
    requires FlowsKept(cpu, a, after) && depth <= |cpu.suspended| && depth <= |after.suspended|
    requires FlowAt(cpu, depth).pc != Out
    ensures FlowAt(after, depth).entry == FlowAt(cpu, depth).entry
  {
    if a.Return? {
      assert cpu.suspended[0].0 == after.flow;
      assert cpu.suspended[1..] == after.suspended;
    }
  }

  lemma EntryStep(s: State, e: Step, t: State, c: nat, depth: nat)
    requires Inv(s) && IsStep(s, e, t) && Inside(s, c, depth) && Inside(t, c, depth)
    ensures FlowAt(t.cpus[c], depth).entry == FlowAt(s.cpus[c], depth).entry
  {
    hide Inv, Enabled, Next, FlowAt, FlowsKept, Owns;
    OthersKeep(s, e.cpu, e.action);
    if e.cpu == c {
      EntryFlags(s, c, e.action);
      FlowCarried(s.cpus[c], e.action, t.cpus[c], depth);
    }
  }

  lemma {:induction false} EntryKept(states: seq<State>, steps: seq<Step>, c: nat, depth: nat)
    requires IsRun(states, steps) && Inv(states[0]) && AllInside(states, c, depth)
    ensures Inside(states[0], c, depth) && Inside(states[|steps|], c, depth)
    ensures FlowAt(states[|steps|].cpus[c], depth).entry == FlowAt(states[0].cpus[c], depth).entry
  {
    if steps != [] {
      var n := |steps| - 1;
      assert IsRun(states[..n + 1], steps[..n]) && IsStep(states[n], steps[n], states[n + 1]);
      assert Inside(states[n], c, depth) && Inside(states[n + 1], c, depth);
      hide Inv, IsStep, Inside;
      RunInv(states[..n + 1], steps[..n]);
      EntryKept(states[..n + 1], steps[..n], c, depth);
      EntryStep(states[n], steps[n], states[n + 1], c, depth);
    }
  }

  /** Over every run: a flow that enters `lock_lock` at some depth of nested interrupts and gets
      to the end of its `lock_release` has all flags, the interrupt flag among them, as they were
      when it entered, whatever other CPUs and its own interrupts did in between. */
  lemma PairRestores(states: seq<State>, steps: seq<Step>, c: nat)
    requires IsRun(states, steps) && Inv(states[0]) && |steps| >= 2 && c < |states[0].cpus|
    requires var n, cpu := |steps| - 1, states[0].cpus[c];
             && steps[0] == Step(c, Instruction) && cpu.flow.pc == Out
             && AllInside(states[1..n + 1], c, |cpu.suspended|)
             && steps[n] == Step(c, Instruction) && states[n].cpus[c].flow.pc == Popfq
             && |states[n].cpus[c].suspended| == |cpu.suspended|
    ensures var last := states[|steps|];
            && c < |last.cpus| && last.cpus[c].flow.pc == Out && last.cpus[c].flags == states[0].cpus[c].flags
  {
    var n, depth := |steps| - 1, |states[0].cpus[c].suspended|;
    var some, parts := states[1..n + 1], steps[1..n];
    assert IsStep(states[0], steps[0], states[1]) && IsStep(states[n], steps[n], states[n + 1]);
    EntryFlags(states[0], c, Instruction);
    StepInv(states[0], c, Instruction);
    Middle(states, steps, n);
    EntryKept(some, parts, c, depth);
    RunInv(some, parts);
    ReleaseRestores(states[n], c);
  }

  lemma Middle(states: seq<State>, steps: seq<Step>, n: nat)
    requires IsRun(states, steps) && n + 1 == |steps| && n >= 1
    ensures IsRun(states[1..n + 1], steps[1..n])
  {
    hide IsStep;
  }

  /** A CPU that spins never waits for itself or for one of its own interrupted flows: the
      owner is another CPU, which cannot be interrupted before its `btr`. */
  lemma WaitsForAnother(s: State, c: nat)
    requires Inv(s) && c < |s.cpus| && s.lock && !Owns(s.cpus[c])
    ensures exists d :: 0 <= d < |s.cpus| && d != c && Owns(s.cpus[d]) && !Enabled(s.cpus[d], Interrupt)
    ensures forall i :: 0 <= i < |s.cpus[c].suspended| ==>
              !Owns(Cpu(s.cpus[c].suspended[i].1, s.cpus[c].suspended[i].0, []))
  {
    assert CpuOk(s.cpus[c]);
    var d :| 0 <= d < |s.cpus| && Owns(s.cpus[d]);
    assert CpuOk(s.cpus[d]);
  }

  // ----- refinement -----

  /** The lock a caller sees: free, or with one owner. */
  function Owner(s: State, n: nat): (r: Option<nat>)
    requires n <= |s.cpus|
    ensures r.Some? ==> r.value < n && Owns(s.cpus[r.value])
    ensures r.None? ==> forall c :: 0 <= c < n ==> !Owns(s.cpus[c])
  {
    if n == 0 then None else if Owns(s.cpus[n - 1]) then Some(n - 1) else Owner(s, n - 1)
  }

  /** What the abstract lock allows CPU `c` to do: nothing, take it when it is free, give it
      back when it is its own. */
  predicate AbstractStep(before: Option<nat>, c: nat, after: Option<nat>) {
    after == before || (before == None && after == Some(c)) || (before == Some(c) && after == None)
  }

  /** What a step needs to know of the owners before and after it. */
  lemma OneStep(s: State, c: nat, a: Action)
    requires Inv(s) && c < |s.cpus| && Enabled(s.cpus[c], a)
    ensures var t := Next(s, c, a);
            && c < |t.cpus|
            && (forall d, e :: 0 <= d < e < |s.cpus| ==> !(Owns(s.cpus[d]) && Owns(s.cpus[e])))
            && (forall d, e :: 0 <= d < e < |t.cpus| ==> !(Owns(t.cpus[d]) && Owns(t.cpus[e])))
  {
    hide Next, Execute, CpuOk, Owns, Enabled, Holds;
    StepInv(s, c, a);
    OthersKeep(s, c, a);
  }

  /** Every step refines a step of the abstract lock. */
  lemma StepRefines(s: State, c: nat, a: Action)
    requires Inv(s) && c < |s.cpus| && Enabled(s.cpus[c], a)
    ensures var t := Next(s, c, a);
            |t.cpus| == |s.cpus| && AbstractStep(Owner(s, |s.cpus|), c, Owner(t, |t.cpus|))
  {
    hide Inv, Next, Execute, CpuOk, Owns, Enabled;
    var t, n := Next(s, c, a), |s.cpus|;
    OneStep(s, c, a);
    OthersKeep(s, c, a);
    match Owner(s, n)
    case Some(o) =>
      if o != c {
        assert Owns(t.cpus[o]);
      }
    case None =>
      forall d | 0 <= d < n && d != c ensures !Owns(t.cpus[d]) {
        assert t.cpus[d] == s.cpus[d];
      }
  }
}
