/** Progress of the spinlock of kernel/lib/lock.h over every interleaving: an owner gets into the
    critical section, a release gets out, and whoever finds the bit clear gets in. */
module SpinProgress {
  import opened SpinLock

  // ----- the instructions of one CPU -----

  /** How many of the steps are of CPU `c`. */
  function CountOf(steps: seq<Step>, c: nat): nat {
    if steps == [] then 0 else (if steps[0].cpu == c then 1 else 0) + CountOf(steps[1..], c)
  }

  /** The state before the first step of CPU `c`, and what is left after it. */
  ghost predicate FirstAt(states: seq<State>, steps: seq<Step>, c: nat, k: nat)
    requires |states| == |steps| + 1 && states[0].cpus != []
  {
    && k < |steps| && c < |states[0].cpus| == |states[k].cpus| && states[k].cpus[c] == states[0].cpus[c]
    && steps[k] == Step(c, Instruction) && CountOf(steps[..k], c) == 0
    && CountOf(steps[k + 1..], c) + 1 == CountOf(steps, c) && Inv(states[k])
  }

  /** A CPU with interrupts off and not in the critical section can only execute its next
      instruction, and until it does nobody changes it. */
  lemma {:induction false} NextOwn(states: seq<State>, steps: seq<Step>, c: nat)
    requires IsRun(states, steps) && Inv(states[0]) && c < |states[0].cpus| && CountOf(steps, c) > 0
    requires var pc := states[0].cpus[c].flow.pc; Masked(pc) && pc != Critical
    ensures |states| == |steps| + 1 && exists k: nat :: FirstAt(states, steps, c, k)
    decreases |steps|
  {
    var e := steps[0];
    RunRest(states, steps, 1);
    hide IsRun, Next, Execute, Inv, Masked, Enabled;
    if e.cpu == c {
      OnlyInstruction(states[0], e, states[1], c);
      assert steps[..0] == [];
      assert FirstAt(states, steps, c, 0);
    } else {
      StepInv(states[0], e.cpu, e.action);
      OthersKeep(states[0], e.cpu, e.action);
      NextOwn(states[1..], steps[1..], c);
      var k: nat :| FirstAt(states[1..], steps[1..], c, k);
      CountHead(steps, c, k);
      assert FirstAt(states, steps, c, k + 1);
    }
  }

  lemma OnlyInstruction(s: State, e: Step, t: State, c: nat)
    requires IsStep(s, e, t) && Inv(s) && c < |s.cpus| && e.cpu == c
    requires var pc := s.cpus[c].flow.pc; Masked(pc) && pc != Critical
    ensures e == Step(c, Instruction)
  {
    assert CpuOk(s.cpus[c]);
  }

  lemma CountHead(steps: seq<Step>, c: nat, k: nat)
    requires steps != [] && k < |steps[1..]| && steps[0].cpu != c
    ensures CountOf(steps, c) == CountOf(steps[1..], c)
    ensures CountOf(steps[..k + 1], c) == CountOf(steps[1..][..k], c)
    ensures steps[1..][k + 1..] == steps[k + 2..]
  {
    assert steps[..k + 1][1..] == steps[1..][..k];
  }

  lemma RunRest(states: seq<State>, steps: seq<Step>, k: nat)
    requires IsRun(states, steps) && k <= |steps|
    ensures |states| == |steps| + 1 && IsRun(states[k..], steps[k..]) && states[k..][0] == states[k]
    ensures forall i :: 0 <= i < |steps| ==> IsStep(states[i], steps[i], states[i + 1])
  {
    hide IsStep;
  }

  /** The step that follows the state of `FirstAt`. */
  lemma OwnStep(states: seq<State>, steps: seq<Step>, c: nat, k: nat)
    requires IsRun(states, steps) && |states| == |steps| + 1 && states[0].cpus != [] && FirstAt(states, steps, c, k)
    ensures states[k + 1] == Next(states[k], c, Instruction) && Inv(states[k + 1])
    ensures IsRun(states[k + 1..], steps[k + 1..]) && states[k + 1..][0] == states[k + 1]
  {
    RunRest(states, steps, k + 1);
    assert IsStep(states[k], steps[k], states[k + 1]);
    hide Next, Inv, IsRun;
    StepInv(states[k], c, Instruction);
  }

  // ----- the owner -----

  /** CPU `c` is in the critical section after step `k`, having taken at most `n` steps. */
  ghost predicate InCriticalAfter(states: seq<State>, steps: seq<Step>, c: nat, k: nat, n: nat)
    requires |states| == |steps| + 1
  {
    && k < |steps| && c < |states[k + 1].cpus| && states[k + 1].cpus[c].flow.pc == Critical
    && CountOf(steps[..k + 1], c) <= n
  }

  /** A CPU that owns the lock and is not in the critical section yet is there after at most two more
      of its own steps, whatever other CPUs do. */
  lemma OwnerEnters(states: seq<State>, steps: seq<Step>, c: nat)
    requires IsRun(states, steps) && Inv(states[0]) && c < |states[0].cpus| && CountOf(steps, c) >= 2
    requires var cpu := states[0].cpus[c]; Owns(cpu) && cpu.flow.pc != Critical && cpu.flow.pc != Btr
    ensures |states| == |steps| + 1 && exists k: nat :: InCriticalAfter(states, steps, c, k, 2)
  {
    NextOwn(states, steps, c);
    var j: nat :| FirstAt(states, steps, c, j);
    OwnStep(states, steps, c, j);
    EnterStep(states[j], c);
    hide Next, IsRun, Inv, Owns;
    if states[0].cpus[c].flow.pc == Pop {
      CountUpTo(steps, c, j);
      assert InCriticalAfter(states, steps, c, j, 2);
    } else {
      PopEnters(states[j + 1..], steps[j + 1..], c);
      var k: nat :| InCriticalAfter(states[j + 1..], steps[j + 1..], c, k, 1);
      EntersLater(states, steps, c, j, k);
    }
  }

  lemma PopEnters(states: seq<State>, steps: seq<Step>, c: nat)
    requires IsRun(states, steps) && Inv(states[0]) && c < |states[0].cpus| && CountOf(steps, c) >= 1
    requires states[0].cpus[c].flow.pc == Pop
    ensures |states| == |steps| + 1 && exists k: nat :: InCriticalAfter(states, steps, c, k, 1)
  {
    NextOwn(states, steps, c);
    var k: nat :| FirstAt(states, steps, c, k);
    OwnStep(states, steps, c, k);
    EnterStep(states[k], c);
    hide Next, IsRun, Inv, Owns;
    CountUpTo(steps, c, k);
    assert InCriticalAfter(states, steps, c, k, 1);
  }

  lemma EntersLater(states: seq<State>, steps: seq<Step>, c: nat, j: nat, k: nat)
    requires |states| == |steps| + 1 && j < |steps| && CountOf(steps[..j], c) == 0 && steps[j].cpu == c
    requires InCriticalAfter(states[j + 1..], steps[j + 1..], c, k, 1)
    ensures InCriticalAfter(states, steps, c, j + k + 1, 2)
  {
    var all, rest := steps[..j + k + 2], steps[j + 1..];
    CountUpTo(steps, c, j);
    CountSplit(all, c, j + 1);
    assert all[..j + 1] == steps[..j + 1] && all[j + 1..] == rest[..k + 1];
    assert states[j + 1..][k + 1] == states[j + k + 2];
  }

  lemma EnterStep(s: State, c: nat)
    requires c < |s.cpus| && Owns(s.cpus[c]) && s.cpus[c].flow.pc != Critical && s.cpus[c].flow.pc != Btr
    ensures var pc := Next(s, c, Instruction).cpus[c].flow.pc;
            pc == if s.cpus[c].flow.pc == Pop then Critical else Pop
  {
  }

  lemma CountUpTo(steps: seq<Step>, c: nat, k: nat)
    requires k < |steps| && CountOf(steps[..k], c) == 0 && steps[k].cpu == c
    ensures CountOf(steps[..k + 1], c) == 1
  {
    CountSplit(steps[..k + 1], c, k);
    assert steps[..k + 1][..k] == steps[..k] && steps[..k + 1][k..] == [steps[k]];
  }

  lemma {:induction false} CountSplit(steps: seq<Step>, c: nat, k: nat)
    requires k <= |steps|
    ensures CountOf(steps, c) == CountOf(steps[..k], c) + CountOf(steps[k..], c)
  {
    if k == 0 {
      assert steps[..0] == [] && steps[0..] == steps;
    } else {
      CountSplit(steps[1..], c, k - 1);
      assert steps[..k][1..] == steps[1..][..k - 1] && steps[1..][k - 1..] == steps[k..];
    }
  }

  // ----- the release -----

  /** With `n` steps taken, the CPU is out after step `k` with the flags `entry`, and at step `j` it
      gave up the bit. */
  ghost predicate OutAfter(states: seq<State>, steps: seq<Step>, c: nat, entry: Flags, j: nat, k: nat, n: nat)
    requires |states| == |steps| + 1
  {
    && j < k < |steps| && CountOf(steps[..k + 1], c) == n
    && steps[j] == Step(c, Instruction) && !states[j + 1].lock
    && c < |states[k + 1].cpus| && states[k + 1].cpus[c].flow.pc == Out && states[k + 1].cpus[c].flags == entry
  }

  /** A CPU that begins its release has given up the bit before its third step and is out after it,
      with all flags as on its entry, whatever other CPUs do. */
  lemma ReleaseCompletes(states: seq<State>, steps: seq<Step>, c: nat)
    requires IsRun(states, steps) && Inv(states[0]) && c < |states[0].cpus| && CountOf(steps, c) >= 3
    requires states[0].cpus[c].flow.pc == Critical && steps[0] == Step(c, Instruction)
    ensures |states| == |steps| + 1
    ensures exists j: nat, k: nat :: OutAfter(states, steps, c, states[0].cpus[c].flow.entry, j, k, 3)
  {
    RunRest(states, steps, 1);
    assert IsStep(states[0], steps[0], states[1]);
    StepInv(states[0], c, Instruction);
    ReleaseStep(states[0], c);
    hide Next, IsRun, Inv, OutAfter;
    BtrReleases(states[1..], steps[1..], c);
    var entry := states[0].cpus[c].flow.entry;
    var j: nat, k: nat :| OutAfter(states[1..], steps[1..], c, entry, j, k, 2);
    assert steps[..0] == [];
    OutLater(states, steps, c, entry, 0, j, k, 2);
  }

  lemma BtrReleases(states: seq<State>, steps: seq<Step>, c: nat)
    requires IsRun(states, steps) && Inv(states[0]) && c < |states[0].cpus| && CountOf(steps, c) >= 2
    requires states[0].cpus[c].flow.pc == Btr
    ensures |states| == |steps| + 1
    ensures exists j: nat, k: nat :: OutAfter(states, steps, c, states[0].cpus[c].flow.entry, j, k, 2)
  {
    var entry := states[0].cpus[c].flow.entry;
    NextOwn(states, steps, c);
    var j: nat :| FirstAt(states, steps, c, j);
    OwnStep(states, steps, c, j);
    ReleaseStep(states[j], c);
    hide Next, IsRun, Inv;
    var some, rest := states[j + 1..], steps[j + 1..];
    PopfqReleases(some, rest, c);
    var k: nat :| FirstAt(some, rest, c, k) && IsOut(some[k + 1], c, entry);
    hide FirstAt;
    CountUpTo(steps, c, j);
    BothSteps(steps, c, j, k);
    assert some[k + 1] == states[j + k + 2];
    assert OutAfter(states, steps, c, entry, j, j + k + 1, 2);
  }

  ghost predicate IsOut(s: State, c: nat, entry: Flags) {
    c < |s.cpus| && s.cpus[c].flow.pc == Out && s.cpus[c].flags == entry
  }

  lemma PopfqReleases(states: seq<State>, steps: seq<Step>, c: nat)
    requires IsRun(states, steps) && Inv(states[0]) && c < |states[0].cpus| && CountOf(steps, c) >= 1
    requires states[0].cpus[c].flow.pc == Popfq
    ensures |states| == |steps| + 1
    ensures exists k: nat :: FirstAt(states, steps, c, k) && IsOut(states[k + 1], c, states[0].cpus[c].flow.entry)
    ensures forall k: nat :: FirstAt(states, steps, c, k) ==>
              k < |steps| && CountOf(steps[..k], c) == 0 && steps[k].cpu == c
  {
    NextOwn(states, steps, c);
    var k: nat :| FirstAt(states, steps, c, k);
    OwnStep(states, steps, c, k);
    ReleaseStep(states[k], c);
    hide Next, IsRun, Inv;
    assert IsOut(states[k + 1], c, states[0].cpus[c].flow.entry);
  }

  lemma BothSteps(steps: seq<Step>, c: nat, j: nat, k: nat)
    requires j < |steps| && CountOf(steps[..j + 1], c) == 1
    requires k < |steps[j + 1..]| && CountOf(steps[j + 1..][..k], c) == 0 && steps[j + 1..][k].cpu == c
    ensures CountOf(steps[..j + k + 2], c) == 2
  {
    var all, rest := steps[..j + k + 2], steps[j + 1..];
    CountUpTo(rest, c, k);
    CountSplit(all, c, j + 1);
    assert all[..j + 1] == steps[..j + 1] && all[j + 1..] == rest[..k + 1];
  }

  lemma OutLater(states: seq<State>, steps: seq<Step>, c: nat, entry: Flags, i: nat, j: nat, k: nat, n: nat)
    requires |states| == |steps| + 1 && i < |steps| && CountOf(steps[..i], c) == 0 && steps[i].cpu == c
    requires OutAfter(states[i + 1..], steps[i + 1..], c, entry, j, k, n)
    ensures OutAfter(states, steps, c, entry, i + j + 1, i + k + 1, n + 1)
  {
    var all, rest := steps[..i + k + 2], steps[i + 1..];
    CountUpTo(steps, c, i);
    CountSplit(all, c, i + 1);
    assert all[..i + 1] == steps[..i + 1] && all[i + 1..] == rest[..k + 1];
    assert states[i + 1..][k + 1] == states[i + k + 2] && states[i + 1..][j + 1] == states[i + j + 2];
  }

  lemma ReleaseStep(s: State, c: nat)
    requires Inv(s) && c < |s.cpus|
    ensures var cpu, t := s.cpus[c], Next(s, c, Instruction);
            var after := t.cpus[c];
            && (cpu.flow.pc == Critical ==> after.flow.pc == Btr && after.flow.entry == cpu.flow.entry)
            && (cpu.flow.pc == Btr ==> after.flow.pc == Popfq && after.flow.entry == cpu.flow.entry && !t.lock)
            && (cpu.flow.pc == Popfq ==> after.flow.pc == Out && after.flags == cpu.flow.entry)
  {
    assert CpuOk(s.cpus[c]);
  }

  // ----- entering while the bit is clear -----

  /** The instructions that test the bit. */
  predicate Asks(pc: Pc) {
    pc == Bts || pc == Bt || pc == BtsAgain
  }

  /** The instructions that the flow at some depth of nested interrupts has before it until it is in
      the critical section, if it finds the bit clear from now on, or until it is out. */
  function Ahead(cpu: Cpu, depth: nat): (n: nat)
    requires depth <= |cpu.suspended|
    ensures n <= 7
  {
    var carry := cpu.flags.cf;
    match FlowAt(cpu, depth).pc
    case Out => 0
    case Cli => 4
    case Bts => 3
    case Jnc => if carry then 7 else 2
    case Pause => 6
    case Bt => 5
    case Jc => if carry then 7 else 4
    case BtsAgain => 3
    case JcAgain => if carry then 7 else 2
    case Pop => 1
    case Critical => 0
    case Btr => 2
    case Popfq => 1
  }

  /** The flow is inside of `lock_lock`. */
  predicate Locking(pc: Pc) {
    pc != Out && pc != Critical && pc != Btr && pc != Popfq
  }

  /** The flow at the depth executes an instruction. */
  predicate Own(s: State, e: Step, c: nat, depth: nat) {
    e == Step(c, Instruction) && c < |s.cpus| && |s.cpus[c].suspended| == depth
  }

  function OwnSteps(states: seq<State>, steps: seq<Step>, c: nat, depth: nat): nat
    requires |states| == |steps| + 1
    decreases |steps|
  {
    if steps == [] then 0
    else (if Own(states[0], steps[0], c, depth) then 1 else 0) + OwnSteps(states[1..], steps[1..], c, depth)
  }

  /** Whenever the flow at the depth tests the bit, it is clear. */
  ghost predicate ClearWhenAsked(states: seq<State>, steps: seq<Step>, c: nat, depth: nat)
    requires |states| == |steps| + 1
  {
    forall k :: 0 <= k < |steps| ==> ClearAt(states[k], steps[k], c, depth)
  }

  predicate ClearAt(s: State, e: Step, c: nat, depth: nat) {
    Own(s, e, c, depth) && Asks(s.cpus[c].flow.pc) ==> !s.lock
  }

  /** The flow at the depth is in the critical section. */
  ghost predicate Entered(s: State, c: nat, depth: nat) {
    c < |s.cpus| && depth <= |s.cpus[c].suspended| && FlowAt(s.cpus[c], depth).pc == Critical
  }

  /** An own instruction that finds the bit clear is one less to go; nothing else changes that. */
  lemma StepAhead(s: State, e: Step, t: State, c: nat, depth: nat)
    requires Inv(s) && IsStep(s, e, t) && c < |s.cpus| && depth <= |s.cpus[c].suspended| && ClearAt(s, e, c, depth)
    requires Locking(FlowAt(s.cpus[c], depth).pc)
    ensures c < |t.cpus| && depth <= |t.cpus[c].suspended|
    ensures Ahead(t.cpus[c], depth) + (if Own(s, e, c, depth) then 1 else 0) == Ahead(s.cpus[c], depth)
    ensures Locking(FlowAt(t.cpus[c], depth).pc) || Entered(t, c, depth)
  {
    var cpu, after := s.cpus[c], t.cpus[c];
    assert CpuOk(cpu);
    OthersKeep(s, e.cpu, e.action);
    if e.cpu == c {
      if Own(s, e, c, depth) {
        OwnAhead(s, c);
      } else {
        OtherFlow(cpu, e.action, s, t, c, depth);
      }
    }
  }

  lemma OwnAhead(s: State, c: nat)
    requires c < |s.cpus| && CpuOk(s.cpus[c]) && Locking(s.cpus[c].flow.pc) && (Asks(s.cpus[c].flow.pc) ==> !s.lock)
    ensures var cpu, after := s.cpus[c], Next(s, c, Instruction).cpus[c];
            && after.suspended == cpu.suspended
            && Ahead(after, |after.suspended|) + 1 == Ahead(cpu, |cpu.suspended|)
            && (Locking(after.flow.pc) || after.flow.pc == Critical)
  {
  }

  lemma OtherFlow(cpu: Cpu, a: Action, s: State, t: State, c: nat, depth: nat)
    requires c < |s.cpus| && cpu == s.cpus[c] && CpuOk(cpu) && Enabled(cpu, a) && t == Next(s, c, a)
    requires depth <= |cpu.suspended| && Locking(FlowAt(cpu, depth).pc)
    requires !(a == Instruction && |cpu.suspended| == depth)
    ensures var after := t.cpus[c];
            && depth <= |after.suspended| && FlowAt(after, depth) == FlowAt(cpu, depth)
            && Ahead(after, depth) == Ahead(cpu, depth)
  {
    hide Execute;
    if depth < |cpu.suspended| {
      assert !Masked(cpu.suspended[|cpu.suspended| - 1 - depth].0.pc);
    }
    if a.Return? {
      assert cpu.suspended[1..] == t.cpus[c].suspended;
    }
    if a.Instruction? {
      KeepsSuspended(s, c);
    }
  }

  lemma KeepsSuspended(s: State, c: nat)
    requires c < |s.cpus|
    ensures Next(s, c, Instruction).cpus[c].suspended == s.cpus[c].suspended
  {
  }

  /** Over every run: a flow inside of `lock_lock`, at whatever depth of nested interrupts, that finds
      the bit clear whenever it tests it, is in the critical section after exactly as many of its
      own instructions as `Ahead` says, at most seven. */
  lemma {:induction false} EntersWhenClear(states: seq<State>, steps: seq<Step>, c: nat, depth: nat)
    requires IsRun(states, steps) && Inv(states[0]) && c < |states[0].cpus| && |states| == |steps| + 1
    requires depth <= |states[0].cpus[c].suspended| && Locking(FlowAt(states[0].cpus[c], depth).pc)
    requires ClearWhenAsked(states, steps, c, depth)
    requires OwnSteps(states, steps, c, depth) >= Ahead(states[0].cpus[c], depth)
    ensures exists m: nat :: EnteredAfter(states, steps, c, depth, m, Ahead(states[0].cpus[c], depth))
    decreases |steps|
  {
    if steps == [] {
      LockingAhead(states[0].cpus[c], depth);
    } else {
      RunRest(states, steps, 1);
      ClearTail(states, steps, c, depth);
      hide IsRun, Inv, Next, Ahead, FlowAt, Locking, Own, ClearAt, ClearWhenAsked, Entered;
      StepAhead(states[0], steps[0], states[1], c, depth);
      StepInv(states[0], steps[0].cpu, steps[0].action);
      var m: nat := 0;
      var n := Ahead(states[1].cpus[c], depth);
      if Entered(states[1], c, depth) {
        EnteredAhead(states[1], c, depth);
        OwnFirst(states, steps, c, depth);
        assert EnteredAfter(states, steps, c, depth, 1, Ahead(states[0].cpus[c], depth));
      } else {
        EntersWhenClear(states[1..], steps[1..], c, depth);
        m :| EnteredAfter(states[1..], steps[1..], c, depth, m, n);
        AfterTail(states, steps, c, depth, m, n);
      }
    }
  }

  /** After `m` steps, `n` of them its own, the flow is in the critical section. */
  ghost predicate EnteredAfter(states: seq<State>, steps: seq<Step>, c: nat, depth: nat, m: nat, n: nat)
    requires |states| == |steps| + 1
  {
    m <= |steps| && Entered(states[m], c, depth) && OwnSteps(states[..m + 1], steps[..m], c, depth) == n
  }

  lemma LockingAhead(cpu: Cpu, depth: nat)
    requires depth <= |cpu.suspended| && Locking(FlowAt(cpu, depth).pc)
    ensures Ahead(cpu, depth) > 0
  {
  }

  lemma EnteredAhead(s: State, c: nat, depth: nat)
    requires Entered(s, c, depth)
    ensures Ahead(s.cpus[c], depth) == 0
  {
  }

  lemma ClearTail(states: seq<State>, steps: seq<Step>, c: nat, depth: nat)
    requires |states| == |steps| + 1 && steps != [] && ClearWhenAsked(states, steps, c, depth)
    ensures ClearAt(states[0], steps[0], c, depth) && ClearWhenAsked(states[1..], steps[1..], c, depth)
  {
    hide ClearAt;
  }

  lemma OwnFirst(states: seq<State>, steps: seq<Step>, c: nat, depth: nat)
    requires |states| == |steps| + 1 && steps != []
    ensures OwnSteps(states[..2], steps[..1], c, depth) == if Own(states[0], steps[0], c, depth) then 1 else 0
  {
    hide Own;
    assert steps[..1][1..] == [];
  }

  lemma AfterTail(states: seq<State>, steps: seq<Step>, c: nat, depth: nat, m: nat, n: nat)
    requires |states| == |steps| + 1 && steps != [] && EnteredAfter(states[1..], steps[1..], c, depth, m, n)
    ensures EnteredAfter(states, steps, c, depth, m + 1, n + if Own(states[0], steps[0], c, depth) then 1 else 0)
  {
    hide Own, Entered;
    assert states[..m + 2][1..] == states[1..][..m + 1] && steps[..m + 1][1..] == steps[1..][..m];
    assert states[..m + 2][0] == states[0] && steps[..m + 1][0] == steps[0];
  }
}
