/** Calls of the page heap as steps between states, and what holds over runs of any calls. */
module HeapRuns {
  import opened Common
  import opened HeapSteps
  import Pmm

  /** Live blocks by address, free frames with the running count of their bytes, and the bytes
      of memory. */
  datatype State = State(live: Live, free: set<int>, freeSize: nat, data: seq<bv8>)

  /** A call that succeeds, with the address it returned; `Fill` is the owner of a block writing
      into it. */
  datatype Op =
    | Malloc(size: nat, to: nat)
    | Free(addr: nat)
    | Realloc(from: nat, newsize: nat, to: nat)
    | Fill(addr: nat)

  // ----- the steps, as the contracts of the methods promise them -----

  /** The frames `extent` were free and are now taken, and counted as such. */
  ghost predicate Takes(s: State, extent: set<int>, t: State) {
    && extent <= s.free && t.free == s.free - extent
    && t.freeSize + PAGE_SIZE * |extent| == s.freeSize
  }

  /** The frames `extent` become free, and those that were not are counted. */
  ghost predicate Gives(s: State, extent: set<int>, t: State) {
    t.free == s.free + extent && t.freeSize == s.freeSize + PAGE_SIZE * |extent - s.free|
  }

  ghost predicate IsMalloc(s: State, size: nat, to: nat, t: State) {
    && to !in s.live && to in t.live && t.live == s.live[to := t.live[to]]
    && to == Address(t.live[to]) && t.live[to].meta == Metadata(NumPages(size), size)
    && Takes(s, Extent(t.live[to]), t) && SameBlocks(s.live, s.data, t.data, {})
  }

  ghost predicate IsFree(s: State, addr: nat, t: State) {
    && addr in s.live && t.live == s.live - {addr} && Gives(s, Extent(s.live[addr]), t)
    && SameBlocks(t.live, s.data, t.data, {})
  }

  ghost predicate IsResize(s: State, addr: nat, newsize: nat, t: State) {
    && addr in s.live && addr in t.live && t.live == s.live[addr := t.live[addr]]
    && t.live[addr] == Block(s.live[addr].frame, Metadata(s.live[addr].meta.numpages, newsize))
    && t.free == s.free && t.freeSize == s.freeSize && SameBlocks(s.live, s.data, t.data, {})
  }

  /** The block moves: a new one is taken, the bytes are carried over, the old one is given
      back. */
  ghost predicate IsMove(s: State, from: nat, newsize: nat, to: nat, t: State) {
    from in s.live && exists mid: State ::
      && IsMalloc(s, newsize, to, mid) && IsFree(mid, from, t)
      && Carried(s.data, mid.data, from, to, Min(s.live[from].meta.size, newsize))
      && !CopyOverruns(s.live[from].meta, newsize)
  }

  ghost predicate Step(s: State, op: Op, t: State) {
    match op
    case Malloc(size, to) => IsMalloc(s, size, to, t)
    case Free(addr) => IsFree(s, addr, t)
    case Realloc(from, newsize, to) =>
      if from == to then IsResize(s, from, newsize, t) else IsMove(s, from, newsize, to, t)
    case Fill(addr) => addr in s.live && t == s.(data := t.data) && SameBlocks(s.live, s.data, t.data, {addr})
  }

  /** `kmrealloc` of a null pointer is an allocation. */
  function ReallocOp(from: nat, newsize: nat, to: nat): Op {
    if from == 0 then Malloc(newsize, to) else Realloc(from, newsize, to)
  }

  /** From the contract of an allocation to a step. */
  lemma MallocStep(s: State, size: nat, to: nat, t: State)
    requires Pmm.Counted(s.freeSize, s.free) && Pmm.Counted(t.freeSize, t.free)
    requires to !in s.live && to in t.live && t.live == s.live[to := t.live[to]]
    requires to == Address(t.live[to]) && t.live[to].meta == Metadata(NumPages(size), size)
    requires Extent(t.live[to]) <= s.free && t.free == s.free - Extent(t.live[to])
    requires SameBlocks(s.live, s.data, t.data, {})
    ensures IsMalloc(s, size, to, t)
  {
    hide SameBlocks, Extent, Address;
    SplitSize(s.free, Extent(t.live[to]));
  }

  lemma FreeStep(s: State, addr: nat, t: State)
    requires Pmm.Counted(s.freeSize, s.free) && Pmm.Counted(t.freeSize, t.free)
    requires addr in s.live && t.live == s.live - {addr} && t.free == s.free + Extent(s.live[addr])
    requires SameBlocks(s.live, s.data, t.data, {})
    ensures IsFree(s, addr, t)
  {
    var e := Extent(s.live[addr]);
    FewerBlocks(s.live, addr, s.data, t.data);
    hide SameBlocks, Extent;
    assert s.free + e == s.free + (e - s.free);
    UnionSize(s.free, e - s.free);
  }

  lemma FewerBlocks(live: Live, a: nat, before: seq<bv8>, after: seq<bv8>)
    requires SameBlocks(live, before, after, {})
    ensures SameBlocks(live - {a}, before, after, {})
  {
    assert forall c :: c in live - {a} ==> (live - {a})[c] == live[c];
  }

  /** The copy into the new block before the old one is freed. */
  lemma MallocThenFill(s: State, size: nat, to: nat, m: State, data: seq<bv8>)
    requires IsMalloc(s, size, to, m) && SameBlocks(s.live, m.data, data, {})
    ensures IsMalloc(s, size, to, m.(data := data))
  {
    hide SameBlocks, Address, Extent;
    SameTrans(s.live, s.data, m.data, data);
  }

  lemma SameTrans(live: Live, a: seq<bv8>, b: seq<bv8>, c: seq<bv8>)
    requires SameBlocks(live, a, b, {}) && SameBlocks(live, b, c, {})
    ensures SameBlocks(live, a, c, {})
  {
  }

  /** The three parts of a move make a step. */
  lemma MoveStep(s: State, from: nat, newsize: nat, to: nat, mid: State, t: State)
    requires from in s.live && from != to && IsMalloc(s, newsize, to, mid) && IsFree(mid, from, t)
    requires Carried(s.data, mid.data, from, to, Min(s.live[from].meta.size, newsize))
    requires !CopyOverruns(s.live[from].meta, newsize)
    ensures Step(s, Realloc(from, newsize, to), t)
  {
    hide IsMalloc, IsFree, Carried, CopyOverruns;
  }

  // ----- the invariant -----

  /** Live blocks have their own frames, apart from each other and from the free frames, and the
      free size is exact. */
  ghost predicate Inv(s: State) {
    Disjoint(s.live) && Frames(s.live) !! s.free && Pmm.Counted(s.freeSize, s.free)
  }

  /** The sum of `numpages + 1` over the live blocks. */
  ghost function FrameSum(live: Live): nat
    decreases |live|
  {
    if live == map[] then 0
    else
      var a :| a in live;
      live[a].meta.numpages + 1 + FrameSum(live - {a})
  }

  /** The sum counts the frames, in whatever order it is taken. */
  lemma {:induction false} SumIsFrames(live: Live)
    requires Disjoint(live)
    ensures FrameSum(live) == |Frames(live)|
    decreases |live|
  {
    hide Frames, Disjoint;
    if live == map[] {
      NoFrames();
    } else {
      var a :| a in live && FrameSum(live) == live[a].meta.numpages + 1 + FrameSum(live - {a});
      BlockFrames(live, a);
      DropBlock(live, a);
      SumIsFrames(live - {a});
    }
  }

  lemma NoFrames()
    ensures Frames(map[]) == {}
  {
  }

  /** Free bytes and the bytes of blocks with their headers. */
  ghost function Balance(s: State): nat {
    s.freeSize + PAGE_SIZE * FrameSum(s.live)
  }

  lemma BalanceIs(s: State)
    requires Inv(s)
    ensures Balance(s) == PAGE_SIZE * (|s.free| + |Frames(s.live)|)
  {
    SumIsFrames(s.live);
  }

  lemma SplitSize(whole: set<int>, part: set<int>)
    requires part <= whole
    ensures |whole - part| + |part| == |whole|
  {
    assert whole == (whole - part) + part;
  }

  lemma UnionSize(a: set<int>, b: set<int>)
    requires a !! b
    ensures |a + b| == |a| + |b|
  {
  }

  lemma MallocKeeps(s: State, size: nat, to: nat, t: State)
    requires Inv(s) && IsMalloc(s, size, to, t)
    ensures Inv(t) && Balance(t) == Balance(s)
  {
    hide Disjoint, Frames, FrameSum, SameBlocks, Balance, Extent, Address;
    var e := Extent(t.live[to]);
    AddBlock(s.live, t.live[to]);
    SplitSize(s.free, e);
    UnionSize(Frames(s.live), e);
    BalanceIs(s);
    BalanceIs(t);
  }

  lemma FreeKeeps(s: State, addr: nat, t: State)
    requires Inv(s) && IsFree(s, addr, t)
    ensures Inv(t) && Balance(t) == Balance(s)
  {
    hide Disjoint, Frames, FrameSum, SameBlocks, Balance, Extent;
    var e := Extent(s.live[addr]);
    DropBlock(s.live, addr);
    assert e - s.free == e;
    UnionSize(s.free, e);
    UnionSize(Frames(t.live), e);
    BalanceIs(s);
    BalanceIs(t);
  }

  lemma ResizeKeeps(s: State, addr: nat, newsize: nat, t: State)
    requires Inv(s) && IsResize(s, addr, newsize, t)
    ensures Inv(t) && Balance(t) == Balance(s)
  {
    SameFrames(s.live, addr, t.live[addr]);
    hide Disjoint, Frames, FrameSum, SameBlocks, Balance, Extent;
    BalanceIs(s);
    BalanceIs(t);
  }

  /** Every call moves frames between the free ones and the blocks and loses none. */
  lemma StepTotal(s: State, op: Op, t: State)
    requires Inv(s) && Step(s, op, t)
    ensures Total(t.free, t.live) == Total(s.free, s.live)
  {
    hide Inv, Total, IsMalloc, IsFree, IsResize, IsMove;
    match op
    case Malloc(size, to) =>
      MallocTotal(s, size, to, t);
    case Free(addr) =>
      FreeTotal(s, addr, t);
    case Realloc(from, newsize, to) =>
      if from == to {
        ResizeTotal(s, from, newsize, t);
      } else {
        MoveTotal(s, from, newsize, to, t);
      }
    case Fill(addr) =>
  }

  lemma MallocTotal(s: State, size: nat, to: nat, t: State)
    requires Inv(s) && IsMalloc(s, size, to, t)
    ensures Total(t.free, t.live) == Total(s.free, s.live)
  {
    hide Frames, Disjoint, SameBlocks, Extent, Address, NumPages;
    AddBlock(s.live, t.live[to]);
  }

  lemma FreeTotal(s: State, addr: nat, t: State)
    requires Inv(s) && IsFree(s, addr, t)
    ensures Total(t.free, t.live) == Total(s.free, s.live)
  {
    hide Frames, Disjoint, SameBlocks, Extent;
    DropBlock(s.live, addr);
  }

  lemma ResizeTotal(s: State, addr: nat, newsize: nat, t: State)
    requires Inv(s) && IsResize(s, addr, newsize, t)
    ensures Total(t.free, t.live) == Total(s.free, s.live)
  {
    hide Frames, Disjoint, SameBlocks;
    SameFrames(s.live, addr, t.live[addr]);
  }

  lemma MoveTotal(s: State, from: nat, newsize: nat, to: nat, t: State)
    requires Inv(s) && IsMove(s, from, newsize, to, t)
    ensures Total(t.free, t.live) == Total(s.free, s.live)
  {
    hide Inv, Total, IsMalloc, IsFree, Carried, CopyOverruns;
    var mid: State :| IsMalloc(s, newsize, to, mid) && IsFree(mid, from, t);
    MallocKeeps(s, newsize, to, mid);
    MallocTotal(s, newsize, to, mid);
    FreeTotal(mid, from, t);
  }

  /** Every call keeps the blocks apart and the balance. */
  lemma StepKeeps(s: State, op: Op, t: State)
    requires Inv(s) && Step(s, op, t)
    ensures Inv(t) && Balance(t) == Balance(s)
  {
    hide Inv, Balance, IsMalloc, IsFree, IsResize, IsMove;
    match op
    case Malloc(size, to) =>
      MallocKeeps(s, size, to, t);
    case Free(addr) =>
      FreeKeeps(s, addr, t);
    case Realloc(from, newsize, to) =>
      if from == to {
        ResizeKeeps(s, from, newsize, t);
      } else {
        MoveKeeps(s, from, newsize, to, t);
      }
    case Fill(addr) =>
      FillKeeps(s, t);
  }

  lemma MoveKeeps(s: State, from: nat, newsize: nat, to: nat, t: State)
    requires Inv(s) && IsMove(s, from, newsize, to, t)
    ensures Inv(t) && Balance(t) == Balance(s)
  {
    hide Inv, Balance, IsMalloc, IsFree, Carried, CopyOverruns;
    var mid: State :| IsMalloc(s, newsize, to, mid) && IsFree(mid, from, t);
    MallocKeeps(s, newsize, to, mid);
    FreeKeeps(mid, from, t);
  }

  lemma FillKeeps(s: State, t: State)
    requires Inv(s) && t == s.(data := t.data)
    ensures Inv(t) && Balance(t) == Balance(s)
  {
  }

  // ----- runs -----

  ghost predicate IsRun(states: seq<State>, ops: seq<Op>) {
    && |states| == |ops| + 1
    && forall k :: 0 <= k < |ops| ==> Step(states[k], ops[k], states[k + 1])
  }

  lemma RunInit(states: seq<State>, ops: seq<Op>)
    requires IsRun(states, ops) && ops != []
    ensures var n := |ops| - 1;
            |states| == n + 2 && IsRun(states[..n + 1], ops[..n]) && Step(states[n], ops[n], states[n + 1])
  {
    hide Step;
  }

  lemma RunSize(states: seq<State>, ops: seq<Op>)
    requires IsRun(states, ops)
    ensures |states| == |ops| + 1
  {
  }

  /** Over every run of kmalloc, kmfree and kmrealloc the live blocks with their headers stay
      apart from each other and from the free frames, the free size stays exact, and free size
      plus 4096 times the sum of `numpages + 1` over the live blocks is constant. */
  lemma {:induction false} RunKeeps(states: seq<State>, ops: seq<Op>)
    requires IsRun(states, ops) && Inv(states[0])
    ensures Inv(states[|ops|]) && Balance(states[|ops|]) == Balance(states[0])
  {
    hide Inv, Balance, Step, IsRun;
    RunSize(states, ops);
    if ops != [] {
      var n := |ops| - 1;
      RunInit(states, ops);
      RunKeeps(states[..n + 1], ops[..n]);
      StepKeeps(states[n], ops[n], states[n + 1]);
    }
  }

  // ----- the bytes of one block -----

  /** Where the block is now, and how many of its first bytes are still those it began with. */
  datatype Track = Track(at: nat, n: nat)

  /** The block that was at `at` after the calls `ops`: moved and cut by kmrealloc.  `None` when
      it was freed or its owner wrote into it. */
  function Follow(ops: seq<Op>, at: nat, n: nat): Option<Track> {
    if ops == [] then Some(Track(at, n))
    else
      match Follow(ops[..|ops| - 1], at, n)
      case None => None
      case Some(k) => FollowOne(ops[|ops| - 1], k)
  }

  function FollowOne(op: Op, k: Track): Option<Track> {
    match op
    case Malloc(_, _) => Some(k)
    case Free(addr) => if addr == k.at then None else Some(k)
    case Realloc(from, newsize, to) => if from == k.at then Some(Track(to, Min(k.n, newsize))) else Some(k)
    case Fill(addr) => if addr == k.at then None else Some(k)
  }

  /** A live block at `k.at` has at least `k.n` bytes, in its size and in its pages. */
  ghost predicate Has(live: Live, k: Track) {
    k.at in live && k.n <= live[k.at].meta.size && k.n <= live[k.at].meta.numpages * PAGE_SIZE
  }

  lemma CarriedLess(before: seq<bv8>, from: nat, after: seq<bv8>, to: nat, n: nat, m: nat)
    requires Carried(before, after, from, to, n) && m <= n
    ensures Carried(before, after, from, to, m)
  {
    assert after[to..to + m] == after[to..to + n][..m] && before[from..from + m] == before[from..from + n][..m];
  }

  lemma CarriedTrans(a: seq<bv8>, p: nat, b: seq<bv8>, q: nat, c: seq<bv8>, r: nat, n: nat)
    requires Carried(a, b, p, q, n) && Carried(b, c, q, r, n)
    ensures Carried(a, c, p, r, n)
  {
  }

  lemma UntouchedStart(live: Live, before: seq<bv8>, after: seq<bv8>, except: set<nat>, k: Track)
    requires SameBlocks(live, before, after, except) && Has(live, k) && k.at !in except
    ensures Carried(before, after, k.at, k.at, k.n)
  {
    CarriedLess(before, k.at, after, k.at, live[k.at].meta.numpages * PAGE_SIZE, k.n);
  }

  /** One call carries the bytes of the block over. */
  lemma StepCarries(s: State, op: Op, t: State, k: Track)
    requires Step(s, op, t) && Has(s.live, k) && FollowOne(op, k).Some?
    ensures var l := FollowOne(op, k).value; Has(t.live, l) && Carried(s.data, t.data, k.at, l.at, l.n)
  {
    match op
    case Malloc(size, to) =>
      UntouchedStart(s.live, s.data, t.data, {}, k);
    case Free(addr) =>
      UntouchedStart(t.live, s.data, t.data, {}, k);
    case Realloc(from, newsize, to) =>
      if from == to {
        UntouchedStart(s.live, s.data, t.data, {}, k);
        CarriedLess(s.data, k.at, t.data, k.at, k.n, Min(k.n, newsize));
      } else {
        MoveCarries(s, from, newsize, to, t, k);
      }
    case Fill(addr) =>
      UntouchedStart(s.live, s.data, t.data, {addr}, k);
  }

  lemma MoveCarries(s: State, from: nat, newsize: nat, to: nat, t: State, k: Track)
    requires IsMove(s, from, newsize, to, t) && Has(s.live, k)
    ensures var l := if from == k.at then Track(to, Min(k.n, newsize)) else k;
            Has(t.live, l) && Carried(s.data, t.data, k.at, l.at, l.n)
  {
    hide IsMalloc, IsFree, Carried, CopyOverruns, Has;
    var m := Min(s.live[from].meta.size, newsize);
    var mid: State :|
      && IsMalloc(s, newsize, to, mid) && IsFree(mid, from, t) && Carried(s.data, mid.data, from, to, m);
    var l := if from == k.at then Track(to, Min(k.n, newsize)) else k;
    TakenCarries(s, from, newsize, to, mid, k);
    GivenCarries(mid, from, t, l);
    CarriedTrans(s.data, k.at, mid.data, l.at, t.data, l.at, l.n);
  }

  lemma TakenCarries(s: State, from: nat, newsize: nat, to: nat, mid: State, k: Track)
    requires from in s.live && IsMalloc(s, newsize, to, mid) && Has(s.live, k)
    requires Carried(s.data, mid.data, from, to, Min(s.live[from].meta.size, newsize))
    requires !CopyOverruns(s.live[from].meta, newsize)
    ensures var l := if from == k.at then Track(to, Min(k.n, newsize)) else k;
            Has(mid.live, l) && l.at != from && Carried(s.data, mid.data, k.at, l.at, l.n)
  {
    hide SameBlocks, Extent, Takes, Address, Carried;
    if from == k.at {
      CarriedLess(s.data, from, mid.data, to, Min(s.live[from].meta.size, newsize), Min(k.n, newsize));
    } else {
      UntouchedStart(s.live, s.data, mid.data, {}, k);
    }
  }

  lemma GivenCarries(s: State, addr: nat, t: State, l: Track)
    requires IsFree(s, addr, t) && Has(s.live, l) && l.at != addr
    ensures Has(t.live, l) && Carried(s.data, t.data, l.at, l.at, l.n)
  {
    hide SameBlocks, Extent, Gives, Carried;
    UntouchedStart(t.live, s.data, t.data, {}, l);
  }

  /** Over every run a block that is not freed keeps its first bytes, as many as its smallest
      size so far, through every move and whatever happens to other blocks. */
  lemma {:induction false} BytesSurvive(states: seq<State>, ops: seq<Op>, k: Track)
    requires IsRun(states, ops) && Has(states[0].live, k) && k.at + k.n <= |states[0].data|
    requires Follow(ops, k.at, k.n).Some?
    ensures var s, t, l := states[0], states[|ops|], Follow(ops, k.at, k.n).value;
            l.n <= k.n && Has(t.live, l) && Carried(s.data, t.data, k.at, l.at, l.n)
  {
    hide Step, IsRun, Has, Carried;
    RunSize(states, ops);
    if ops == [] {
      StartRefl(states[0].data, k);
    } else {
      var n := |ops| - 1;
      RunInit(states, ops);
      BytesSurvive(states[..n + 1], ops[..n], k);
      var m := Follow(ops[..n], k.at, k.n).value;
      var l := FollowOne(ops[n], m).value;
      StepCarries(states[n], ops[n], states[n + 1], m);
      CarriedLess(states[0].data, k.at, states[n].data, m.at, m.n, l.n);
      CarriedTrans(states[0].data, k.at, states[n].data, m.at, states[n + 1].data, l.at, l.n);
    }
  }

  lemma StartRefl(data: seq<bv8>, k: Track)
    requires k.at + k.n <= |data|
    ensures Carried(data, data, k.at, k.at, k.n)
  {
  }
}
