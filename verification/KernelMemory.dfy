/** Page tables and heap blocks together: both take their frames from one allocator, and no frame
    ever serves both. */
module KernelMemory {
  import opened Common
  import opened AddrSpaces
  import opened Heap
  import Pmm
  import PageMap
  import PageSteps
  import HeapSteps
  import HeapRuns

  /** The tables, and the heap with the free frames. */
  datatype State = State(space: PageMap.Space, heap: HeapRuns.State)

  /** The tables with the free frames. */
  function Tables(s: State): PageSteps.State {
    PageSteps.State(s.space, s.heap.free)
  }

  /** The frames of tables. */
  function OfTables(s: State): set<int> {
    PageSteps.Owned(s.space.dir)
  }

  /** The frames of blocks and their headers. */
  function OfBlocks(s: State): set<int> {
    HeapSteps.Frames(s.heap.live)
  }

  /** No frame is in two of these: the free ones, a table, a block. */
  ghost predicate Inv(s: State) {
    PageSteps.Inv(Tables(s)) && HeapRuns.Inv(s.heap) && OfTables(s) !! OfBlocks(s)
  }

  /** All frames that are free, in a table or in a block. */
  function AllFrames(s: State): set<int> {
    s.heap.free + OfTables(s) + OfBlocks(s)
  }

  datatype Op = OnTables(page: PageSteps.Op) | OnHeap(block: HeapRuns.Op)

  /** A call of the table functions leaves blocks, headers and bytes alone and keeps the free size
      exact; a call of the heap functions leaves the tables alone. */
  ghost predicate Step(s: State, op: Op, t: State) {
    match op
    case OnTables(o) =>
      && PageSteps.Step(Tables(s), o, Tables(t))
      && t.heap == s.heap.(free := t.heap.free, freeSize := t.heap.freeSize)
      && (Pmm.Counted(s.heap.freeSize, s.heap.free) ==> Pmm.Counted(t.heap.freeSize, t.heap.free))
    case OnHeap(o) =>
      HeapRuns.Step(s.heap, o, t.heap) && t.space == s.space
  }

  // ----- every step -----

  /** Every call keeps tables, blocks and free frames apart and loses no frame. */
  lemma StepKeeps(s: State, op: Op, t: State)
    requires Inv(s) && Step(s, op, t)
    ensures Inv(t) && AllFrames(t) == AllFrames(s)
  {
    hide PageMap.Wf, PageMap.Lookup, PageMap.NoEmpty, PageSteps.Owned, HeapSteps.Frames, HeapSteps.Disjoint;
    hide HeapRuns.Step, Pmm.Counted;
    if op.OnHeap? {
      HeapRuns.StepKeeps(s.heap, op.block, t.heap);
      HeapRuns.StepTotal(s.heap, op.block, t.heap);
    }
  }

  // ----- runs -----

  ghost predicate IsRun(states: seq<State>, ops: seq<Op>) {
    && |states| == |ops| + 1
    && forall k :: 0 <= k < |ops| ==> Step(states[k], ops[k], states[k + 1])
  }

  /** Over every run of map, unmap, kmalloc, kmfree and kmrealloc calls, in any order, no frame is
      ever both in a table and in a block, none is free while in use, and none is lost: free
      frames, tables, and the sum of `numpages + 1` over the blocks add up to the same number. */
  lemma {:induction false} RunKeeps(states: seq<State>, ops: seq<Op>)
    requires IsRun(states, ops) && Inv(states[0])
    ensures Inv(states[|ops|]) && AllFrames(states[|ops|]) == AllFrames(states[0])
    ensures FrameCount(states[|ops|]) == FrameCount(states[0])
    decreases |ops|
  {
    hide Step, Inv, AllFrames, FrameCount;
    if ops != [] {
      var n := |ops| - 1;
      RunKeeps(states[..n + 1], ops[..n]);
      StepKeeps(states[n], ops[n], states[n + 1]);
    }
    CountIs(states[0]);
    CountIs(states[|ops|]);
  }

  /** Free frames, tables, and frames of blocks by their headers. */
  ghost function FrameCount(s: State): nat {
    |s.heap.free| + |s.space.dir| + HeapRuns.FrameSum(s.heap.live)
  }

  lemma CountIs(s: State)
    requires Inv(s)
    ensures FrameCount(s) == |AllFrames(s)|
  {
    hide PageSteps.Owned, HeapSteps.Frames, HeapSteps.Disjoint;
    OwnedCount(s.space);
    HeapRuns.SumIsFrames(s.heap.live);
    HeapRuns.UnionSize(s.heap.free, OfTables(s));
    HeapRuns.UnionSize(s.heap.free + OfTables(s), OfBlocks(s));
  }

  lemma OwnedCount(s: PageMap.Space)
    requires PageMap.Wf(s)
    ensures |PageSteps.Owned(s.dir)| == |s.dir|
  {
    PageSteps.OwnedSize(s.dir);
  }

  // ----- the calls -----

  /** An address space and a heap on one frame allocator, with no frame in common. */
  ghost predicate Apart(a: AddrSpace, h: KHeap)
    reads a`dir, a.mem, a.pmm, a.pmm.bitmap, h`live, h.headers, h.pmm, h.pmm.bitmap
  {
    a.pmm == h.pmm && a.Valid() && h.Valid() && PageSteps.Owned(a.dir) !! HeapSteps.Frames(h.live)
  }

  ghost function St(a: AddrSpace, h: KHeap): State
    reads a`dir, a.mem, h`live, h.pmm`free, h.pmm`freeSize, h.data
  {
    State(a.View(), h.St())
  }

  /** That is the invariant of the runs. */
  lemma ApartInv(a: AddrSpace, h: KHeap)
    requires Apart(a, h)
    ensures Inv(St(a, h))
  {
    h.StInv();
  }

  /** `map_page` beside a heap: whatever tables it builds, and even if it fails, no block loses a
      frame to them. */
  method MapPage(a: AddrSpace, h: KHeap, vaddr: nat, paddr: nat, flags: nat) returns (ok: bool)
    requires Apart(a, h)
    modifies a`dir, a.mem, a.pmm`free, a.pmm`freeSize, a.pmm.bitmap
    ensures Apart(a, h) && AllFrames(St(a, h)) == old(AllFrames(St(a, h)))
    ensures ok ==> Step(old(St(a, h)), OnTables(PageSteps.Map(vaddr, paddr, flags)), St(a, h))
  {
    hide PageMap.Wf, PageMap.Lookup, PageSteps.Owned, PageSteps.Step, PageMap.NoEmpty, PageMap.Walk, PageSteps.Word;
    hide HeapSteps.Frames, HeapSteps.Disjoint;
    hide Pmm.FreeFrames;
    ok := a.MapPage(vaddr, paddr, flags);
    assert h.headers[..] == old(h.headers[..]);
  }

  /** `unmap_page` beside a heap. */
  method UnmapPage(a: AddrSpace, h: KHeap, vaddr: nat)
    requires Apart(a, h)
    modifies a`dir, a.mem, a.pmm`free, a.pmm`freeSize, a.pmm.bitmap
    ensures Apart(a, h) && AllFrames(St(a, h)) == old(AllFrames(St(a, h)))
    ensures Step(old(St(a, h)), OnTables(PageSteps.Unmap(vaddr)), St(a, h))
  {
    hide PageMap.Wf, PageMap.Lookup, PageSteps.Owned, PageSteps.Step, PageMap.NoEmpty, PageMap.Walk, PageSteps.Word;
    hide HeapSteps.Frames, HeapSteps.Disjoint;
    hide Pmm.FreeFrames;
    a.UnmapPage(vaddr);
    assert h.headers[..] == old(h.headers[..]);
  }

  /** `kmalloc` beside an address space: the new block is on no table. */
  method KMalloc(a: AddrSpace, h: KHeap, size: word) returns (r: HeapSteps.Result<nat>)
    requires Apart(a, h)
    modifies h`live, h.headers, h.pmm`free, h.pmm`freeSize, h.pmm.bitmap
    ensures !r.Fault? ==> Apart(a, h) && AllFrames(St(a, h)) == old(AllFrames(St(a, h)))
    ensures r.Ok? ==> Step(old(St(a, h)), OnHeap(HeapRuns.Malloc(size, r.value)), St(a, h))
  {
    hide PageMap.Wf, PageMap.Lookup, PageSteps.Owned, PageSteps.Step, PageMap.NoEmpty, PageMap.Walk, PageSteps.Word;
    hide HeapSteps.Frames, HeapSteps.Sound, HeapSteps.NumPages, HeapRuns.Step, Pmm.NoRun, HeapSteps.TooLarge;
    hide Pmm.PhysMem.Valid;
    r := h.KMalloc(size);
    assert a.View() == old(a.View());
  }

  /** `kmfree` beside an address space: no table is on the frames given back. */
  method KmFree(a: AddrSpace, h: KHeap, addr: nat)
    requires Apart(a, h) && addr in h.live
    modifies h`live, h.pmm`free, h.pmm`freeSize, h.pmm.bitmap
    ensures Apart(a, h) && AllFrames(St(a, h)) == old(AllFrames(St(a, h)))
    ensures Step(old(St(a, h)), OnHeap(HeapRuns.Free(addr)), St(a, h))
  {
    hide PageMap.Wf, PageMap.Lookup, PageSteps.Owned, PageSteps.Step, PageMap.NoEmpty, PageMap.Walk, PageSteps.Word;
    hide HeapSteps.Frames, HeapSteps.Sound, HeapRuns.Step;
    hide Pmm.PhysMem.Valid;
    h.KmFree(addr);
    assert a.View() == old(a.View());
  }

  /** `kmrealloc` beside an address space. */
  method KmRealloc(a: AddrSpace, h: KHeap, addr: nat, newsize: word) returns (r: HeapSteps.Result<nat>)
    requires Apart(a, h) && (addr == 0 || addr in h.live)
    modifies h`live, h.headers, h.data, h.pmm`free, h.pmm`freeSize, h.pmm.bitmap
    ensures !r.Fault? ==> Apart(a, h) && AllFrames(St(a, h)) == old(AllFrames(St(a, h)))
    ensures r.Ok? ==> Step(old(St(a, h)), OnHeap(HeapRuns.ReallocOp(addr, newsize, r.value)), St(a, h))
  {
    hide PageMap.Wf, PageMap.Lookup, PageSteps.Owned, PageSteps.Step, PageMap.NoEmpty, PageMap.Walk, PageSteps.Word;
    hide HeapSteps.Frames, HeapSteps.Sound, HeapSteps.NumPages, HeapRuns.Step, HeapSteps.Faulty, HeapSteps.Placed;
    hide HeapSteps.Carried, HeapSteps.SameBlocks, HeapSteps.Moved, HeapSteps.Shared, HeapRuns.ReallocOp;
    hide Pmm.PhysMem.Valid;
    r := h.KmRealloc(addr, newsize);
    assert a.View() == old(a.View());
  }
}
