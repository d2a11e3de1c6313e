/** The page heap of kernel/lib/kmalloc.c: a header page in front of every block, frames taken
    from the physical allocator.  Addresses are physical; the constant that PHYS_TO_VIRT adds
    cancels everywhere.  Headers and user bytes are kept in two arrays over the same frames,
    which is sound because the frames of live blocks never overlap. */
module Heap {
  import opened Common
  import opened HeapRuns
  import opened HeapSteps
  import Pmm

  class KHeap {
    const pmm: Pmm.PhysMem
    /** The header at the start of each frame, for the frames that have one. */
    const headers: array<Metadata>
    /** The bytes of physical memory. */
    const data: array<bv8>
    ghost var live: Live

    ghost predicate Valid()
      reads this`live, headers, pmm, pmm.bitmap
    {
      && pmm.Valid()
      && headers.Length == pmm.Frames() && data.Length == pmm.Frames() * PAGE_SIZE
      && Sound(live, headers[..], pmm.free)
    }

    /** The state as a value. */
    ghost function St(): State
      reads this`live, pmm`free, pmm`freeSize, data
    {
      State(live, pmm.free, pmm.freeSize, data[..])
    }

    lemma StInv()
      requires Valid()
      ensures Inv(St())
    {
    }

    /** Free frames and frames of live blocks together. */
    ghost function AllFrames(): set<int>
      reads this`live, pmm`free
    {
      Total(pmm.free, live)
    }

    constructor (allocator: Pmm.PhysMem)
      requires allocator.Valid()
      ensures Valid() && fresh(headers) && fresh(data) && pmm == allocator && live == map[]
    {
      pmm := allocator;
      headers := new Metadata[allocator.Frames()](_ => Metadata(0, 0));
      data := new bv8[allocator.Frames() * PAGE_SIZE];
      live := map[];
    }

    /** The call `pmm_get(numpages, 0x0)`, as the first frame of the run. */
    method TakeRun(numpages: nat) returns (r: Result<nat>)
      requires pmm.Valid() && 0 < numpages <= 0x10_0000_0000_0000
      modifies pmm`free, pmm`freeSize, pmm.bitmap
      ensures r.Fault? <==> Pmm.Overruns(pmm.physLimit, numpages, 0)
      ensures !r.Fault? ==> pmm.Valid()
      ensures !r.Ok? ==> pmm.free == old(pmm.free)
      ensures r.Panic? ==> Pmm.NoRun(old(pmm.free), pmm.physLimit, numpages)
      ensures r.Ok? ==> r.value + numpages <= pmm.Frames() && Pmm.Run(r.value, numpages) <= old(pmm.free)
                        && pmm.free == Pmm.Taken(old(pmm.free), r.value, numpages)
    {
      hide Pmm.IsFirst, Pmm.Run, Pmm.FrameOf, Pmm.Wraps, Pmm.Visits, Pmm.Taken, Pmm.FreeFrames, Pmm.Overruns;
      pmm.FramesBelow();
      ghost var free := pmm.free;
      var a := pmm.PmmGet(numpages, 0);
      Pmm.GetOutcome(free, pmm.physLimit, numpages, a);
      if a.None? {
        return Panic;
      }
      if a.value + numpages * PAGE_SIZE >= TWO64 {
        return Fault;
      }
      r := Ok(Pmm.FrameOf(a.value));
      FitInFrames(free, pmm.physLimit, numpages, a.value, pmm.Frames());
    }

    /** The body of `kmalloc`. */
    method NewBlock(size: word) returns (r: Result<nat>)
      requires Valid()
      modifies this`live, headers, pmm`free, pmm`freeSize, pmm.bitmap
      ensures r.Fault? <==> TooLarge(size, pmm.physLimit)
      ensures !r.Fault? ==> Valid() && AllFrames() == old(AllFrames())
      ensures !r.Ok? ==> live == old(live) && pmm.free == old(pmm.free)
      ensures r.Panic? ==> Pmm.NoRun(old(pmm.free), pmm.physLimit, NumPages(size) + 1)
      ensures r.Ok? ==> r.value !in old(live) && r.value in live
                        && live[r.value].meta == Metadata(NumPages(size), size)
                        && live == old(live)[r.value := live[r.value]]
                        && Extent(live[r.value]) <= old(pmm.free)
                        && pmm.free == old(pmm.free) - Extent(live[r.value]) && r.value == Address(live[r.value])
    {
      hide Sound, Total, NumPages, Pmm.Run, Pmm.Overruns, Pmm.NoRun, Pmm.PhysMem.Valid;
      NumPagesBound(size);
      var np := NumPages(size);
      var frame := TakeRun(np + 1);
      if frame.Fault? {
        return Fault;
      }
      assert headers[..] == old(headers[..]);
      if frame.Panic? {
        return Panic;
      }
      ghost var b := Block(frame.value, Metadata(np, size));
      SoundTake(live, headers[..], old(pmm.free), b);
      headers[frame.value] := Metadata(np, size);
      live := live[Address(b) := b];
      r := Ok((frame.value + 1) * PAGE_SIZE);
    }

    /** `kmalloc`: a block whose frames were free, its header filled in, all others untouched.
        It panics only when no run of free frames is long enough, and faults exactly for sizes that
        are too large for the 64-bit loops of the frame allocator.  Unless the rounding of the size
        wraps around, the block and its header take the least number of frames that can hold them. */
    method KMalloc(size: word) returns (r: Result<nat>)
      requires Valid()
      modifies this`live, headers, pmm`free, pmm`freeSize, pmm.bitmap
      ensures r.Fault? <==> TooLarge(size, pmm.physLimit)
      ensures !r.Fault? ==> Valid() && AllFrames() == old(AllFrames())
      ensures !r.Ok? ==> live == old(live) && pmm.free == old(pmm.free)
      ensures r.Panic? ==> Pmm.NoRun(old(pmm.free), pmm.physLimit, NumPages(size) + 1)
      ensures r.Ok? ==> r.value !in old(live) && r.value in live
                        && live[r.value].meta == Metadata(NumPages(size), size)
                        && live == old(live)[r.value := live[r.value]]
                        && Extent(live[r.value]) <= old(pmm.free)
      ensures r.Ok? && size + PAGE_SIZE - 1 < TWO64 ==>
                LeastPages(size, live[r.value].meta.numpages) && TakesLeast(size, r.value, old(pmm.free), pmm.free)
      ensures r.Panic? && size + PAGE_SIZE - 1 < TWO64 ==>
                forall n: nat :: LeastPages(size, n) ==> Pmm.NoRun(old(pmm.free), pmm.physLimit, n + 1)
      ensures r.Ok? ==> Step(old(St()), Malloc(size, r.value), St())
    {
      hide Sound, Total, NumPages, Extent, Address, TooLarge, SameBlocks, IsMalloc, LeastPages, TakesLeast;
      hide Pmm.NoRun, Pmm.Counted, Pmm.FreeFrames;
      AllInMemory();
      ghost var s := St();
      r := NewBlock(size);
      assert data[..] == s.data;
      if r.Ok? {
        MallocStep(s, size, r.value, St());
        if size + PAGE_SIZE - 1 < TWO64 {
          BlockTakesLeast(size, live[r.value], s.free);
        }
      } else if r.Panic? && size + PAGE_SIZE - 1 < TWO64 {
        NoLeastRun(size, s.free, pmm.physLimit);
      }
    }

    /** `kmfree`: exactly the frames of the block become free. */
    method KmFree(addr: nat)
      requires Valid() && addr in live
      modifies this`live, pmm`free, pmm`freeSize, pmm.bitmap
      ensures Valid() && live == old(live) - {addr} && AllFrames() == old(AllFrames())
      ensures Step(old(St()), Free(addr), St())
    {
      hide Sound, Total, SameBlocks, Extent, IsFree, Pmm.Counted, Pmm.FreeFrames;
      AllInMemory();
      ghost var s := St();
      GiveBlock(addr);
      assert data[..] == s.data;
      FreeStep(s, addr, St());
    }

    /** The body of `kmfree`. */
    method GiveBlock(addr: nat)
      requires Valid() && addr in live
      modifies this`live, pmm`free, pmm`freeSize, pmm.bitmap
      ensures Valid() && live == old(live) - {addr} && AllFrames() == old(AllFrames())
      ensures pmm.free == old(pmm.free) + Extent(old(live)[addr])
    {
      hide Sound, Total, HeaderSlot, Pmm.Run, Pmm.FrameOf, Pmm.Visits, Pmm.PhysMem.InRange;
      HeaderOf(addr);
      SoundGive(live, headers[..], pmm.free, addr);
      var np := headers[HeaderSlot(addr)].numpages;
      live := live - {addr};
      pmm.PmmFree(addr - PAGE_SIZE, np + 1);
    }

    /** The header of a live block is in the page before its address, and its extent is what
        `kmfree` hands to `pmm_free`. */
    lemma HeaderOf(addr: nat)
      requires Valid() && addr in live
      ensures PAGE_SIZE <= addr < TWO64 && live[addr].meta.numpages + 1 < TWO64
      ensures var d, n := addr - PAGE_SIZE, live[addr].meta.numpages + 1;
              && HeaderSlot(addr) < headers.Length && headers[HeaderSlot(addr)] == live[addr].meta
              && pmm.InRange(d, n) && Pmm.Visits(d, n) == n
              && Pmm.FrameOf(d) == live[addr].frame
    {
      var b := live[addr];
      assert addr == Address(b) && headers[..][b.frame] == b.meta;
      assert addr - PAGE_SIZE == b.frame * PAGE_SIZE;
      FrameAddress(b.frame);
      Pmm.VisitsAll(b.frame * PAGE_SIZE, b.meta.numpages + 1);
    }

    lemma FrameAddress(f: nat)
      ensures Pmm.FrameOf(f * PAGE_SIZE) == f
    {
    }

    // ----- the bytes -----

    /** The first `n` bytes at `addr`. */
    ghost function Bytes(addr: nat, n: nat): seq<bv8>
      requires addr + n <= data.Length
      reads data
    {
      data[addr..addr + n]
    }

    /** The pages of a live block lie in memory. */
    lemma BlockInMemory(addr: nat)
      requires Valid() && addr in live
      ensures addr + live[addr].meta.numpages * PAGE_SIZE <= data.Length
    {
      var b := live[addr];
      assert addr == Address(b) && b.frame + b.meta.numpages < headers.Length;
    }

    /** Blocks do not share bytes. */
    lemma BytesApart(a: nat, b: nat)
      requires Valid() && a in live && b in live && a != b
      ensures a + live[a].meta.numpages * PAGE_SIZE <= b || b + live[b].meta.numpages * PAGE_SIZE <= a
    {
      var x, y := live[a], live[b];
      assert a == Address(x) && b == Address(y);
      if x.frame <= y.frame {
        assert x.frame + x.meta.numpages < y.frame by {
          assert y.frame in Extent(y);
          assert y.frame !in Extent(x);
        }
      } else {
        assert y.frame + y.meta.numpages < x.frame by {
          assert x.frame in Extent(x);
          assert x.frame !in Extent(y);
        }
      }
    }

    /** The header of a block is in the page just before its address, and that page is in the bytes of
        no block, so that writing user bytes changes no header. */
    lemma HeadersApart(a: nat, b: nat)
      requires Valid() && a in live && b in live
      ensures a % PAGE_SIZE == 0 && PAGE_SIZE <= a && a / PAGE_SIZE - 1 < headers.Length
      ensures headers[a / PAGE_SIZE - 1] == live[a].meta
      ensures a <= b || b + live[b].meta.numpages * PAGE_SIZE <= a - PAGE_SIZE
    {
      HeaderPage(a);
      if a != b {
        BytesApart(a, b);
        BlocksApart(live, headers[..], pmm.free, a, b);
      }
    }

    lemma HeaderPage(a: nat)
      requires Valid() && a in live
      ensures a == (live[a].frame + 1) * PAGE_SIZE && live[a].frame < headers.Length
      ensures headers[live[a].frame] == live[a].meta
    {
      hide NumPages, Frames, Pmm.FreeFrames, Pmm.Counted;
      assert a == Address(live[a]) && headers[..][live[a].frame] == live[a].meta;
    }

    /** `memcpy`: `rep movsb`, one byte after the other in ascending order. */
    method MemCpy(dst: nat, src: nat, len: nat)
      requires dst + len <= data.Length && src + len <= data.Length
      requires dst <= src || src + len <= dst
      modifies data
      ensures data[dst..dst + len] == old(data[src..src + len])
      ensures data[..dst] == old(data[..dst]) && data[dst + len..] == old(data[dst + len..])
    {
      hide Copied;
      ghost var was := data[..];
      CopyStart(was, dst, src);
      for i := 0 to len
        invariant Copied(was, data[..], dst, src, i)
      {
        CopyStep(was, data[..], dst, src, i, len);
        ghost var now := data[..];
        data[dst + i] := data[src + i];
        assert data[..] == now[dst + i := now[src + i]];
      }
      CopyEnd(was, data[..], dst, src, len);
    }

    /** `memcpy` from one live block into another: the bytes arrive and no other block changes. */
    method CopyBlock(dst: nat, src: nat, len: nat)
      requires Valid() && dst in live && src in live && dst != src
      requires len <= live[dst].meta.numpages * PAGE_SIZE && len <= live[src].meta.numpages * PAGE_SIZE
      modifies data
      ensures Valid() && Carried(old(data[..]), data[..], src, dst, len)
      ensures SameBlocks(live, old(data[..]), data[..], {dst})
    {
      hide Sound, Total, SameBlocks;
      BlockInMemory(dst);
      BlockInMemory(src);
      BytesApart(dst, src);
      forall c | c in live && c != dst
        ensures var n := live[c].meta.numpages * PAGE_SIZE; c + n <= data.Length && (c + n <= dst || dst + len <= c)
      {
        BlockInMemory(c);
        BytesApart(dst, c);
      }
      ghost var before := data[..];
      MemCpy(dst, src, len);
      CopySame(live, before, data[..], dst, len);
    }

    /** The branch of `kmrealloc` that keeps the block: only the recorded size changes. */
    method Resize(addr: nat, newsize: nat)
      requires Valid() && addr in live && NumPages(newsize) == live[addr].meta.numpages
      modifies this`live, headers
      ensures Valid() && live == old(live)[addr := old(live)[addr].(meta := Metadata(NumPages(newsize), newsize))]
      ensures AllFrames() == old(AllFrames())
    {
      HeaderOf(addr);
      SoundResize(live, headers[..], pmm.free, addr, newsize);
      ghost var b := live[addr];
      hide Sound, Frames, NumPages;
      headers[HeaderSlot(addr)] := Metadata(NumPages(newsize), newsize);
      live := live[addr := Block(b.frame, Metadata(b.meta.numpages, newsize))];
    }

    /** The branch of `kmrealloc` that moves the block. */
    method MoveBlock(addr: nat, newsize: word) returns (r: Result<nat>)
      requires Valid() && addr in live
      modifies this`live, headers, data, pmm`free, pmm`freeSize, pmm.bitmap
      ensures r.Fault? <==>
                TooLarge(newsize, pmm.physLimit) || (CopyOverruns(old(live)[addr].meta, newsize) && !r.Panic?)
      ensures !r.Fault? ==> Valid() && AllFrames() == old(AllFrames())
      ensures r.Panic? ==> live == old(live) && data[..] == old(data[..]) && pmm.free == old(pmm.free)
      ensures r.Ok? ==> r.value in live && r.value !in old(live)
                        && live[r.value].meta == Metadata(NumPages(newsize), newsize)
                        && live == Moved(old(live), addr, r.value, live[r.value])
                        && Extent(live[r.value]) <= old(pmm.free)
      ensures r.Ok? ==> Carried(old(data[..]), data[..], addr, r.value, Shared(old(live)[addr].meta, newsize))
      ensures r.Ok? ==> SameBlocks(old(live), old(data[..]), data[..], {})
      ensures r.Ok? ==> Step(old(St()), Realloc(addr, newsize, r.value), St())
    {
      hide Sound, Total, Extent, NumPages, HeaderSlot, SameBlocks, Carried, TooLarge, CopyOverruns, Pmm.NoRun, Shared;
      hide IsMalloc, IsFree;
      ghost var s := St();
      r := KMalloc(newsize);
      assert data[..] == old(data[..]);
      if r.Ok? {
        if CopyOverruns(HeaderAt(addr), newsize) {
          return Fault;
        }
        SharedIsMin(live[addr].meta, newsize);
        FinishMove(addr, r.value, newsize, s);
      }
    }

    /** The copy and the `kmfree` at the end of `kmrealloc`. */
    method FinishMove(addr: nat, target: nat, newsize: nat, ghost s: State)
      requires Valid() && addr in live && target in live && addr != target
      requires live[target].meta.numpages == NumPages(newsize) && !CopyOverruns(live[addr].meta, newsize)
      requires target !in s.live && live == s.live[target := live[target]] && s.data == data[..]
      requires IsMalloc(s, newsize, target, St())
      modifies this`live, data, pmm`free, pmm`freeSize, pmm.bitmap
      ensures Valid() && AllFrames() == old(AllFrames())
      ensures target in live && live == Moved(s.live, addr, target, old(live)[target])
      ensures Carried(s.data, data[..], addr, target, Min(old(live)[addr].meta.size, newsize))
      ensures SameBlocks(s.live, s.data, data[..], {})
      ensures Step(s, Realloc(addr, newsize, target), St())
    {
      hide Sound, Total, Extent, NumPages, HeaderSlot, SameBlocks, Carried, CopyOverruns, IsMalloc, IsFree;
      ghost var m := St();
      FillNew(addr, target, newsize, s.live);
      MallocThenFill(s, newsize, target, m, data[..]);
      ghost var mid := St();
      assert mid == m.(data := data[..]);
      FreeMoved(addr, target, s.live);
      MoveStep(s, addr, newsize, target, mid, St());
    }

    /** The header of a live block, as `kmrealloc` reads it. */
    function HeaderAt(addr: nat): (m: Metadata)
      requires Valid() && addr in live
      reads this`live, headers, pmm, pmm.bitmap
      ensures m == live[addr].meta
    {
      HeaderOf(addr);
      headers[HeaderSlot(addr)]
    }

    /** The `kmfree` at the end of `kmrealloc`. */
    method FreeMoved(addr: nat, target: nat, ghost before: Live)
      requires Valid() && addr in before && target !in before && target in live
      requires live == before[target := live[target]]
      modifies this`live, pmm`free, pmm`freeSize, pmm.bitmap
      ensures Valid() && AllFrames() == old(AllFrames())
      ensures target in live && live == Moved(before, addr, target, old(live)[target])
      ensures IsFree(old(St()), addr, St()) && data[..] == old(data[..])
    {
      hide Sound, Total, Extent, NumPages, HeaderSlot, IsFree;
      MovedBlock(before, addr, target, live[target], [], []);
      KmFree(addr);
    }

    /** The copy in `kmrealloc`: the smaller of the two sizes. */
    method FillNew(addr: nat, target: nat, newsize: nat, ghost before: Live)
      requires Valid() && addr in live && target in live && addr != target
      requires live[target].meta.numpages == NumPages(newsize) && !CopyOverruns(live[addr].meta, newsize)
      requires target !in before && live == before[target := live[target]]
      modifies data
      ensures Valid()
      ensures Carried(old(data[..]), data[..], addr, target, Min(live[addr].meta.size, newsize))
      ensures SameBlocks(before, old(data[..]), data[..], {})
    {
      hide Sound, Total, Extent, NumPages, HeaderSlot, SameBlocks, Carried;
      var size := HeaderAt(addr).size;
      assert addr in before;
      CopyBlock(target, addr, if size > newsize then newsize else size);
      MovedBlock(before, addr, target, live[target], old(data[..]), data[..]);
    }

    /** `kmrealloc`.  The result holds the first min(old size, new size) bytes of the old block;
        every other block keeps its bytes; no frame is lost.  Address 0 stands for NULL.  `Faulty`
        says exactly when memory outside of the blocks is used instead. */
    method KmRealloc(addr: nat, newsize: word) returns (r: Result<nat>)
      requires Valid() && (addr == 0 || addr in live)
      modifies this`live, headers, data, pmm`free, pmm`freeSize, pmm.bitmap
      ensures r.Fault? <==> Faulty(old(live), addr, newsize, pmm.physLimit, r.Panic?)
      ensures !r.Fault? ==> Valid() && AllFrames() == old(AllFrames())
      ensures r.Panic? ==> live == old(live) && data[..] == old(data[..]) && pmm.free == old(pmm.free)
      ensures r.Ok? ==> r.value in live && live[r.value].meta == Metadata(NumPages(newsize), newsize)
                        && live == Moved(old(live), addr, r.value, live[r.value])
                        && Placed(old(live), old(pmm.free), addr, r.value, live[r.value])
      ensures r.Ok? && addr in old(live) ==>
                Carried(old(data[..]), data[..], addr, r.value, Shared(old(live)[addr].meta, newsize))
                && BothSizes(old(data[..]), data[..], addr, r.value, old(live)[addr].meta, newsize)
      ensures r.Ok? && addr in old(live) ==>
                (r.value == addr <==> NumPages(old(live)[addr].meta.size) == NumPages(newsize))
      ensures r.Ok? ==> SameBlocks(old(live), old(data[..]), data[..], {addr})
      ensures r.Ok? ==> Step(old(St()), ReallocOp(addr, newsize, r.value), St())
    {
      hide Sound, Total, Extent, NumPages, HeaderSlot, SameBlocks, TooLarge, CopyOverruns, Pmm.NoRun, Shared, Step;
      hide Carried, BothSizes;
      AllInMemory();
      if addr == 0 {
        r := KmReallocNull(newsize);
        return;
      }
      SameBlocksLess(live, data[..], addr);
      var d := HeaderAt(addr);
      if NumPages(d.size) == NumPages(newsize) {
        KeepBlock(addr, newsize);
        SharedBytes(data[..], data[..], addr, addr, d, newsize);
        r := Ok(addr);
      } else {
        r := MoveBlock(addr, newsize);
        if r.Ok? {
          SameBlocksWiden(old(live), old(data[..]), data[..], addr);
          SharedBytes(old(data[..]), data[..], addr, r.value, d, newsize);
        }
      }
    }

    /** The branch of `kmrealloc` that keeps the block. */
    method KeepBlock(addr: nat, newsize: nat)
      requires Valid() && addr in live && NumPages(newsize) == NumPages(live[addr].meta.size)
      modifies this`live, headers
      ensures Valid() && AllFrames() == old(AllFrames()) && addr in live
      ensures live[addr].meta == Metadata(NumPages(newsize), newsize)
      ensures live == Moved(old(live), addr, addr, live[addr])
      ensures Placed(old(live), pmm.free, addr, addr, live[addr])
      ensures Step(old(St()), Realloc(addr, newsize, addr), St())
      ensures Carried(data[..], data[..], addr, addr, Shared(old(live)[addr].meta, newsize))
    {
      hide Sound, Total, NumPages, HeaderSlot, SameBlocks, Pmm.Run, Pmm.FreeFrames, Pmm.Counted;
      AllInMemory();
      BlockInMemory(addr);
      PagesOfSize(live, headers[..], pmm.free, addr);
      Resize(addr, newsize);
      MovedInPlace(old(live), addr, live[addr]);
    }

    /** `kmrealloc(NULL, newsize)`. */
    method KmReallocNull(newsize: word) returns (r: Result<nat>)
      requires Valid() && 0 !in live && SameBlocks(live, data[..], data[..], {})
      modifies this`live, headers, pmm`free, pmm`freeSize, pmm.bitmap
      ensures r.Fault? <==> TooLarge(newsize, pmm.physLimit)
      ensures !r.Fault? ==> Valid() && AllFrames() == old(AllFrames())
      ensures r.Panic? ==> live == old(live) && pmm.free == old(pmm.free)
      ensures r.Ok? ==> r.value in live && live[r.value].meta == Metadata(NumPages(newsize), newsize)
                        && live == Moved(old(live), 0, r.value, live[r.value])
                        && Placed(old(live), old(pmm.free), 0, r.value, live[r.value])
      ensures SameBlocks(old(live), old(data[..]), data[..], {0})
      ensures r.Ok? ==> Step(old(St()), Malloc(newsize, r.value), St())
    {
      hide Sound, Total, Extent, NumPages, SameBlocks, TooLarge, Pmm.NoRun, Shared, Step;
      SameBlocksWiden(live, data[..], data[..], 0);
      r := KMalloc(newsize);
      assert data[..] == old(data[..]);
      if r.Ok? {
        MovedFromNull(old(live), r.value, live[r.value]);
      }
    }

    lemma AllInMemory()
      requires Valid()
      ensures 0 !in live && SameBlocks(live, data[..], data[..], {})
    {
      forall a | a in live ensures a > 0 && a + live[a].meta.numpages * PAGE_SIZE <= data.Length {
        BlockInMemory(a);
        HeaderOf(a);
      }
    }
  }
}
