/** The physical frame allocator of kernel/core/mm.c: a byte bitmap with one bit per 4 KiB
    frame (set = free) and a running count of free bytes.

    The bitmap is an array of `bv8` that the methods update in place with the source's own
    mask arithmetic.  What callers see is `free`, the set of free frame numbers. */
module Pmm {
  import opened Common

  const BMP_PAGES_PER_BYTE: nat := 8

  /** Physical addresses have at most 52 bits. */
  const PHYS_MAX: nat := 0x10_0000_0000_0000

  /** The number of pages whose size is 2^64 bytes. */
  const MAX_PAGES: nat := 0x10_0000_0000_0000

  // ----- one byte of the bitmap -----

  function Mask(k: nat): bv8
    requires k < BMP_PAGES_PER_BYTE
  {
    (1 as bv8) << k
  }

  predicate BitSet(b: bv8, k: nat)
    requires k < BMP_PAGES_PER_BYTE
  {
    b & Mask(k) != 0
  }

  /** Clearing bit k changes bit k and nothing else. */
  lemma ClearBit(b: bv8, k: nat, j: nat)
    requires k < BMP_PAGES_PER_BYTE && j < BMP_PAGES_PER_BYTE
    ensures BitSet(b & !Mask(k), j) == (j != k && BitSet(b, j))
  {
    MaskCases(k);
    MaskCases(j);
  }

  /** Setting bit k changes bit k and nothing else. */
  lemma RaiseBit(b: bv8, k: nat, j: nat)
    requires k < BMP_PAGES_PER_BYTE && j < BMP_PAGES_PER_BYTE
    ensures BitSet(b | Mask(k), j) == (j == k || BitSet(b, j))
  {
    MaskCases(k);
    MaskCases(j);
  }

  lemma MaskCases(k: nat)
    requires k < BMP_PAGES_PER_BYTE
    ensures Mask(k) == match k
                       case 0 => 1
                       case 1 => 2
                       case 2 => 4
                       case 3 => 8
                       case 4 => 16
                       case 5 => 32
                       case 6 => 64
                       case _ => 128
  {
  }

  // ----- the bitmap as a set of free frames -----

  predicate FrameFree(bitmap: seq<bv8>, frame: nat) {
    frame < BMP_PAGES_PER_BYTE * |bitmap| &&
    BitSet(bitmap[frame / BMP_PAGES_PER_BYTE], frame % BMP_PAGES_PER_BYTE)
  }

  function FreeFrames(bitmap: seq<bv8>): set<int> {
    set f: int | 0 <= f < BMP_PAGES_PER_BYTE * |bitmap| && FrameFree(bitmap, f)
  }

  function FrameOf(addr: nat): nat {
    addr / PAGE_SIZE
  }

  /** The frames `first`, `first + 1`, ..., `first + count - 1`. */
  function Run(first: nat, count: nat): set<int> {
    set f: int | 0 <= f < first + count && InRun(f, first, count)
  }

  predicate InRun(f: nat, first: nat, count: nat) {
    first <= f < first + count
  }

  // ----- the 64-bit loops over a run -----

  /** `numpages * PAGE_SIZE` in 64 bits. */
  function Product(numpages: nat): word {
    numpages * PAGE_SIZE % TWO64
  }

  /** The bound `addr + numpages * PAGE_SIZE` of the loops, in 64 bits. */
  function End(addr: nat, numpages: nat): word {
    (addr + Product(numpages)) % TWO64
  }

  /** The sum in the bound wraps around. */
  predicate Wraps(addr: nat, numpages: nat) {
    addr + Product(numpages) >= TWO64
  }

  /** The number of frames the loops visit. */
  function Visits(addr: nat, numpages: nat): nat {
    if Wraps(addr, numpages) then 0 else Product(numpages) / PAGE_SIZE
  }

  /** The loops visit exactly `Visits` frames. */
  lemma VisitsBound(addr: word, numpages: nat)
    ensures var n := Visits(addr, numpages);
            if n == 0 then End(addr, numpages) <= addr else End(addr, numpages) == addr + n * PAGE_SIZE
  {
    ProductAligned(numpages);
  }

  lemma ProductAligned(numpages: nat)
    ensures Product(numpages) == PAGE_SIZE * (numpages % 0x10_0000_0000_0000)
  {
    var q, r := numpages / 0x10_0000_0000_0000, numpages % 0x10_0000_0000_0000;
    assert numpages * PAGE_SIZE == q * TWO64 + r * PAGE_SIZE;
    ModDrop(q, r * PAGE_SIZE);
  }

  lemma ModDrop(q: nat, x: nat)
    requires x < TWO64
    ensures (q * TWO64 + x) % TWO64 == x
  {
  }

  /** That is all of the frames asked for exactly when the run ends below 2^64. */
  lemma VisitsAll(addr: word, numpages: nat)
    ensures Visits(addr, numpages) == numpages <==> numpages == 0 || addr + numpages * PAGE_SIZE < TWO64
    ensures Visits(addr, numpages) <= numpages
  {
    ProductAligned(numpages);
  }

  /** `addr` is one of the addresses `pmm_get` probes and all its `count` frames are free. */
  ghost predicate Fits(free: set<int>, limit: nat, count: nat, base: nat, addr: nat) {
    base <= addr < limit && (addr - base) % PAGE_SIZE == 0 && Run(FrameOf(addr), count) <= free
  }

  /** `pmm_get` probes this address and `pmm_alloc` accepts it. */
  ghost predicate Accepts(free: set<int>, limit: nat, count: nat, base: nat, addr: nat) {
    base <= addr < limit && (addr - base) % PAGE_SIZE == 0 && Run(FrameOf(addr), Visits(addr, count)) <= free
  }

  ghost predicate NoneBelow(free: set<int>, limit: nat, count: nat, base: nat, addr: nat) {
    forall a: nat :: a < addr ==> !Accepts(free, limit, count, base, a)
  }

  /** `r` is the first accepted address, or there is none. */
  ghost predicate IsFirst(free: set<int>, limit: nat, count: nat, base: nat, r: Option<nat>) {
    match r
    case Some(a) => Accepts(free, limit, count, base, a) && NoneBelow(free, limit, count, base, a)
    case None => NoneBelow(free, limit, count, base, limit)
  }

  lemma NextProbe(free: set<int>, limit: nat, count: nat, base: nat, addr: nat)
    requires base <= addr && (addr - base) % PAGE_SIZE == 0
    requires NoneBelow(free, limit, count, base, addr) && !Accepts(free, limit, count, base, addr)
    ensures NoneBelow(free, limit, count, base, addr + PAGE_SIZE)
  {
    forall a: nat | addr < a < addr + PAGE_SIZE ensures !Accepts(free, limit, count, base, a) {
      BetweenProbes(addr - base, a - addr);
    }
  }

  lemma BetweenProbes(x: nat, y: nat)
    requires x % PAGE_SIZE == 0 && 0 < y < PAGE_SIZE
    ensures (x + y) % PAGE_SIZE != 0
  {
  }

  /** All frames are below the limit of physical memory. */
  ghost predicate Below(free: set<int>, limit: nat) {
    limit <= PHYS_MAX && forall f :: f in free ==> 0 <= f && PAGE_SIZE * (f + 1) <= limit
  }

  /** Where the run ends below 2^64, accepting an address is finding the run free. */
  lemma AcceptsFit(free: set<int>, limit: nat, count: nat, base: nat, addr: word)
    requires addr + count * PAGE_SIZE < TWO64
    ensures Accepts(free, limit, count, base, addr) <==> Fits(free, limit, count, base, addr)
  {
    VisitsAll(addr, count);
  }

  /** A run of frames that exist ends below 2^64. */
  lemma FitEnds(free: set<int>, limit: nat, count: nat, base: nat, addr: nat)
    requires Below(free, limit) && Fits(free, limit, count, base, addr)
    ensures addr + count * PAGE_SIZE < TWO64
  {
    if count > 0 {
      RunMember(FrameOf(addr), count, count - 1);
    }
  }

  /** Exact first fit: whenever some run of free frames begins at a probed address, `pmm_get`
      returns the least such address. */
  lemma FirstFit(free: set<int>, limit: nat, count: nat, base: nat, r: Option<nat>, fit: nat)
    requires Below(free, limit) && IsFirst(free, limit, count, base, r)
    requires Fits(free, limit, count, base, fit)
    ensures r.Some? && r.value <= fit && Fits(free, limit, count, base, r.value)
    ensures !Wraps(r.value, count) && Visits(r.value, count) == count
  {
    FitEnds(free, limit, count, base, fit);
    AcceptsFit(free, limit, count, base, fit);
    AcceptsFit(free, limit, count, base, r.value);
    VisitsAll(r.value, count);
    NoWrap(r.value, count);
  }

  lemma NoWrap(addr: nat, count: nat)
    requires addr + count * PAGE_SIZE < TWO64
    ensures !Wraps(addr, count)
  {
  }

  /** Some probed address is so high that the end of the run does not fit 64 bits. */
  predicate Overruns(limit: nat, count: nat, base: nat) {
    base < limit && LastProbe(limit, base) + count * PAGE_SIZE >= TWO64
  }

  function LastProbe(limit: nat, base: nat): nat
    requires base < limit
  {
    base + (limit - 1 - base) / PAGE_SIZE * PAGE_SIZE
  }

  lemma ProbesEnd(limit: nat, base: nat, addr: nat)
    requires base <= addr < limit && (addr - base) % PAGE_SIZE == 0
    ensures addr <= LastProbe(limit, base) < limit && (LastProbe(limit, base) - base) % PAGE_SIZE == 0
  {
    assert addr - base == (addr - base) / PAGE_SIZE * PAGE_SIZE;
  }

  /** Without such a run, for up to 2^52 frames, `pmm_get` panics unless the loop bound overruns
      at a probed address; then it returns an address whose frames it has not taken. */
  lemma NoFitBounded(free: set<int>, limit: nat, count: nat, base: nat, r: Option<nat>)
    requires Below(free, limit) && IsFirst(free, limit, count, base, r) && 0 < count <= 0x10_0000_0000_0000
    requires forall a: nat :: !Fits(free, limit, count, base, a)
    ensures r.Some? <==> Overruns(limit, count, base)
    ensures r.Some? ==> Visits(r.value, count) == 0
  {
    if r.Some? {
      var a := r.value;
      ProbesEnd(limit, base, a);
      assert !Fits(free, limit, count, base, a);
      if a + count * PAGE_SIZE < TWO64 {
        AcceptsFit(free, limit, count, base, a);
      } else {
        NothingVisited(a, count);
      }
    } else if Overruns(limit, count, base) {
      OverrunAccepted(free, limit, count, base);
    }
  }

  /** The outcome of `pmm_get` for any page count.  The product wraps around, so it looks for
      `count % 2^52` frames: it returns the least probed address with that many free frames, and
      takes these; without any it panics, unless the bound overruns at a probed address.  Then
      the address it returns has none of its frames taken. */
  lemma GetExactly(free: set<int>, limit: nat, count: nat, base: nat, r: Option<nat>)
    requires Below(free, limit) && IsFirst(free, limit, count, base, r)
    ensures var n := count % MAX_PAGES;
            && (r.Some? <==> Overruns(limit, n, base) || !NoFits(free, limit, n, base))
            && (r.Some? && NoFits(free, limit, n, base) ==> Visits(r.value, count) == 0)
            && (r.Some? && !NoFits(free, limit, n, base) ==>
                  Visits(r.value, count) == n && Fits(free, limit, n, base, r.value)
                  && forall a: nat :: Fits(free, limit, n, base, a) ==> r.value <= a)
  {
    var n := count % MAX_PAGES;
    SameVisits(free, limit, count, base, r);
    if NoFits(free, limit, n, base) {
      if n == 0 {
        NoneAsked(free, limit, base);
      } else {
        NoFitBounded(free, limit, n, base, r);
      }
    } else {
      forall a: nat | Fits(free, limit, n, base, a) ensures r.Some? && r.value <= a {
        FirstFit(free, limit, n, base, r, a);
      }
      var a: nat :| Fits(free, limit, n, base, a);
      FirstFit(free, limit, n, base, r, a);
    }
  }

  /** No probed address begins a run of `count` free frames. */
  ghost predicate NoFits(free: set<int>, limit: nat, count: nat, base: nat) {
    forall a: nat :: !Fits(free, limit, count, base, a)
  }

  /** The loops depend on the page count modulo 2^52 only. */
  lemma SameVisits(free: set<int>, limit: nat, count: nat, base: nat, r: Option<nat>)
    ensures forall a: nat :: Visits(a, count) == Visits(a, count % MAX_PAGES)
    ensures IsFirst(free, limit, count, base, r) <==> IsFirst(free, limit, count % MAX_PAGES, base, r)
  {
    ProductAligned(count);
    ProductAligned(count % MAX_PAGES);
    hide Product;
    assert forall a: nat :: Visits(a, count) == Visits(a, count % MAX_PAGES);
    assert forall a: nat :: Accepts(free, limit, count, base, a) == Accepts(free, limit, count % MAX_PAGES, base, a);
  }

  /** A run of no frames fits everywhere. */
  lemma NoneAsked(free: set<int>, limit: nat, base: nat)
    requires NoFits(free, limit, 0, base)
    ensures limit <= base
  {
    RunStep(FrameOf(base), 0);
    assert !Fits(free, limit, 0, base, base);
  }

  lemma OverrunAccepted(free: set<int>, limit: nat, count: nat, base: nat)
    requires limit <= PHYS_MAX && 0 < count <= 0x10_0000_0000_0000 && Overruns(limit, count, base)
    ensures LastProbe(limit, base) < limit && Accepts(free, limit, count, base, LastProbe(limit, base))
  {
    var a := LastProbe(limit, base);
    ProbesEnd(limit, base, base);
    NothingVisited(a, count);
    RunStep(FrameOf(a), 0);
  }

  lemma NothingVisited(addr: word, count: nat)
    requires 0 < count <= 0x10_0000_0000_0000 && addr + count * PAGE_SIZE >= TWO64
    ensures Visits(addr, count) == 0
  {
    ProductAligned(count);
  }

  /** What a caller of `pmm_get` at base 0 may rely on, for up to 2^52 frames. */
  lemma GetOutcome(free: set<int>, limit: nat, count: nat, r: Option<nat>)
    requires Below(free, limit) && IsFirst(free, limit, count, 0, r) && 0 < count <= 0x10_0000_0000_0000
    ensures Overruns(limit, count, 0) <==> r.Some? && r.value + count * PAGE_SIZE >= TWO64
    ensures r.Some? && !Overruns(limit, count, 0) ==>
              Fits(free, limit, count, 0, r.value) && Visits(r.value, count) == count && !Wraps(r.value, count)
    ensures r.Some? && Overruns(limit, count, 0) ==> Taken(free, FrameOf(r.value), Visits(r.value, count)) == free
    ensures r.None? ==> NoRun(free, limit, count)
  {
    if a: nat :| Fits(free, limit, count, 0, a) {
      FirstFit(free, limit, count, 0, r, a);
      FitEnds(free, limit, count, 0, r.value);
      FitNoOverrun(free, limit, count, a);
    } else {
      NoFitBounded(free, limit, count, 0, r);
      if r.Some? {
        RunStep(FrameOf(r.value), 0);
        NoRunNoFit(free, limit, count, r.value);
      }
    }
  }

  lemma FitNoOverrun(free: set<int>, limit: nat, count: nat, addr: nat)
    requires Below(free, limit) && count > 0 && Fits(free, limit, count, 0, addr)
    ensures !Overruns(limit, count, 0)
  {
    RunMember(FrameOf(addr), count, count - 1);
    ProbesEnd(limit, 0, 0);
  }

  lemma NoRunNoFit(free: set<int>, limit: nat, count: nat, addr: word)
    requires Accepts(free, limit, count, 0, addr) && !Fits(free, limit, count, 0, addr)
    ensures addr + count * PAGE_SIZE >= TWO64
  {
    if addr + count * PAGE_SIZE < TWO64 {
      AcceptsFit(free, limit, count, 0, addr);
    }
  }

  /** No probed address begins a run of free frames. */
  ghost predicate NoRun(free: set<int>, limit: nat, count: nat) {
    forall a: nat :: !Fits(free, limit, count, 0, a)
  }

  /** Requests for one frame at base 0 are about frames, not addresses. */
  lemma FitsOne(free: set<int>, limit: nat, frame: nat)
    ensures Fits(free, limit, 1, 0, frame * PAGE_SIZE) <==> frame * PAGE_SIZE < limit && frame in free
  {
    OneFrame(frame);
    assert FrameOf(frame * PAGE_SIZE) == frame;
  }

  lemma FitsAligned(free: set<int>, limit: nat, addr: nat)
    requires Fits(free, limit, 1, 0, addr)
    ensures addr == FrameOf(addr) * PAGE_SIZE && FrameOf(addr) in free
  {
    OneFrame(FrameOf(addr));
  }

  lemma OneFrame(frame: nat)
    ensures Run(frame, 1) == {frame}
  {
  }

  /** A request for one frame gets a free frame below the limit, or there is none. */
  lemma OneFrameFirst(free: set<int>, limit: nat, r: Option<nat>)
    requires limit <= PHYS_MAX && IsFirst(free, limit, 1, 0, r)
    ensures r.Some? ==> r.value < limit && FrameOf(r.value) in free && !Wraps(r.value, 1)
                        && Taken(free, FrameOf(r.value), Visits(r.value, 1)) == free - {FrameOf(r.value)}
    ensures r.None? ==> forall f: nat :: f in free ==> f * PAGE_SIZE >= limit
  {
    if r.Some? {
      VisitsAll(r.value, 1);
      OneFrame(FrameOf(r.value));
      AcceptsFit(free, limit, 1, 0, r.value);
      FitsAligned(free, limit, r.value);
    } else {
      forall f: nat | f in free && f * PAGE_SIZE < limit ensures false {
        FitsOne(free, limit, f);
        AcceptsFit(free, limit, 1, 0, f * PAGE_SIZE);
      }
    }
  }

  lemma ClearFrame(bitmap: seq<bv8>, f: nat)
    requires f < BMP_PAGES_PER_BYTE * |bitmap|
    ensures FreeFrames(bitmap[f / 8 := bitmap[f / 8] & !Mask(f % 8)]) == FreeFrames(bitmap) - {f}
  {
    hide Mask, BitSet;
    var after := bitmap[f / 8 := bitmap[f / 8] & !Mask(f % 8)];
    forall g: nat | g < BMP_PAGES_PER_BYTE * |bitmap|
      ensures FrameFree(after, g) == (g != f && FrameFree(bitmap, g))
    {
      ClearBit(bitmap[f / 8], f % 8, g % 8);
    }
  }

  lemma RaiseFrame(bitmap: seq<bv8>, f: nat)
    requires f < BMP_PAGES_PER_BYTE * |bitmap|
    ensures FreeFrames(bitmap[f / 8 := bitmap[f / 8] | Mask(f % 8)]) == FreeFrames(bitmap) + {f}
  {
    hide Mask, BitSet;
    var after := bitmap[f / 8 := bitmap[f / 8] | Mask(f % 8)];
    forall g: nat | g < BMP_PAGES_PER_BYTE * |bitmap|
      ensures FrameFree(after, g) == (g == f || FrameFree(bitmap, g))
    {
      RaiseBit(bitmap[f / 8], f % 8, g % 8);
    }
  }

  /** The byte and bit that an address selects are those of its frame number. */
  lemma AddressToFrame(addr: nat, m: nat)
    ensures FrameOf(addr + m * PAGE_SIZE) == FrameOf(addr) + m
    ensures (addr + m * PAGE_SIZE) / (PAGE_SIZE * BMP_PAGES_PER_BYTE) == (FrameOf(addr) + m) / BMP_PAGES_PER_BYTE
  {
  }

  lemma RunSize(first: nat, count: nat)
    ensures |Run(first, count)| == count
  {
    RunStep(first, 0);
    if count == 0 {
    } else {
      RunSize(first, count - 1);
      RunStep(first, count - 1);
    }
  }

  /** `size` is the exact size in bytes of the frames in `frames`. */
  ghost predicate Counted(size: nat, frames: set<int>) {
    size == PAGE_SIZE * |frames|
  }

  lemma CountUp(size: nat, s: set<int>, f: nat)
    requires Counted(size, s)
    ensures Counted(size + if f in s then 0 else PAGE_SIZE, s + {f})
  {
    if f in s {
      assert s + {f} == s;
    }
  }

  lemma CountDown(size: nat, s: set<int>, first: nat, count: nat)
    requires Counted(size, s) && Run(first, count) <= s
    ensures size >= count * PAGE_SIZE && Counted(size - count * PAGE_SIZE, s - Run(first, count))
  {
    RunSize(first, count);
    assert s == (s - Run(first, count)) + Run(first, count);
  }

  /** The free frames after a run has been freed. */
  function Freed(free: set<int>, first: nat, count: nat): set<int> {
    free + Run(first, count)
  }

  /** The free frames after a run has been taken. */
  function Taken(free: set<int>, first: nat, count: nat): set<int> {
    free - Run(first, count)
  }

  lemma RunMember(first: nat, count: nat, m: nat)
    requires m < count
    ensures first + m in Run(first, count)
  {
  }

  lemma RunStep(first: nat, count: nat)
    ensures Run(first, 0) == {}
    ensures Run(first, count + 1) == Run(first, count) + {first + count}
  {
  }

  // ----- the allocator -----

  /** `kmem_info`. */
  class PhysMem {
    const physLimit: nat
    var freeSize: nat
    const bitmap: array<bv8>
    /** The free frames, as the bitmap records them. */
    ghost var free: set<int>

    /** Number of frames the bitmap covers. */
    function Frames(): nat
    {
      BMP_PAGES_PER_BYTE * bitmap.Length
    }

    /** The bitmap covers every frame the loops visit. */
    predicate InRange(addr: nat, numpages: nat)
    {
      Visits(addr, numpages) > 0 ==> FrameOf(addr) + Visits(addr, numpages) <= Frames()
    }

    ghost predicate Tied()
      reads this`free, bitmap
    {
      free == FreeFrames(bitmap[..]) && PAGE_SIZE * Frames() <= physLimit <= PHYS_MAX
    }

    /** The bitmap denotes `free` and the running count is its exact size. */
    ghost predicate Valid()
      reads this`free, this`freeSize, bitmap
    {
      Tied() && Counted(freeSize, free)
    }

    /** The state after `memset(bitmap, 0, bm_size)`: nothing is free yet. */
    constructor (limit: nat)
      requires limit <= PHYS_MAX
      ensures Valid() && fresh(bitmap)
      ensures physLimit == limit && Frames() == 8 * (limit / (PAGE_SIZE * BMP_PAGES_PER_BYTE))
      ensures free == {}
    {
      physLimit := limit;
      freeSize := 0;
      bitmap := new bv8[limit / (PAGE_SIZE * BMP_PAGES_PER_BYTE)](_ => 0);
      free := {};
      new;
      assert FreeFrames(bitmap[..]) == {};
    }

    lemma RunAddress(addr: nat, numpages: nat, m: nat)
      requires InRange(addr, numpages) && m < Visits(addr, numpages)
      ensures FrameOf(addr + m * PAGE_SIZE) == FrameOf(addr) + m < Frames()
    {
      AddressToFrame(addr, m);
    }

    /** Free frames exist. */
    lemma FramesBelow()
      requires Tied()
      ensures Below(free, physLimit) && forall f :: f in free ==> f < Frames()
    {
      forall f | f in free ensures PAGE_SIZE * (f + 1) <= physLimit {
        assert f + 1 <= Frames();
      }
    }

    /** The test `bitmap_isfree` makes for one address.  A frame past the end of the bitmap
        is taken to be in use. */
    predicate AddressFree(i: nat)
      reads bitmap
      ensures AddressFree(i) == (FrameOf(i) in FreeFrames(bitmap[..]))
    {
      hide Mask;
      AddressToFrame(i, 0);
      i / (PAGE_SIZE * BMP_PAGES_PER_BYTE) < bitmap.Length &&
      bitmap[i / (PAGE_SIZE * BMP_PAGES_PER_BYTE)] & Mask((i / PAGE_SIZE) % BMP_PAGES_PER_BYTE) != 0
    }

    /** `bitmap_isfree`. */
    method IsFree(addr: word, numpages: word) returns (isFree: bool)
      requires Tied()
      ensures isFree == (Run(FrameOf(addr), Visits(addr, numpages)) <= free)
    {
      hide FreeFrames, FrameOf, Run, AddressFree, Visits, Tied;
      ghost var n := Visits(addr, numpages);
      RunStep(FrameOf(addr), 0);
      VisitsBound(addr, numpages);
      isFree := true;
      var i := addr;
      ghost var m: nat := 0;
      while i < End(addr, numpages)
        invariant m <= n && i == addr + m * PAGE_SIZE
        invariant isFree && Run(FrameOf(addr), m) <= free
        decreases n - m
      {
        AddressToFrame(addr, m);
        RunStep(FrameOf(addr), m);
        RunMember(FrameOf(addr), n, m);
        isFree := TestFrame(i);
        if !isFree {
          break;
        }
        m := m + 1;
        i := i + PAGE_SIZE;
      }
    }

    /** The test of one frame, in terms of the free frames. */
    method TestFrame(i: nat) returns (isFree: bool)
      requires Tied()
      ensures isFree == (FrameOf(i) in free)
    {
      hide FreeFrames, FrameOf;
      isFree := AddressFree(i);
    }

    /** The bitmap write of `bitmap_markused` for the frame at address `i`. */
    method ClearFrameBit(i: nat)
      requires Tied() && FrameOf(i) < Frames()
      modifies this`free, bitmap
      ensures Tied() && free == old(free) - {FrameOf(i)}
    {
      hide FreeFrames, Mask;
      AddressToFrame(i, 0);
      ghost var was := bitmap[..];
      ClearFrame(was, FrameOf(i));
      var at := i / (PAGE_SIZE * BMP_PAGES_PER_BYTE);
      bitmap[at] := bitmap[at] & !Mask((i / PAGE_SIZE) % BMP_PAGES_PER_BYTE);
      assert bitmap[..] == was[at := bitmap[at]];
      free := free - {FrameOf(i)};
    }

    /** The bitmap write of `pmm_free` for the frame at address `i`. */
    method RaiseFrameBit(i: nat)
      requires Tied() && FrameOf(i) < Frames()
      modifies this`free, bitmap
      ensures Tied() && free == old(free) + {FrameOf(i)}
    {
      hide FreeFrames, Mask;
      AddressToFrame(i, 0);
      ghost var was := bitmap[..];
      RaiseFrame(was, FrameOf(i));
      var at := i / (PAGE_SIZE * BMP_PAGES_PER_BYTE);
      bitmap[at] := bitmap[at] | Mask((i / PAGE_SIZE) % BMP_PAGES_PER_BYTE);
      assert bitmap[..] == was[at := bitmap[at]];
      free := free + {FrameOf(i)};
    }

    /** `bitmap_markused`. */
    method MarkUsed(addr: word, numpages: word)
      requires Tied() && InRange(addr, numpages)
      modifies this`free, bitmap
      ensures Tied() && free == Taken(old(free), FrameOf(addr), Visits(addr, numpages))
    {
      hide FreeFrames, Run, FrameOf, InRange, Tied, Visits;
      ghost var n := Visits(addr, numpages);
      RunStep(FrameOf(addr), 0);
      VisitsBound(addr, numpages);
      var i := addr;
      ghost var m: nat := 0;
      while i < End(addr, numpages)
        invariant m <= n && i == addr + m * PAGE_SIZE
        invariant Tied() && free == old(free) - Run(FrameOf(addr), m)
        decreases n - m
      {
        RunAddress(addr, numpages, m);
        RunStep(FrameOf(addr), m);
        ClearFrameBit(i);
        m := m + 1;
        i := i + PAGE_SIZE;
      }
    }

    /** The body of the loop in `pmm_free`: count the frame if it was in use, raise its bit. */
    method FreeFrame(i: word)
      requires Valid() && FrameOf(i) < Frames()
      modifies this`free, this`freeSize, bitmap
      ensures Valid() && free == old(free) + {FrameOf(i)}
    {
      hide FreeFrames, Run, Mask, Counted, Visits, FrameOf;
      OneVisit(i);
      CountUp(freeSize, free, FrameOf(i));
      var isFree := IsFree(i, 1);
      assert isFree == (FrameOf(i) in free);
      if !isFree {
        freeSize := freeSize + PAGE_SIZE;
      }
      RaiseFrameBit(i);
    }

    /** A single frame of the bitmap is visited. */
    lemma OneVisit(i: word)
      requires Tied() && FrameOf(i) < Frames()
      ensures Visits(i, 1) == 1 && Run(FrameOf(i), 1) == {FrameOf(i)}
    {
      VisitsAll(i, 1);
      OneFrame(FrameOf(i));
    }

    /** `pmm_free`: the run becomes free and only the frames that were in use are counted,
        so that freeing twice changes nothing the second time. */
    method PmmFree(addr: word, numpages: word)
      requires Valid() && InRange(addr, numpages)
      modifies this`free, this`freeSize, bitmap
      ensures Valid() && free == Freed(old(free), FrameOf(addr), Visits(addr, numpages))
    {
      hide FreeFrames, FrameOf, Run, InRange, Tied, Counted, Visits;
      ghost var n := Visits(addr, numpages);
      RunStep(FrameOf(addr), 0);
      VisitsBound(addr, numpages);
      var i := addr;
      ghost var m: nat := 0;
      while i < End(addr, numpages)
        invariant m <= n && i == addr + m * PAGE_SIZE
        invariant Valid() && free == old(free) + Run(FrameOf(addr), m)
        decreases n - m
      {
        RunAddress(addr, numpages, m);
        RunStep(FrameOf(addr), m);
        FreeFrame(i);
        m := m + 1;
        i := i + PAGE_SIZE;
      }
    }

    /** `pmm_alloc`: all of the visited run or none of it.  The free size stays exact unless the
        sum in the loop bound wraps around: then nothing is taken and yet the size goes down. */
    method PmmAlloc(addr: word, numpages: word) returns (ok: bool)
      requires Valid()
      modifies this`free, this`freeSize, bitmap
      ensures Tied() && (Valid() <==> !Wraps(addr, numpages))
      ensures ok == (Run(FrameOf(addr), Visits(addr, numpages)) <= old(free))
      ensures free == if ok then Taken(old(free), FrameOf(addr), Visits(addr, numpages)) else old(free)
      ensures freeSize == if ok then (old(freeSize) - Product(numpages)) % TWO64 else old(freeSize)
    {
      hide FreeFrames, Run, FrameOf, Visits, Wraps, Product;
      RunInBitmap(addr, numpages);
      CountAfter(freeSize, free, addr, numpages);
      ok := IsFree(addr, numpages);
      if !ok {
        return;
      }
      MarkUsed(addr, numpages);
      freeSize := (freeSize - Product(numpages)) % TWO64;
    }

    /** `pmm_get`: the least probed address that `pmm_alloc` accepts; `None` is the panic, when
        it accepts none. */
    method PmmGet(numpages: word, baseaddr: word) returns (r: Option<nat>)
      requires Valid()
      modifies this`free, this`freeSize, bitmap
      ensures Tied() && (Valid() <==> r.None? || !Wraps(r.value, numpages))
      ensures IsFirst(old(free), physLimit, numpages, baseaddr, r)
      ensures r.None? ==> free == old(free)
      ensures r.Some? ==> free == Taken(old(free), FrameOf(r.value), Visits(r.value, numpages))
    {
      hide FreeFrames, Counted, Run, FrameOf, Visits, Wraps, Product, Taken;
      var i := baseaddr;
      while i < physLimit
        invariant baseaddr <= i && (i - baseaddr) % PAGE_SIZE == 0
        invariant Valid() && free == old(free)
        invariant NoneBelow(free, physLimit, numpages, baseaddr, i)
      {
        var ok := PmmAlloc(i, numpages);
        if ok {
          return Some(i);
        }
        NextProbe(free, physLimit, numpages, baseaddr, i);
        i := i + PAGE_SIZE;
      }
      return None;
    }

    /** Free frames lie in the bitmap, and runs that wrap are taken for free. */
    lemma RunInBitmap(addr: word, numpages: word)
      requires Valid()
      ensures Run(FrameOf(addr), Visits(addr, numpages)) <= free ==> InRange(addr, numpages)
      ensures Wraps(addr, numpages) ==> Run(FrameOf(addr), Visits(addr, numpages)) <= free
      ensures freeSize < TWO64 && |free| <= Frames()
    {
      var n := Visits(addr, numpages);
      if n > 0 {
        RunMember(FrameOf(addr), n, n - 1);
      } else {
        RunStep(FrameOf(addr), 0);
      }
      FewFree(free, Frames());
    }
  }

  lemma FewFree(free: set<int>, frames: nat)
    requires forall f :: f in free ==> 0 <= f < frames
    ensures |free| <= frames
  {
    RunSize(0, frames);
    forall f | f in free ensures f in Run(0, frames) {
      RunMember(0, frames, f);
    }
    Subset(free, Run(0, frames));
  }

  lemma Subset(a: set<int>, b: set<int>)
    requires a <= b
    ensures |a| <= |b|
  {
    assert b == a + (b - a);
  }

  /** The free size after taking a run: exact unless the bound wraps around. */
  lemma CountAfter(size: nat, free: set<int>, addr: word, numpages: word)
    requires Counted(size, free) && size < TWO64
    ensures var n := Visits(addr, numpages);
            Run(FrameOf(addr), n) <= free ==>
              (Counted((size - Product(numpages)) % TWO64, Taken(free, FrameOf(addr), n)) <==> !Wraps(addr, numpages))
  {
    var n, p := Visits(addr, numpages), Product(numpages);
    if Run(FrameOf(addr), n) <= free {
      if Wraps(addr, numpages) {
        RunStep(FrameOf(addr), 0);
        assert Taken(free, FrameOf(addr), 0) == free;
        assert 0 < p < TWO64;
        SubtractChanges(size, p);
      } else {
        ProductAligned(numpages);
        CountDown(size, free, FrameOf(addr), n);
        assert p == n * PAGE_SIZE;
      }
    }
  }

  lemma SubtractChanges(size: word, p: nat)
    requires 0 < p < TWO64
    ensures (size - p) % TWO64 != size
  {
  }
}
