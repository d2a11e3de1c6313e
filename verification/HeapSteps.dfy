/** The page heap of kernel/lib/kmalloc.c on values: live blocks, headers and free frames, and
    the bytes that calls carry over or leave alone. */
module HeapSteps {
  import opened Common
  import Pmm

  /** What an allocation returns.  `Panic` is the panic of `pmm_get`; `Fault` stands for going on
      with memory that was not allocated. */
  datatype Result<+T> = Ok(value: T) | Panic | Fault

  /** `metadata_t`. */
  datatype Metadata = Metadata(numpages: nat, size: nat)

  /** A live block: the frame of its header, and what the header says. */
  datatype Block = Block(frame: nat, meta: Metadata)

  /** NUM_PAGES in 64-bit arithmetic. */
  function NumPages(size: nat): nat {
    ((size + PAGE_SIZE - 1) % TWO64) / PAGE_SIZE
  }

  /** The pages NUM_PAGES gives hold the bytes asked for, unless the rounding wraps around;
      then they hold none. */
  lemma NumPagesSuffice(size: nat)
    requires size < TWO64
    ensures size <= PAGE_SIZE * NumPages(size) <==> size + PAGE_SIZE - 1 < TWO64
    ensures size + PAGE_SIZE - 1 >= TWO64 ==> NumPages(size) == 0
  {
    if size + PAGE_SIZE - 1 >= TWO64 {
      assert (size + PAGE_SIZE - 1) % TWO64 == size + PAGE_SIZE - 1 - TWO64;
    }
  }

  /** `n` is the least number of pages that hold `size` bytes. */
  ghost predicate LeastPages(size: nat, n: nat) {
    size <= PAGE_SIZE * n && forall m: nat :: size <= PAGE_SIZE * m ==> n <= m
  }

  /** Unless the rounding wraps around, NUM_PAGES is the least number of pages. */
  lemma NumPagesLeast(size: nat)
    requires size < TWO64
    ensures size + PAGE_SIZE - 1 < TWO64 ==> LeastPages(size, NumPages(size))
    ensures size + PAGE_SIZE - 1 < TWO64 ==> PAGE_SIZE * NumPages(size) < size + PAGE_SIZE
    ensures size + PAGE_SIZE - 1 >= TWO64 ==> NumPages(size) == 0
  {
    NumPagesSuffice(size);
    if size + PAGE_SIZE - 1 < TWO64 {
      var n := (size + PAGE_SIZE - 1) / PAGE_SIZE;
      assert NumPages(size) == n;
      assert PAGE_SIZE * n <= size + PAGE_SIZE - 1;
      forall m: nat | size <= PAGE_SIZE * m ensures n <= m {
        NoLess(size, n, m);
      }
    }
  }

  lemma NoLess(size: nat, n: nat, m: nat)
    requires PAGE_SIZE * n <= size + PAGE_SIZE - 1 && size <= PAGE_SIZE * m
    ensures n <= m
  {
  }

  /** `kmalloc` of this size asks for so many frames that the loops of the allocator overrun. */
  predicate TooLarge(size: nat, limit: nat) {
    Pmm.Overruns(limit, NumPages(size) + 1, 0)
  }

  lemma NumPagesBound(size: nat)
    ensures NumPages(size) + 1 <= 0x10_0000_0000_0000
  {
  }

  /** Exactly when that is, in numbers: with no memory at all, never; otherwise when the frames of
      the block and those below the limit are more than 2^52 together. */
  lemma TooLargeExactly(size: nat, limit: nat)
    ensures TooLarge(size, limit) <==> limit > 0 && NumPages(size) + 1 + (limit - 1) / PAGE_SIZE >= 0x10_0000_0000_0000
  {
  }

  /** In particular the largest size whose rounding does not wrap is too large for any memory. */
  lemma TooLargeExample(limit: nat)
    requires 0 < limit <= Pmm.PHYS_MAX
    ensures TooLarge(TWO64 - PAGE_SIZE, limit) && NumPages(TWO64 - PAGE_SIZE) + 1 == 0x10_0000_0000_0000
    ensures Pmm.Visits(0, NumPages(TWO64 - PAGE_SIZE) + 1) == 0
  {
    assert NumPages(TWO64 - PAGE_SIZE) + 1 == 0x10_0000_0000_0000;
    TooLargeExactly(TWO64 - PAGE_SIZE, limit);
    Pmm.NothingVisited(0, 0x10_0000_0000_0000);
  }

  /** The frames of a block: its header and its pages. */
  function Extent(b: Block): set<int> {
    Pmm.Run(b.frame, b.meta.numpages + 1)
  }

  /** The address `kmalloc` returns for a block. */
  function Address(b: Block): nat {
    (b.frame + 1) * PAGE_SIZE
  }

  /** The frame of the header that belongs to a user address. */
  function HeaderSlot(addr: nat): nat
    requires PAGE_SIZE <= addr
  {
    (addr - PAGE_SIZE) / PAGE_SIZE
  }

  type Live = map<nat, Block>

  /** All frames of live blocks. */
  function Frames(live: Live): set<int> {
    set a, f | a in live && f in Extent(live[a]) :: f
  }

  /** Live blocks sit where their address says and no frame belongs to two of them. */
  ghost predicate Disjoint(live: Live) {
    && (forall a :: a in live ==> a == Address(live[a]))
    && (forall a, b :: a in live && b in live && a != b ==> Extent(live[a]) !! Extent(live[b]))
  }

  lemma AddBlock(live: Live, b: Block)
    requires Disjoint(live) && Extent(b) !! Frames(live)
    ensures Address(b) !in live && Disjoint(live[Address(b) := b])
    ensures forall c :: c in live ==> live[c].frame != b.frame
    ensures Frames(live[Address(b) := b]) == Frames(live) + Extent(b)
  {
    hide Extent, Frames;
    forall c | c in live ensures Extent(live[c]) !! Extent(b) && live[c].frame != b.frame {
      ExtentInFrames(live, c);
      HeaderInExtent(b);
      HeaderInExtent(live[c]);
    }
    FramesAdd(live, Address(b), b);
  }

  lemma ExtentInFrames(live: Live, a: nat)
    requires a in live
    ensures Extent(live[a]) <= Frames(live)
  {
  }

  lemma HeaderInExtent(b: Block)
    ensures b.frame in Extent(b)
  {
    Pmm.RunMember(b.frame, b.meta.numpages + 1, 0);
  }

  lemma FramesAdd(live: Live, a: nat, b: Block)
    requires a !in live
    ensures Frames(live[a := b]) == Frames(live) + Extent(b)
  {
    hide Extent;
    var after := live[a := b];
    assert forall c :: c in live ==> after[c] == live[c];
    forall f | f in Frames(live) ensures f in Frames(after) {
      var c :| c in live && f in Extent(live[c]);
      assert c in after && f in Extent(after[c]);
    }
    forall f | f in Extent(b) ensures f in Frames(after) {
      assert a in after && f in Extent(after[a]);
    }
  }

  lemma DropBlock(live: Live, a: nat)
    requires Disjoint(live) && a in live
    ensures Disjoint(live - {a}) && Extent(live[a]) !! Frames(live - {a})
    ensures Frames(live) == Frames(live - {a}) + Extent(live[a])
  {
    hide Extent;
    var rest := live - {a};
    assert forall c :: c in rest ==> rest[c] == live[c];
    assert rest[a := live[a]] == live;
    FramesAdd(rest, a, live[a]);
  }

  /** The state of the heap: live blocks are apart from each other and from the free frames,
      and every header is where its block says. */
  ghost predicate Sound(live: Live, headers: seq<Metadata>, free: set<int>) {
    && Disjoint(live) && Frames(live) !! free
    && forall a :: a in live ==>
         && live[a].frame + live[a].meta.numpages < |headers| && headers[live[a].frame] == live[a].meta
         && live[a].meta.numpages == NumPages(live[a].meta.size)
  }

  /** The frames that are free or in a block. */
  function Total(free: set<int>, live: Live): set<int> {
    free + Frames(live)
  }

  lemma PagesOfSize(live: Live, headers: seq<Metadata>, free: set<int>, a: nat)
    requires Sound(live, headers, free) && a in live
    ensures live[a].meta.numpages == NumPages(live[a].meta.size)
  {
  }

  /** Taking the frames of a new block out of the free frames. */
  lemma SoundTake(live: Live, headers: seq<Metadata>, free: set<int>, b: Block)
    requires Sound(live, headers, free) && Extent(b) <= free && b.frame + b.meta.numpages < |headers|
    requires b.meta.numpages == NumPages(b.meta.size)
    ensures Address(b) !in live
    ensures var rest := Pmm.Taken(free, b.frame, b.meta.numpages + 1);
            && Sound(live[Address(b) := b], headers[b.frame := b.meta], rest)
            && Total(rest, live[Address(b) := b]) == Total(free, live)
  {
    AddBlock(live, b);
    hide Disjoint, Frames, Address, Pmm.Run;
  }

  /** Giving the frames of a block back. */
  lemma SoundGive(live: Live, headers: seq<Metadata>, free: set<int>, a: nat)
    requires Sound(live, headers, free) && a in live
    ensures var more := Pmm.Freed(free, live[a].frame, live[a].meta.numpages + 1);
            && Sound(live - {a}, headers, more)
            && Total(more, live - {a}) == Total(free, live)
  {
    DropBlock(live, a);
    hide Disjoint, Frames, Address, Pmm.Run;
  }

  /** Changing the recorded size of a block moves nothing. */
  lemma SoundResize(live: Live, headers: seq<Metadata>, free: set<int>, a: nat, size: nat)
    requires Sound(live, headers, free) && a in live && NumPages(size) == live[a].meta.numpages
    ensures var b := Block(live[a].frame, Metadata(live[a].meta.numpages, size));
            && b.frame < |headers| && Sound(live[a := b], headers[b.frame := b.meta], free)
            && Frames(live[a := b]) == Frames(live)
  {
    hide Disjoint, Frames, NumPages, Pmm.Run;
    var b := Block(live[a].frame, Metadata(live[a].meta.numpages, size));
    SameFrames(live, a, b);
    OtherHeaders(live, a);
  }

  /** A block with the same frames in place of another. */
  lemma SameFrames(live: Live, a: nat, b: Block)
    requires Disjoint(live) && a in live && b.frame == live[a].frame && b.meta.numpages == live[a].meta.numpages
    ensures Disjoint(live[a := b]) && Frames(live[a := b]) == Frames(live)
  {
    hide Disjoint, Frames, Pmm.Run;
    AddressAt(live, a);
    DropBlock(live, a);
    AddBlock(live - {a}, b);
    assert (live - {a})[a := b] == live[a := b];
  }

  lemma AddressAt(live: Live, a: nat)
    requires Disjoint(live) && a in live
    ensures a == Address(live[a])
  {
  }

  /** No other block has its header there. */
  lemma OtherHeaders(live: Live, a: nat)
    requires Disjoint(live) && a in live
    ensures forall c :: c in live && c != a ==> live[c].frame != live[a].frame
  {
    hide Extent;
    forall c | c in live && c != a ensures live[c].frame != live[a].frame {
      HeaderInExtent(live[c]);
      HeaderInExtent(live[a]);
    }
  }

  /** A block of `numpages` pages accounts for `numpages + 1` frames. */
  lemma BlockFrames(live: Live, a: nat)
    requires Disjoint(live) && a in live
    ensures |Frames(live)| == |Frames(live - {a})| + live[a].meta.numpages + 1
  {
    DropBlock(live, a);
    Pmm.RunSize(live[a].frame, live[a].meta.numpages + 1);
  }

  /** The header of a block is not the last page of another, or behind it. */
  lemma BlocksApart(live: Live, headers: seq<Metadata>, free: set<int>, a: nat, b: nat)
    requires Sound(live, headers, free) && a in live && b in live && a != b
    ensures a == (live[a].frame + 1) * PAGE_SIZE && b == (live[b].frame + 1) * PAGE_SIZE
    ensures a <= b || b + live[b].meta.numpages * PAGE_SIZE <= a - PAGE_SIZE
  {
    hide NumPages, Frames, Pmm.Run;
    var x, y := live[a], live[b];
    assert a == Address(x) && b == Address(y);
    HeaderInExtent(x);
    if y.frame < x.frame <= y.frame + y.meta.numpages {
      Pmm.RunMember(y.frame, y.meta.numpages + 1, x.frame - y.frame);
    }
  }

  /** A run of free frames that was found lies in the bitmap. */
  lemma FitInFrames(free: set<int>, limit: nat, count: nat, addr: nat, frames: nat)
    requires count > 0 && Pmm.Fits(free, limit, count, 0, addr) && forall f :: f in free ==> f < frames
    ensures Pmm.FrameOf(addr) + count <= frames && Pmm.Run(Pmm.FrameOf(addr), count) <= free
  {
    Pmm.RunMember(Pmm.FrameOf(addr), count, count - 1);
  }

  /** The copy of the smaller size runs past the pages of the old or of the new block. */
  predicate CopyOverruns(m: Metadata, newsize: nat) {
    var n := Min(m.size, newsize);
    n > m.numpages * PAGE_SIZE || n > NumPages(newsize) * PAGE_SIZE
  }

  /** When `kmrealloc` goes on with memory outside of its blocks: it needs a new block, and that
      is too large, or the copy into it overruns. */
  predicate Faulty(live: Live, addr: nat, newsize: nat, limit: nat, panic: bool) {
    if addr !in live then TooLarge(newsize, limit)
    else
      && NumPages(live[addr].meta.size) != NumPages(newsize)
      && (TooLarge(newsize, limit) || (CopyOverruns(live[addr].meta, newsize) && !panic))
  }

  /** `size` bytes at `at` were handed out: with the header they took the least number of frames, all
      of them free before and none after. */
  ghost predicate TakesLeast(size: nat, at: nat, before: set<int>, after: set<int>) {
    && (forall x: nat :: at <= x < at + size ==> Pmm.FrameOf(x) in before && Pmm.FrameOf(x) !in after)
    && exists n: nat :: LeastPages(size, n) && |before| == |after| + n + 1
  }

  lemma BlockTakesLeast(size: word, b: Block, before: set<int>)
    requires b.meta.numpages == NumPages(size) && Extent(b) <= before && size + PAGE_SIZE - 1 < TWO64
    ensures LeastPages(size, b.meta.numpages) && TakesLeast(size, Address(b), before, before - Extent(b))
  {
    hide NumPages, LeastPages, Pmm.Run, Pmm.FrameOf, Pmm.InRun;
    NumPagesLeast(size);
    NumPagesSuffice(size);
    var n := b.meta.numpages;
    Pmm.RunSize(b.frame, n + 1);
    assert before == (before - Extent(b)) + Extent(b);
    forall x: nat | Address(b) <= x < Address(b) + size ensures Pmm.FrameOf(x) in Extent(b) {
      ByteInRun(b.frame, n, x);
    }
  }

  lemma ByteInRun(frame: nat, n: nat, x: nat)
    requires (frame + 1) * PAGE_SIZE <= x < (frame + 1) * PAGE_SIZE + PAGE_SIZE * n
    ensures Pmm.FrameOf(x) in Pmm.Run(frame, n + 1)
  {
    var m := Pmm.FrameOf(x) - frame;
    assert frame + 1 <= Pmm.FrameOf(x) < frame + 1 + n;
    Pmm.RunMember(frame, n + 1, m);
  }

  /** What `Panic` says for a size whose rounding does not wrap around: no run of the least length
      is free. */
  lemma NoLeastRun(size: word, free: set<int>, limit: nat)
    requires size + PAGE_SIZE - 1 < TWO64 && Pmm.NoRun(free, limit, NumPages(size) + 1)
    ensures forall n: nat :: LeastPages(size, n) ==> Pmm.NoRun(free, limit, n + 1)
  {
    hide NumPages, Pmm.NoRun;
    NumPagesLeast(size);
    forall n: nat | LeastPages(size, n) ensures n == NumPages(size) {
      assert n <= NumPages(size) && NumPages(size) <= n;
    }
  }

  /** Every byte below both sizes, as far as the pages of the old block go, is where it belongs. */
  ghost predicate BothSizes(before: seq<bv8>, after: seq<bv8>, from: nat, to: nat, m: Metadata, newsize: nat) {
    forall p: nat :: from <= p && p - from < m.size && p - from < newsize && p - from < m.numpages * PAGE_SIZE ==>
      p < |before| && to + (p - from) < |after| && after[to + (p - from)] == before[p]
  }

  lemma SharedBytes(before: seq<bv8>, after: seq<bv8>, from: nat, to: nat, m: Metadata, newsize: nat)
    requires Carried(before, after, from, to, Shared(m, newsize))
    ensures BothSizes(before, after, from, to, m, newsize)
  {
    var n := Shared(m, newsize);
    forall p: nat | from <= p && p - from < m.size && p - from < newsize && p - from < m.numpages * PAGE_SIZE
      ensures p < |before| && to + (p - from) < |after| && after[to + (p - from)] == before[p]
    {
      assert p - from < n && after[to..to + n][p - from] == before[from..from + n][p - from];
    }
  }

  /** The bytes both blocks have: the smaller size, as far as the pages of the old block go. */
  function Shared(m: Metadata, newsize: nat): nat {
    Min(Min(m.size, newsize), m.numpages * PAGE_SIZE)
  }

  lemma SharedIsMin(m: Metadata, newsize: nat)
    requires !CopyOverruns(m, newsize)
    ensures Shared(m, newsize) == Min(m.size, newsize)
  {
  }

  /** The copy overruns exactly when one of the sizes had a rounding that wrapped around and
      there is something to copy. */
  lemma CopyOverrunsExactly(m: Metadata, newsize: word)
    requires m.numpages == NumPages(m.size) && m.size < TWO64
    ensures CopyOverruns(m, newsize) <==>
            Min(m.size, newsize) > 0 && (m.size + PAGE_SIZE - 1 >= TWO64 || newsize + PAGE_SIZE - 1 >= TWO64)
  {
    NumPagesSuffice(m.size);
    NumPagesSuffice(newsize);
  }

  /** The block is where the old one was, with its frames, or it is on free frames. */
  ghost predicate Placed(live: Live, free: set<int>, from: nat, to: nat, b: Block) {
    if to == from && from in live then Extent(b) == Extent(live[from])
    else to !in live && Extent(b) <= free
  }

  function Min(x: nat, y: nat): (r: nat)
    ensures r <= x && r <= y && (r == x || r == y)
  {
    if x < y then x else y
  }

  /** The live blocks after the block at `from` has become the block `b` at `to`. */
  function Moved(live: Live, from: nat, to: nat, b: Block): Live {
    (live - {from})[to := b]
  }

  lemma MovedBlock(live: Live, from: nat, to: nat, b: Block, before: seq<bv8>, after: seq<bv8>)
    requires to !in live && from in live
    ensures live[to := b] - {from} == Moved(live, from, to, b)
    ensures SameBlocks(live[to := b], before, after, {to}) ==> SameBlocks(live, before, after, {})
  {
    assert from != to;
    if SameBlocks(live[to := b], before, after, {to}) {
      forall c | c in live
        ensures var n := live[c].meta.numpages * PAGE_SIZE;
                c + n <= |before| == |after| && after[c..c + n] == before[c..c + n]
      {
        assert c in live[to := b] && c !in {to} && live[to := b][c] == live[c];
      }
    }
  }

  lemma MovedInPlace(live: Live, at: nat, b: Block)
    ensures live[at := b] == Moved(live, at, at, b)
  {
  }

  lemma MovedFromNull(live: Live, to: nat, b: Block)
    requires 0 !in live
    ensures live[to := b] == Moved(live, 0, to, b)
  {
    assert live - {0} == live;
  }

  lemma SameBlocksWiden(live: Live, before: seq<bv8>, after: seq<bv8>, a: nat)
    requires SameBlocks(live, before, after, {})
    ensures SameBlocks(live, before, after, {a})
  {
  }

  lemma SameBlocksLess(live: Live, bytes: seq<bv8>, a: nat)
    requires SameBlocks(live, bytes, bytes, {})
    ensures SameBlocks(live, bytes, bytes, {a})
  {
    SameBlocksWiden(live, bytes, bytes, a);
  }

  /** The first `n` bytes that were at `from` are now at `to`. */
  ghost predicate Carried(before: seq<bv8>, after: seq<bv8>, from: nat, to: nat, n: nat) {
    from + n <= |before| && to + n <= |after| && after[to..to + n] == before[from..from + n]
  }

  /** The pages of all blocks but the excepted ones have the same bytes. */
  ghost predicate SameBlocks(live: Live, before: seq<bv8>, after: seq<bv8>, except: set<nat>) {
    |before| == |after| && forall c :: c in live && c !in except ==>
      var n := live[c].meta.numpages * PAGE_SIZE;
      c + n <= |before| && after[c..c + n] == before[c..c + n]
  }

  lemma SliceOutside(before: seq<bv8>, after: seq<bv8>, at: nat, len: nat, from: nat, n: nat)
    requires |before| == |after| && at + len <= |before| && from + n <= |before|
    requires after[..at] == before[..at] && after[at + len..] == before[at + len..]
    requires from + n <= at || at + len <= from
    ensures after[from..from + n] == before[from..from + n]
  {
    forall i | from <= i < from + n ensures after[i] == before[i] {
      if i < at {
        assert after[i] == after[..at][i] && before[i] == before[..at][i];
      } else {
        assert after[i] == after[at + len..][i - (at + len)] && before[i] == before[at + len..][i - (at + len)];
      }
    }
  }

  /** The copy has done `i` bytes. */
  ghost predicate Copied(was: seq<bv8>, now: seq<bv8>, dst: nat, src: nat, i: nat) {
    && |now| == |was| && dst + i <= |was| && src + i <= |was| && now[dst..dst + i] == was[src..src + i]
    && now[..dst] == was[..dst] && now[dst + i..] == was[dst + i..]
  }

  /** The next byte is still the old one, and copying it is one byte more. */
  lemma CopyStep(was: seq<bv8>, now: seq<bv8>, dst: nat, src: nat, i: nat, len: nat)
    requires Copied(was, now, dst, src, i) && i < len && dst + len <= |was| && src + len <= |was|
    requires dst <= src || src + len <= dst
    ensures now[src + i] == was[src + i] && Copied(was, now[dst + i := now[src + i]], dst, src, i + 1)
  {
    if dst <= src {
      assert now[src + i] == now[dst + i..][src - dst] && was[src + i] == was[dst + i..][src - dst];
    } else {
      assert now[src + i] == now[..dst][src + i] && was[src + i] == was[..dst][src + i];
    }
    var next := now[dst + i := now[src + i]];
    assert next[dst..dst + i + 1] == next[dst..dst + i] + [next[dst + i]];
    assert was[src..src + i + 1] == was[src..src + i] + [was[src + i]];
    assert next[dst..dst + i] == now[dst..dst + i];
    assert next[dst + i + 1..] == now[dst + i..][1..] && was[dst + i + 1..] == was[dst + i..][1..];
  }

  lemma CopyStart(was: seq<bv8>, dst: nat, src: nat)
    requires dst <= |was| && src <= |was|
    ensures Copied(was, was, dst, src, 0)
  {
  }

  lemma CopyEnd(was: seq<bv8>, now: seq<bv8>, dst: nat, src: nat, len: nat)
    requires Copied(was, now, dst, src, len)
    ensures |now| == |was| && dst + len <= |was| && src + len <= |was|
    ensures now[dst..dst + len] == was[src..src + len]
    ensures now[..dst] == was[..dst] && now[dst + len..] == was[dst + len..]
  {
  }

  /** A copy into the pages of one block changes no other block. */
  lemma CopySame(live: Live, before: seq<bv8>, after: seq<bv8>, dst: nat, len: nat)
    requires |before| == |after| && dst + len <= |before|
    requires after[..dst] == before[..dst] && after[dst + len..] == before[dst + len..]
    requires forall c :: c in live && c != dst ==>
               var n := live[c].meta.numpages * PAGE_SIZE; c + n <= |before| && (c + n <= dst || dst + len <= c)
    ensures SameBlocks(live, before, after, {dst})
  {
    forall c | c in live && c != dst
      ensures var n := live[c].meta.numpages * PAGE_SIZE; c + n <= |before| && after[c..c + n] == before[c..c + n]
    {
      SliceOutside(before, after, dst, len, c, live[c].meta.numpages * PAGE_SIZE);
    }
  }
}
