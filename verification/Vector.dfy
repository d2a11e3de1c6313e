/** The growing array of kernel/lib/vector.h, byte for byte on the page heap, for elements of
    the size of a pointer. */
module Vector {
  import opened Common
  import opened Heap
  import opened HeapSteps
  import HeapRuns
  import Pmm

  type Bytes = seq<bv8>

  /** sizeof of an element, and VECTOR_RESIZE_FACTOR. */
  const WORD: nat := 8
  const RESIZE_FACTOR: nat := 4

  /** The fields of a vector fit the heap: no block yet, or a live block of `capacity` bytes.
      Every capacity is 32 more than a multiple of 128. */
  ghost predicate Fitted(len: nat, capacity: nat, data: nat, live: Live) {
    if capacity == 0 then len == 0 && data == 0
    else
      && data in live && live[data].meta == Metadata(NumPages(capacity), capacity)
      && WORD * len <= capacity && capacity % 128 == 32 && capacity + PAGE_SIZE - 1 < TWO64
  }

  /** The bytes of memory in a range. */
  function Slice(memory: Bytes, at: nat, n: nat): Bytes {
    if at + n <= |memory| then memory[at..at + n] else []
  }

  /** A vector grows only when it is full, and the new capacity keeps the pattern. */
  lemma CapacityPattern(len: nat, capacity: nat)
    requires (capacity == 0 && len == 0) || (capacity % 128 == 32 && WORD * len <= capacity)
    requires capacity < WORD * (len + 1)
    ensures capacity == WORD * len && (len + 1) * WORD * RESIZE_FACTOR % 128 == 32
  {
    if capacity > 0 {
      var k := capacity / 128;
      assert capacity == 128 * k + 32;
      assert len == 16 * k + 4;
      assert (len + 1) * WORD * RESIZE_FACTOR == 128 * (4 * k + 1) + 32;
    }
  }

  /** So the pages of a vector hold at least 96 bytes more than its capacity. */
  lemma PagesHold(capacity: nat)
    requires capacity % 128 == 32 && capacity + PAGE_SIZE - 1 < TWO64
    ensures capacity + 96 <= PAGE_SIZE * NumPages(capacity)
  {
    var q, r := capacity / PAGE_SIZE, capacity % PAGE_SIZE;
    assert capacity == PAGE_SIZE * q + r && r % 128 == 32;
    assert r <= 4000;
    assert (capacity + PAGE_SIZE - 1) / PAGE_SIZE == q + 1;
  }

  lemma FittedLess(len: nat, capacity: nat, data: nat, live: Live)
    requires Fitted(len + 1, capacity, data, live)
    ensures Fitted(len, capacity, data, live)
  {
  }

  /** A full vector may be handed to kmrealloc. */
  lemma GrowOk(len: nat, capacity: nat, data: nat, live: Live)
    requires Fitted(len, capacity, data, live) && 0 !in live && capacity < WORD * (len + 1)
    ensures capacity == WORD * len && (len + 1) * WORD * RESIZE_FACTOR % 128 == 32
    ensures data in live <==> capacity > 0
    ensures if data in live then live[data].meta == Metadata(NumPages(capacity), capacity) else data == 0
    ensures capacity > 0 ==> capacity + 96 <= PAGE_SIZE * NumPages(capacity)
  {
    CapacityPattern(len, capacity);
    if capacity > 0 {
      PagesHold(capacity);
    }
  }

  /** With all of memory below 2^52, growing never asks kmrealloc for what it cannot give, and
      the copy takes over all the bytes of the old block. */
  lemma GrowNotFaulty(live: Live, data: nat, capacity: nat, limit: nat, panic: bool)
    requires limit <= Pmm.PHYS_MAX && capacity <= limit
    requires data in live ==> live[data].meta == Metadata(NumPages(capacity), capacity)
                              && capacity <= PAGE_SIZE * NumPages(capacity)
    ensures var size := RESIZE_FACTOR * capacity + RESIZE_FACTOR * WORD;
            && size + PAGE_SIZE - 1 < TWO64 && !Faulty(live, data, size, limit, panic)
            && (data in live ==> Shared(live[data].meta, size) == capacity)
  {
    var size := RESIZE_FACTOR * capacity + RESIZE_FACTOR * WORD;
    NumPagesSuffice(size);
    TooLargeExactly(size, limit);
    assert NumPages(size) <= 0x400_0000_0010;
  }

  /** The other blocks of the heap stayed, and none of them is the vector's. */
  ghost predicate Others(before: Live, after: Live, was: nat, now: nat) {
    forall c :: c in before && c != was ==> c in after && after[c] == before[c] && c != now
  }

  lemma PlacedApart(live: Live, free: set<int>, from: nat, to: nat, b: Block)
    requires Placed(live, free, from, to, b)
    ensures to == from || to !in live
  {
  }

  lemma OthersMoved(live: Live, from: nat, to: nat, b: Block)
    requires to == from || to !in live
    ensures Others(live, Moved(live, from, to, b), from, to)
    ensures Others(live, live, from, from)
  {
  }

  /** Changes to the vector's block that leave the other blocks alone add up. */
  lemma SameOthers(live0: Live, live: Live, was: nat, now: nat, mem0: Bytes, mem1: Bytes, mem2: Bytes)
    requires Others(live0, live, was, now)
    requires SameBlocks(live0, mem0, mem1, {was}) && SameBlocks(live, mem1, mem2, {now})
    ensures SameBlocks(live0, mem0, mem2, {was})
  {
  }

  lemma CarriedSlice(before: Bytes, after: Bytes, from: nat, to: nat, m: nat, n: nat)
    requires n == 0 || (Carried(before, after, from, to, m) && n <= m)
    ensures Slice(after, to, n) == Slice(before, from, n)
  {
    if n > 0 {
      assert after[to..to + n] == after[to..to + m][..n] && before[from..from + n] == before[from..from + m][..n];
    }
  }

  // ----- elements -----

  /** The elements that the bytes hold. */
  function Elements(b: Bytes): seq<Bytes> {
    seq(|b| / WORD, i requires 0 <= i < |b| / WORD => b[WORD * i..WORD * i + WORD])
  }

  /** All but the first. */
  function Rest<T>(s: seq<T>): seq<T> {
    if s == [] then [] else s[1..]
  }

  /** Appending the bytes of an element appends the element. */
  lemma ElementsPush(b: Bytes, e: Bytes)
    requires |b| % WORD == 0 && |e| == WORD
    ensures Elements(b + e) == Elements(b) + [e]
  {
    var n := |b| / WORD;
    assert |Elements(b + e)| == n + 1;
    forall i | 0 <= i <= n ensures Elements(b + e)[i] == (Elements(b) + [e])[i] {
      assert (b + e)[WORD * i..WORD * i + WORD] == if i < n then b[WORD * i..WORD * i + WORD] else e;
    }
  }

  /** Dropping the first eight bytes drops the first element. */
  lemma ElementsTail(b: Bytes)
    requires |b| % WORD == 0 && |b| > 0
    ensures Elements(b[WORD..]) == Rest(Elements(b))
  {
    var n := |b| / WORD;
    assert |Elements(b[WORD..])| == n - 1;
    forall i | 0 <= i < n - 1 ensures Elements(b[WORD..])[i] == Rest(Elements(b))[i] {
      assert b[WORD..][WORD * i..WORD * i + WORD] == b[WORD * (i + 1)..WORD * (i + 1) + WORD];
    }
  }

  class Vec {
    const heap: KHeap
    var len: nat
    /** In bytes. */
    var capacity: nat
    /** The address of the block. */
    var data: nat

    ghost predicate Valid()
      reads this, heap`live, heap.headers, heap.pmm, heap.pmm.bitmap
    {
      heap.Valid() && Fitted(len, capacity, data, heap.live)
    }

    /** The bytes of the elements, in order. */
    ghost function Stored(): Bytes
      reads this, heap.data
    {
      Slice(heap.data[..], data, WORD * len)
    }

    /** `vec_new`. */
    constructor (kheap: KHeap)
      requires kheap.Valid()
      ensures Valid() && heap == kheap && len == 0 && Elements(Stored()) == []
    {
      heap := kheap;
      len, capacity, data := 0, 0, 0;
    }

    /** A vector is no larger than physical memory. */
    lemma CapacityBound()
      requires capacity > 0 ==> data in heap.live && heap.live[data].meta.numpages == NumPages(capacity)
      requires capacity > 0 ==> capacity <= PAGE_SIZE * NumPages(capacity)
      requires heap.Valid()
      ensures heap.pmm.physLimit <= Pmm.PHYS_MAX && capacity <= heap.pmm.physLimit
    {
      if capacity > 0 {
        heap.BlockInMemory(data);
      }
    }

    /** The part of `vec_push_back` that makes room; not `ok` is the panic of `pmm_get`. */
    method Reserve() returns (ok: bool)
      requires heap.Valid() && len > 0 && Fitted(len - 1, capacity, data, heap.live)
      modifies this`capacity, this`data
      modifies heap`live, heap.headers, heap.data, heap.pmm`free, heap.pmm`freeSize, heap.pmm.bitmap
      ensures heap.Valid() && heap.AllFrames() == old(heap.AllFrames())
      ensures !ok ==> heap.live == old(heap.live) && heap.data[..] == old(heap.data[..])
      ensures ok ==> Fitted(len, capacity, data, heap.live)
      ensures ok ==> Slice(heap.data[..], data, WORD * (len - 1))
                     == Slice(old(heap.data[..]), old(data), WORD * (len - 1))
      ensures ok ==> SameBlocks(old(heap.live), old(heap.data[..]), heap.data[..], {old(data)})
      ensures ok ==> Others(old(heap.live), heap.live, old(data), data)
    {
      hide NumPages, SameBlocks, Carried, Moved, Others, Sound, Total, Slice, Shared, Faulty, Placed, Extent;
      hide HeapRuns.Step, HeapRuns.ReallocOp, KHeap.Valid;
      heap.AllInMemory();
      SameBlocksLess(heap.live, heap.data[..], data);
      OthersMoved(heap.live, data, data, Block(0, Metadata(0, 0)));
      if capacity < len * WORD {
        GrowOk(len - 1, capacity, data, heap.live);
        CapacityBound();
        GrowNotFaulty(heap.live, data, capacity, heap.pmm.physLimit, true);
        GrowNotFaulty(heap.live, data, capacity, heap.pmm.physLimit, false);
        ghost var mem := heap.data[..];
        var size := len * WORD * RESIZE_FACTOR;
        var r := heap.KmRealloc(data, size);
        if r.Panic? {
          return false;
        }
        PlacedApart(old(heap.live), old(heap.pmm.free), data, r.value, heap.live[r.value]);
        OthersMoved(old(heap.live), data, r.value, heap.live[r.value]);
        CarriedSlice(mem, heap.data[..], data, r.value, capacity, WORD * (len - 1));
        capacity := size;
        data := r.value;
      }
      ok := true;
    }

    /** `vec_push_back`: the element is appended, and no other block of the heap changes. */
    method PushBack(elem: Bytes) returns (ok: bool)
      requires Valid() && |elem| == WORD
      modifies this
      modifies heap`live, heap.headers, heap.data, heap.pmm`free, heap.pmm`freeSize, heap.pmm.bitmap
      ensures heap.Valid() && heap.AllFrames() == old(heap.AllFrames())
      ensures ok ==> Valid() && len == old(len) + 1
      ensures ok ==> Elements(Stored()) == Elements(old(Stored())) + [elem]
      ensures ok ==> SameBlocks(old(heap.live), old(heap.data[..]), heap.data[..], {old(data)})
    {
      hide NumPages, SameBlocks, Fitted, Sound, Total, Elements;
      ghost var was := Stored();
      StoredSize();
      len := len + 1;
      ok := Reserve();
      if !ok {
        return;
      }
      ghost var mem := heap.data[..];
      WriteElement(elem);
      SameOthers(old(heap.live), heap.live, old(data), data, old(heap.data[..]), mem, heap.data[..]);
      ElementsPush(was, elem);
    }

    lemma StoredSize()
      requires Valid()
      ensures |Stored()| == WORD * len && data + WORD * len <= |heap.data[..]|
    {
      if capacity > 0 {
        PagesHold(capacity);
        heap.BlockInMemory(data);
      }
    }

    /** The store of the element at the end. */
    method WriteElement(elem: Bytes)
      requires Valid() && len > 0 && |elem| == WORD
      modifies heap.data
      ensures Valid() && Stored() == Slice(old(heap.data[..]), data, WORD * (len - 1)) + elem
      ensures SameBlocks(heap.live, old(heap.data[..]), heap.data[..], {data})
    {
      hide NumPages, SameBlocks, Sound;
      PagesHold(capacity);
      Inside(WORD * len);
      ghost var mem := heap.data[..];
      StoreWord(data + WORD * (len - 1), elem);
      SameOutside(heap.live, mem, heap.data[..], data, data + WORD * (len - 1), WORD, WORD * len);
      Appended(mem, heap.data[..], data, WORD * (len - 1), elem);
    }

    method StoreWord(at: nat, elem: Bytes)
      requires |elem| == WORD && at + WORD <= heap.data.Length
      modifies heap.data
      ensures heap.data[..at] == old(heap.data[..at]) && heap.data[at..at + WORD] == elem
      ensures heap.data[at + WORD..] == old(heap.data[at + WORD..])
    {
      forall i | 0 <= i < WORD {
        heap.data[at + i] := elem[i];
      }
    }

    /** `vec_erase` at index 0: the first element goes and the others move up.  The copy takes
        `8 * len - 1` bytes from the second element on, seven more than there are; they lie
        inside the pages of the block. */
    method EraseFirst()
      requires Valid() && len > 0
      modifies this`len, heap.data
      ensures Valid() && len == old(len) - 1
      ensures Elements(Stored()) == Rest(Elements(old(Stored())))
      ensures SameBlocks(heap.live, old(heap.data[..]), heap.data[..], {data})
    {
      hide NumPages, SameBlocks, KHeap.Valid, Elements, Fitted, Slice;
      ghost var was, mem := Stored(), heap.data[..];
      StoredSize();
      ShiftDown(WORD * len - 0 - 1);
      len := len - 1;
      FittedLess(len, capacity, data, heap.live);
      MovedUp(mem, heap.data[..], data, WORD * len + WORD - 1, WORD * len);
      ElementsTail(was);
    }

    /** The `memcpy` of `vec_erase`. */
    method ShiftDown(n: nat)
      requires Valid() && len > 0 && n < WORD * len
      modifies heap.data
      ensures Valid() && data + WORD + n <= heap.data.Length
      ensures heap.data[data..data + n] == old(heap.data[data + WORD..data + WORD + n])
      ensures SameBlocks(heap.live, old(heap.data[..]), heap.data[..], {data})
    {
      hide NumPages, SameBlocks, Sound;
      ghost var mem := heap.data[..];
      PagesHold(capacity);
      Inside(capacity + 96);
      heap.MemCpy(data, data + WORD, n);
      SameOutside(heap.live, mem, heap.data[..], data, data, n, capacity + 96);
    }

    /** The first `n` bytes of the block, as far as its pages go, belong to no other block. */
    lemma Inside(n: nat)
      requires Valid() && capacity > 0 && n <= PAGE_SIZE * NumPages(capacity)
      ensures data + n <= heap.data.Length
      ensures forall c :: c in heap.live && c != data ==>
                var m := heap.live[c].meta.numpages * PAGE_SIZE;
                c + m <= heap.data.Length && (c + m <= data || data + n <= c)
    {
      heap.BlockInMemory(data);
      forall c | c in heap.live && c != data
        ensures var m := heap.live[c].meta.numpages * PAGE_SIZE;
                c + m <= heap.data.Length && (c + m <= data || data + n <= c)
      {
        heap.BlockInMemory(c);
        heap.BytesApart(c, data);
      }
    }
  }

  /** A change inside the first `n` bytes of a block leaves the other blocks alone. */
  lemma SameOutside(live: Live, before: Bytes, after: Bytes, data: nat, at: nat, len: nat, n: nat)
    requires |before| == |after| && data <= at && at + len <= data + n && at + len <= |before|
    requires after[..at] == before[..at] && after[at + len..] == before[at + len..]
    requires forall c :: c in live && c != data ==>
               var m := live[c].meta.numpages * PAGE_SIZE; c + m <= |before| && (c + m <= data || data + n <= c)
    ensures SameBlocks(live, before, after, {data})
  {
    forall c | c in live && c != data
      ensures var m := live[c].meta.numpages * PAGE_SIZE; c + m <= |before| && after[c..c + m] == before[c..c + m]
    {
      SliceOutside(before, after, at, len, c, live[c].meta.numpages * PAGE_SIZE);
    }
  }

  lemma MovedUp(before: Bytes, after: Bytes, at: nat, n: nat, m: nat)
    requires |before| == |after| && m <= n && at + WORD + n <= |before|
    requires after[at..at + n] == before[at + WORD..at + WORD + n]
    ensures Slice(after, at, m) == Slice(before, at, m + WORD)[WORD..]
  {
    assert after[at..at + m] == after[at..at + n][..m];
    assert before[at..at + m + WORD][WORD..] == before[at + WORD..at + WORD + n][..m];
  }

  lemma Appended(before: Bytes, after: Bytes, data: nat, n: nat, elem: Bytes)
    requires |before| == |after| && data + n + |elem| <= |before|
    requires after[..data + n] == before[..data + n] && after[data + n..data + n + |elem|] == elem
    ensures Slice(after, data, n + |elem|) == Slice(before, data, n) + elem
  {
    assert after[data..data + n] == after[..data + n][data..] && before[data..data + n] == before[..data + n][data..];
    assert after[data..data + n + |elem|] == after[data..data + n] + after[data + n..data + n + |elem|];
  }
}
