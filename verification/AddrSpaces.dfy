/** `map_page`, `unmap_page`, `vmm_map` and `vmm_unmap` of kernel/core/mm.c, updating table
    memory in place and taking table frames from the frame allocator. */
module AddrSpaces {
  import opened Common
  import opened PageMap
  import opened PageSteps
  import Pmm

  class AddrSpace {
    const pmm: Pmm.PhysMem
    /** Physical memory, one element a frame; only table frames are ever touched here. */
    const mem: array<seq<nat>>
    const pml4: nat
    ghost var dir: map<Path, nat>

    ghost function View(): Space
      reads this`dir, mem
    {
      Space(mem[..], dir)
    }

    ghost predicate Valid()
      reads this`dir, mem, pmm, pmm.bitmap
    {
      && pmm.Valid()
      && mem.Length == pmm.Frames()
      && Wf(View()) && dir[Root] == pml4
      && Owned(dir) !! pmm.free
    }

    /** The frames that are free or hold a table. */
    ghost function AllFrames(): set<int>
      reads this`dir, pmm`free
    {
      pmm.free + Owned(dir)
    }

    ghost predicate SameLookups(before: Space)
      reads this`dir, mem
    {
      forall q | IsPage(q) :: Lookup(View(), q) == Lookup(before, q)
    }

    /** The start of `vmm_init`: a zeroed PML4 in a frame that was allocated for it. */
    constructor (allocator: Pmm.PhysMem, memory: array<seq<nat>>, frame: nat)
      requires allocator.Valid() && memory.Length == allocator.Frames()
      requires frame < memory.Length && frame !in allocator.free
      modifies memory
      ensures pmm == allocator && mem == memory && pml4 == frame
      ensures Valid() && AllFrames() == pmm.free + {frame} && dir == map[Root := frame]
      ensures NoEmpty(View(), {}) && forall q | IsPage(q) :: Lookup(View(), q) == 0
    {
      pmm, mem, pml4 := allocator, memory, frame;
      dir := map[Root := frame];
      new;
      mem[frame] := ZeroTable();
      assert Owned(dir) == {frame} by {
        assert Root in dir;
      }
    }

    /** Entry `i` of the table at `p` is present exactly when the directory has the child, and
        both masks then give the child's frame. */
    lemma ReadSlot(p: Path, i: nat)
      requires Valid() && p in dir && Depth(p) < 3 && i < ENTRIES
      ensures IsTable(mem[..], dir[p])
      ensures mem[dir[p]][i] == Slot(dir, Sub(p, i))
      ensures Present(mem[dir[p]][i]) <==> Sub(p, i) in dir
      ensures Sub(p, i) in dir ==>
                PageBase(mem[dir[p]][i]) / PAGE_SIZE == NarrowBase(mem[dir[p]][i]) / PAGE_SIZE == dir[Sub(p, i)]
    {
      assert mem[..][dir[p]][i] == Slot(dir, Sub(p, i));
      if Sub(p, i) in dir {
        EntryBases(dir[Sub(p, i)]);
      }
    }

    /** Zero the frame `child` and link it under entry `i` of the table at `p`. */
    method LinkTable(ghost p: Path, table: nat, i: nat, child: nat)
      requires Valid() && p in dir && dir[p] == table && Depth(p) < 3 && i < ENTRIES && Sub(p, i) !in dir
      requires child < mem.Length && child !in pmm.free && child !in Owned(dir)
      modifies this`dir, mem
      ensures Valid() && SameLookups(old(View())) && dir == old(dir)[Sub(p, i) := child]
      ensures Owned(dir) == old(Owned(dir)) + {child}
      ensures NoEmpty(old(View()), {p}) ==> NoEmpty(View(), {Sub(p, i)})
    {
      hide Wf, NoEmpty, Lookup, Owned, MakeEntry, Entry, Depth, Pmm.PhysMem.Valid;
      ghost var before := View();
      TableEntry(child);
      OwnedAdd(dir, Sub(p, i), child);
      TableAt(before, p);
      AddTableSpec(before, p, i, child);
      mem[child] := ZeroTable();
      mem[table] := PokeTable(mem[table], i, MakeEntry(child * PAGE_SIZE, USERMODE));
      dir := dir[Sub(p, i) := child];
      assert View() == AddTable(before, p, i, child);
    }

    /** The call `pmm_get(1, 0x0)`.  It can fail only when no frame below the limit is free. */
    method TakeFrame() returns (ok: bool, frame: nat)
      requires pmm.Valid()
      modifies pmm`free, pmm`freeSize, pmm.bitmap
      ensures pmm.Valid()
      ensures ok ==> frame in old(pmm.free) && frame < pmm.Frames() && pmm.free == old(pmm.free) - {frame as int}
      ensures !ok ==> pmm.free == old(pmm.free)
      ensures !ok ==> forall f: nat :: f in pmm.free ==> f * PAGE_SIZE >= pmm.physLimit
    {
      hide Pmm.IsFirst, Pmm.Run, Pmm.FrameOf, Pmm.Wraps, Pmm.Visits, Pmm.Taken;
      pmm.FramesBelow();
      var r := pmm.PmmGet(1, 0);
      Pmm.OneFrameFirst(old(pmm.free), pmm.physLimit, r);
      if r.None? {
        return false, 0;
      }
      ok, frame := true, Pmm.FrameOf(r.value);
    }

    /** The allocating branch of one level of `map_page`. */
    method NewTable(ghost p: Path, table: nat, i: nat) returns (ok: bool, child: nat)
      requires Valid() && p in dir && dir[p] == table && Depth(p) < 3 && i < ENTRIES && Sub(p, i) !in dir
      modifies this`dir, mem, pmm`free, pmm`freeSize, pmm.bitmap
      ensures Valid() && AllFrames() == old(AllFrames()) && SameLookups(old(View()))
      ensures dir == if ok then old(dir)[Sub(p, i) := child] else old(dir)
      ensures ok && NoEmpty(old(View()), {p}) ==> NoEmpty(View(), {Sub(p, i)})
    {
      hide Wf, NoEmpty, Lookup, Owned, Depth, Pmm.PhysMem.Valid;
      ghost var before := View();
      ok, child := TakeFrame();
      assert View() == before;
      if ok {
        FrameMoves(old(pmm.free), Owned(dir), child);
        LinkTable(p, table, i, child);
      }
    }

    /** One level of `map_page`: the child table under entry `i`, allocated and zeroed if the
        entry is not present.  `ok` is false when `pmm_get` panics. */
    method EnsureTable(ghost p: Path, table: nat, i: nat) returns (ok: bool, child: nat)
      requires Valid() && p in dir && dir[p] == table && Depth(p) < 3 && i < ENTRIES
      modifies this`dir, mem, pmm`free, pmm`freeSize, pmm.bitmap
      ensures Valid() && AllFrames() == old(AllFrames()) && SameLookups(old(View()))
      ensures ok ==> Sub(p, i) in dir && dir[Sub(p, i)] == child
      ensures ok && NoEmpty(old(View()), {p}) ==> NoEmpty(View(), {Sub(p, i)})
    {
      ReadSlot(p, i);
      ChildExcuses(View(), p, i);
      hide Wf, NoEmpty, Lookup, Owned, PageBase, NarrowBase;
      var entry := mem[table][i];
      child := PageBase(entry) / PAGE_SIZE;
      ok := true;
      if !Present(entry) {
        ok, child := NewTable(p, table, i);
      }
    }

    /** The last line of `map_page`: write the leaf entry. */
    method SetLeaf(ghost q: Page, pt: nat, pte: nat, word: nat)
      requires Valid() && IsPage(q) && PtPath(q) in dir && dir[PtPath(q)] == pt && pte == q.pte
      modifies mem
      ensures Valid()
      ensures forall r | IsPage(r) :: Lookup(View(), r) == if r == q then word else Lookup(old(View()), r)
      ensures NoEmpty(old(View()), {PtPath(q)}) ==>
                && NoEmpty(View(), {PtPath(q)})
                && (NoEmpty(View(), {}) <==> word != 0 || HasNeighbour(old(View()), q))
    {
      ghost var before := View();
      TableAt(before, PtPath(q));
      WriteLeafSpec(before, q, word);
      hide Wf, NoEmpty, Lookup, Owned, HasNeighbour;
      mem[pt] := PokeTable(mem[pt], pte, word);
      assert View() == WriteLeaf(before, PtPath(q), q.pte, word);
    }

    /** What the processor finds for a page, starting from the PML4. */
    ghost function Find(q: Page): nat
      requires IsPage(q)
      reads mem
    {
      Walk(mem[..], pml4, q)
    }

    lemma FindIsLookup()
      requires Valid()
      ensures forall q | IsPage(q) :: Find(q) == Lookup(View(), q)
    {
      forall q | IsPage(q) ensures Find(q) == Lookup(View(), q) {
        WalkIsLookup(View(), q);
      }
    }

    ghost function St(): State
      reads this`dir, mem, pmm`free
    {
      State(View(), pmm.free)
    }

    /** No table but the PML4 is empty. */
    ghost predicate Tidy()
      reads this`dir, mem
    {
      NoEmpty(View(), {})
    }

    /** The three levels of `map_page`: the leaf table of page `q`, built on demand. */
    method LeafTable(q: Page) returns (ok: bool, pt: nat)
      requires Valid() && IsPage(q)
      modifies this`dir, mem, pmm`free, pmm`freeSize, pmm.bitmap
      ensures Valid() && AllFrames() == old(AllFrames()) && SameLookups(old(View()))
      ensures ok ==> PtPath(q) in dir && dir[PtPath(q)] == pt
      ensures ok && NoEmpty(old(View()), {}) ==> NoEmpty(View(), {PtPath(q)})
    {
      NoEmptyRoot(View());
      PathDepths(q);
      assert Root in dir;
      hide Wf, NoEmpty, Lookup, Owned, Depth, PdptPath, PdPath, PtPath;
      var pdpt, pd;
      ok, pdpt := EnsureTable(Root, pml4, q.pml4e);
      pt := pdpt;
      if !ok { return; }
      ok, pd := EnsureTable(PdptPath(q), pdpt, q.pdpe);
      if !ok { return; }
      ok, pt := EnsureTable(PdPath(q), pd, q.pde);
    }

    /** `map_page` as a step of the table tree. */
    method MapStep(vaddr: nat, paddr: nat, flags: nat) returns (ok: bool)
      requires Valid()
      modifies this`dir, mem, pmm`free, pmm`freeSize, pmm.bitmap
      ensures Valid() && AllFrames() == old(AllFrames())
      ensures ok ==> Step(old(St()), Map(vaddr, paddr, flags), St())
      ensures !ok ==> SameLookups(old(View()))
    {
      var q := PageOf(vaddr);
      var pt;
      ok, pt := LeafTable(q);
      if ok {
        ghost var mid := View();
        hide Wf, NoEmpty, Lookup, Owned, HasNeighbour, MakeEntry, Step;
        SetLeaf(q, pt, q.pte, MakeEntry(PageBase(paddr), flags));
        MapIsStep(old(St()), mid, St(), vaddr, paddr, flags);
      }
    }

    /** `map_page`.  Afterwards the processor finds the new entry at the page of `vaddr` and
        what it found before everywhere else; no frame is lost.  A tidy tree stays tidy exactly
        when the entry is not zero or the leaf table holds something else. */
    method MapPage(vaddr: nat, paddr: nat, flags: nat) returns (ok: bool)
      requires Valid()
      modifies this`dir, mem, pmm`free, pmm`freeSize, pmm.bitmap
      ensures Valid() && AllFrames() == old(AllFrames())
      ensures ok ==> Maps(Find(PageOf(vaddr)), paddr, flags)
      ensures forall q | IsPage(q) && !(ok && q == PageOf(vaddr)) :: Find(q) == old(Find(q))
      ensures old(Tidy()) && ok ==>
                (Tidy() <==> Find(PageOf(vaddr)) != 0 || HasNeighbour(old(View()), PageOf(vaddr)))
      ensures ok ==> Step(old(St()), Map(vaddr, paddr, flags), St())
    {
      hide Wf, NoEmpty, Lookup, Owned, HasNeighbour, Walk, Word, PageOf, Maps;
      FindIsLookup();
      WordMaps(paddr, flags);
      ok := MapStep(vaddr, paddr, flags);
      FindIsLookup();
    }

    /** One reclaiming step of `unmap_page`: if all entries of the table at `Sub(p, i)` are
        zero, clear the entry that leads to it and free its frame. */
    method Reclaim(ghost p: Path, table: nat, i: nat, child: nat) returns (freed: bool)
      requires Valid() && Sub(p, i) in dir && p in dir && dir[p] == table && dir[Sub(p, i)] == child
      modifies this`dir, mem, pmm`free, pmm`freeSize, pmm.bitmap
      ensures Valid() && AllFrames() == old(AllFrames()) && SameLookups(old(View()))
      ensures freed == !Occupied(old(View()), Sub(p, i))
      ensures dir == if freed then old(dir) - {Sub(p, i)} else old(dir)
      ensures NoEmpty(old(View()), {Sub(p, i)}) ==> NoEmpty(View(), if freed then {p} else {})
    {
      freed := ScanZero(Sub(p, i), child);
      if freed {
        Unlink(p, table, i, child);
      } else {
        OccupiedNeedsNoExcuse(View(), Sub(p, i));
      }
    }

    /** The scan of a table for an entry that is not zero, entry by entry, stopping at the first. */
    method ScanZero(ghost n: Path, child: nat) returns (zero: bool)
      requires Valid() && n in dir && dir[n] == child
      ensures zero == !Occupied(View(), n)
    {
      TableAt(View(), n);
      for j := 0 to ENTRIES
        invariant forall k: nat :: k < j ==> mem[..][child][k] == 0
      {
        if mem[child][j] != 0 {
          assert View().mem[dir[n]][j] != 0;
          return false;
        }
      }
      return true;
    }

    method Unlink(ghost p: Path, table: nat, i: nat, child: nat)
      requires Valid() && Sub(p, i) in dir && p in dir && dir[p] == table && dir[Sub(p, i)] == child
      requires !Occupied(View(), Sub(p, i))
      modifies this`dir, mem, pmm`free, pmm`freeSize, pmm.bitmap
      ensures Valid() && AllFrames() == old(AllFrames()) && SameLookups(old(View()))
      ensures dir == old(dir) - {Sub(p, i)}
      ensures NoEmpty(old(View()), {Sub(p, i)}) ==> NoEmpty(View(), {p})
    {
      hide Wf, NoEmpty, Lookup, Owned, Occupied, Pmm.PhysMem.Valid;
      ghost var before := View();
      TableAt(before, p);
      TableAt(before, Sub(p, i));
      DropTableSpec(before, p, i);
      TreeShape(before);
      OwnedDrop(dir, Sub(p, i));
      mem[table] := PokeTable(mem[table], i, 0);
      dir := dir - {Sub(p, i)};
      assert View() == DropTable(before, p, i);
      FreeTable(child);
    }

    /** The call `pmm_free(frame, 1)` on the frame of an unlinked table. */
    method FreeTable(child: nat)
      requires Valid() && child < mem.Length && child !in Owned(dir)
      modifies pmm`free, pmm`freeSize, pmm.bitmap
      ensures Valid() && pmm.free == old(pmm.free) + {child as int}
    {
      hide Wf, Owned, Pmm.Run, Pmm.FrameOf, Pmm.Visits, Pmm.Freed, Pmm.PhysMem.InRange, Pmm.PhysMem.Tied;
      FrameInRange(child);
      pmm.PmmFree(child * PAGE_SIZE, 1);
    }

    lemma FrameInRange(f: nat)
      requires pmm.Tied() && f < pmm.Frames()
      ensures f * PAGE_SIZE < TWO64 && pmm.InRange(f * PAGE_SIZE, 1) && Pmm.FrameOf(f * PAGE_SIZE) == f
      ensures Pmm.Freed(pmm.free, f, Pmm.Visits(f * PAGE_SIZE, 1)) == pmm.free + {f as int}
    {
      assert f + 1 <= pmm.Frames();
      Pmm.OneFrame(f);
      Pmm.VisitsAll(f * PAGE_SIZE, 1);
    }

    /** The present checks of `unmap_page`, with its narrower mask: the tables of page `q`. */
    method WalkDown(q: Page) returns (found: bool, pdpt: nat, pd: nat, pt: nat)
      requires Valid() && IsPage(q)
      ensures found <==> PtPath(q) in dir
      ensures found ==> PdptPath(q) in dir && PdPath(q) in dir && PtPath(q) in dir
      ensures found ==> pdpt == dir[PdptPath(q)] && pd == dir[PdPath(q)] && pt == dir[PtPath(q)]
    {
      found, pdpt, pd, pt := false, 0, 0, 0;
      PathDepths(q);
      PathsClosed(dir, q);
      assert Root in dir;
      hide Wf, NarrowBase, PageBase, Entry, Slot, Owned;
      ReadSlot(Root, q.pml4e);
      if !Present(mem[pml4][q.pml4e]) { return; }
      pdpt := NarrowBase(mem[pml4][q.pml4e]) / PAGE_SIZE;
      ReadSlot(PdptPath(q), q.pdpe);
      if !Present(mem[pdpt][q.pdpe]) { return; }
      pd := NarrowBase(mem[pdpt][q.pdpe]) / PAGE_SIZE;
      ReadSlot(PdPath(q), q.pde);
      if !Present(mem[pd][q.pde]) { return; }
      pt := NarrowBase(mem[pd][q.pde]) / PAGE_SIZE;
      found := true;
    }

    lemma RootThere()
      requires Valid()
      ensures Root in dir
    {
    }

    /** The reclaiming tail of `unmap_page`: up to three levels, stopping at the first table
        that still holds something. */
    method ReclaimUp(q: Page, pdpt: nat, pd: nat, pt: nat)
      requires Valid() && IsPage(q)
      requires PdptPath(q) in dir && PdPath(q) in dir && PtPath(q) in dir
      requires pdpt == dir[PdptPath(q)] && pd == dir[PdPath(q)] && pt == dir[PtPath(q)]
      modifies this`dir, mem, pmm`free, pmm`freeSize, pmm.bitmap
      ensures Valid() && AllFrames() == old(AllFrames()) && SameLookups(old(View()))
      ensures NoEmpty(old(View()), {PtPath(q)}) ==> NoEmpty(View(), {})
    {
      hide Wf, NoEmpty, Lookup, Owned, Occupied, PdptPath, PdPath, PtPath, Pmm.PhysMem.Valid;
      PathDepths(q);
      RootThere();
      var freed := Reclaim(PdPath(q), pd, q.pde, pt);
      if !freed { return; }
      assert PdPath(q) in dir && PdptPath(q) in dir && Root in dir;
      freed := Reclaim(PdptPath(q), pdpt, q.pdpe, pd);
      if !freed { return; }
      assert PdptPath(q) in dir && Root in dir;
      freed := Reclaim(Root, pml4, q.pml4e, pdpt);
      NoEmptyRoot(View());
    }

    method ClearAndReclaim(vaddr: nat, pdpt: nat, pd: nat, pt: nat)
      requires Valid() && Present(Lookup(View(), PageOf(vaddr)))
      requires var q := PageOf(vaddr); PdptPath(q) in dir && PdPath(q) in dir && PtPath(q) in dir
      requires var q := PageOf(vaddr); pdpt == dir[PdptPath(q)] && pd == dir[PdPath(q)] && pt == dir[PtPath(q)]
      modifies this`dir, mem, pmm`free, pmm`freeSize, pmm.bitmap
      ensures Valid() && AllFrames() == old(AllFrames()) && Step(old(St()), Unmap(vaddr), St())
    {
      var q := PageOf(vaddr);
      WeakenNoEmpty(View(), PtPath(q));
      hide Wf, NoEmpty, Owned, Lookup, HasNeighbour, PdptPath, PdPath, PtPath, PageOf, Step;
      SetLeaf(q, pt, q.pte, 0);
      ghost var mid := View();
      ReclaimUp(q, pdpt, pd, pt);
      UnmapIsStep(old(St()), mid, St(), vaddr);
    }

    /** `unmap_page` as a step of the table tree. */
    method UnmapStep(vaddr: nat)
      requires Valid()
      modifies this`dir, mem, pmm`free, pmm`freeSize, pmm.bitmap
      ensures Valid() && AllFrames() == old(AllFrames()) && Step(old(St()), Unmap(vaddr), St())
      ensures !Present(Lookup(old(View()), PageOf(vaddr))) ==> St() == old(St())
    {
      var q := PageOf(vaddr);
      var found, pdpt, pd, pt := WalkDown(q);
      if !found {
        IdleUnmapIsStep(St(), vaddr);
        return;
      }
      TableAt(View(), PtPath(q));
      if !Present(mem[pt][q.pte]) {
        IdleUnmapIsStep(St(), vaddr);
        return;
      }
      ClearAndReclaim(vaddr, pdpt, pd, pt);
    }

    /** `unmap_page`.  Afterwards the page of `vaddr` has no mapping, every other page is found
        as before however many tables were given back, no frame is lost, and a tidy tree stays
        tidy.  A page without a present entry is left alone. */
    method UnmapPage(vaddr: nat)
      requires Valid()
      modifies this`dir, mem, pmm`free, pmm`freeSize, pmm.bitmap
      ensures Valid() && AllFrames() == old(AllFrames())
      ensures forall q | IsPage(q) :: Find(q) ==
                if q == PageOf(vaddr) && Present(old(Find(q))) then 0 else old(Find(q))
      ensures old(Tidy()) ==> Tidy()
      ensures !Present(old(Find(PageOf(vaddr)))) ==> St() == old(St())
      ensures Step(old(St()), Unmap(vaddr), St())
    {
      hide Wf, NoEmpty, Lookup, Owned, HasNeighbour, Walk, PageOf;
      FindIsLookup();
      UnmapStep(vaddr);
      FindIsLookup();
    }

    /** The loop of `vmm_map`, recording the states it passes through. */
    method MapLoop(vaddr: nat, paddr: nat, np: nat, flags: nat) returns (ok: bool, ghost states: seq<State>)
      requires Valid()
      modifies this`dir, mem, pmm`free, pmm`freeSize, pmm.bitmap
      ensures Valid() && AllFrames() == old(AllFrames())
      ensures ok ==> IsRunOf(states, MapOps(vaddr, paddr, np, flags), np)
                     && states[0] == old(St()) && states[np] == St()
    {
      ok := true;
      states := [St()];
      assert IsRunOf(states, MapOps(vaddr, paddr, 0, flags), 0);
      hide Wf, NoEmpty, Owned, Lookup, Step, Add64, MapOps, IsRunOf;
      for k: nat := 0 to np
        invariant Valid() && AllFrames() == old(AllFrames())
        invariant IsRunOf(states, MapOps(vaddr, paddr, k, flags), k)
        invariant states[0] == old(St()) && states[k] == St()
      {
        ok := MapStep(Add64(vaddr, k * PAGE_SIZE), Add64(paddr, k * PAGE_SIZE), flags);
        if !ok {
          return;
        }
        RunExtendMap(states, vaddr, paddr, k, flags, St());
        states := states + [St()];
      }
    }

    /** `vmm_map`: the single-page calls one after the other. */
    method VmmMap(vaddr: nat, paddr: nat, np: nat, flags: nat) returns (ok: bool)
      requires Valid()
      modifies this`dir, mem, pmm`free, pmm`freeSize, pmm.bitmap
      ensures Valid() && AllFrames() == old(AllFrames())
      ensures ok ==> forall q | IsPage(q) :: Find(q) == After(MapOps(vaddr, paddr, Rounds(np), flags), old(Find(q)), q)
      ensures ok ==> forall k: nat :: k < Rounds(np) <= k + 0x10_0000_0000 ==>
                       Maps(Find(PageAt(vaddr, k)), Add64(paddr, k * PAGE_SIZE), flags)
      ensures ok ==> forall q | IsPage(q) && (forall k: nat :: k < Rounds(np) ==> PageAt(vaddr, k) != q) ::
                       Find(q) == old(Find(q))
      ensures ok && Present(flags) && old(Tidy()) ==> Tidy()
    {
      FindIsLookup();
      hide Wf, NoEmpty, Owned, Lookup, Find, MapOps, IsRunOf, After, Maps, PageAt, Add64, Rounds;
      ghost var states;
      ok, states := MapLoop(vaddr, paddr, Rounds(np), flags);
      if ok {
        RunOutcome(states, MapOps(vaddr, paddr, Rounds(np), flags));
        MappedRange(vaddr, paddr, Rounds(np), flags, old(View()), View());
        FindIsLookup();
      }
    }

    /** The loop of `vmm_unmap`, recording the states it passes through. */
    method UnmapLoop(vaddr: nat, np: nat) returns (ghost states: seq<State>)
      requires Valid()
      modifies this`dir, mem, pmm`free, pmm`freeSize, pmm.bitmap
      ensures Valid() && AllFrames() == old(AllFrames())
      ensures IsRunOf(states, UnmapOps(vaddr, np), np) && states[0] == old(St()) && states[np] == St()
    {
      states := [St()];
      assert IsRunOf(states, UnmapOps(vaddr, 0), 0);
      hide Wf, NoEmpty, Owned, Lookup, Step, Add64, UnmapOps, IsRunOf;
      for k: nat := 0 to np
        invariant Valid() && AllFrames() == old(AllFrames())
        invariant IsRunOf(states, UnmapOps(vaddr, k), k)
        invariant states[0] == old(St()) && states[k] == St()
      {
        UnmapStep(Add64(vaddr, k * PAGE_SIZE));
        RunExtendUnmap(states, vaddr, k, St());
        states := states + [St()];
      }
    }

    /** `vmm_unmap`: the single-page calls one after the other. */
    method VmmUnmap(vaddr: nat, np: nat)
      requires Valid()
      modifies this`dir, mem, pmm`free, pmm`freeSize, pmm.bitmap
      ensures Valid() && AllFrames() == old(AllFrames())
      ensures forall q | IsPage(q) :: Find(q) == After(UnmapOps(vaddr, Rounds(np)), old(Find(q)), q)
      ensures forall q | IsPage(q) :: Find(q) ==
                if Present(old(Find(q))) && exists k: nat :: k < Rounds(np) && PageAt(vaddr, k) == q then 0
                else old(Find(q))
      ensures old(Tidy()) ==> Tidy()
    {
      FindIsLookup();
      hide Wf, NoEmpty, Owned, Lookup, Find, UnmapOps, IsRunOf, After, PageAt, Rounds;
      ghost var states := UnmapLoop(vaddr, Rounds(np));
      RunOutcome(states, UnmapOps(vaddr, Rounds(np)));
      UnmappedRange(vaddr, Rounds(np), old(View()), View());
      FindIsLookup();
    }
  }
}
