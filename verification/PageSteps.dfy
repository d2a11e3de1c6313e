/** One call of `map_page` or `unmap_page` as a step between states, and what holds over runs
    of any such steps. */
module PageSteps {
  import opened Common
  import opened PageMap
  import Pmm

  /** The indices `(vaddr >> 39) & 0x1ff`, ..., `(vaddr >> 12) & 0x1ff`. */
  function PageOf(vaddr: nat): (q: Page)
    ensures IsPage(q)
  {
    Page((vaddr / 0x80_0000_0000) % ENTRIES, (vaddr / 0x4000_0000) % ENTRIES,
         (vaddr / 0x20_0000) % ENTRIES, (vaddr / 0x1000) % ENTRIES)
  }

  /** The frames a directory owns. */
  function Owned(dir: map<Path, nat>): set<int> {
    set p | p in dir :: dir[p]
  }

  /** A table with a child is occupied, so it needs no excuse. */
  lemma ChildExcuses(s: Space, p: Path, i: nat)
    requires Wf(s) && p in s.dir
    ensures Sub(p, i) in s.dir && NoEmpty(s, {p}) ==> NoEmpty(s, {Sub(p, i)})
  {
    if Sub(p, i) in s.dir {
      ChildOccupies(s, p, i);
    }
  }

  lemma FrameMoves(free: set<int>, owned: set<int>, f: int)
    requires f in free
    ensures (free - {f}) + (owned + {f}) == free + owned
  {
  }

  lemma OwnedAdd(dir: map<Path, nat>, p: Path, f: nat)
    requires p !in dir
    ensures Owned(dir[p := f]) == Owned(dir) + {f}
    ensures f in Owned(dir) <==> f in dir.Values
  {
    assert forall q :: q in dir ==> dir[p := f][q] == dir[q];
    assert dir[p := f][p] == f;
  }

  /** What linking a fresh table does to the tree. */
  lemma AddTableSpec(s: Space, p: Path, i: nat, f: nat)
    requires Wf(s) && p in s.dir && Depth(p) < 3 && i < ENTRIES && Sub(p, i) !in s.dir
    requires f < |s.mem| && f !in s.dir.Values
    ensures Wf(AddTable(s, p, i, f))
    ensures forall q | IsPage(q) :: Lookup(AddTable(s, p, i, f), q) == Lookup(s, q)
    ensures NoEmpty(s, {p}) ==> NoEmpty(AddTable(s, p, i, f), {Sub(p, i)})
  {
    AddTableKeepsWf(s, p, i, f);
    forall q | IsPage(q) ensures Lookup(AddTable(s, p, i, f), q) == Lookup(s, q) {
      AddTableKeepsLookup(s, p, i, f, q);
    }
    if NoEmpty(s, {p}) {
      AddTableNoEmpty(s, p, i, f, {p});
      assert {p} - {p} + {Sub(p, i)} == {Sub(p, i)};
    }
  }

  /** Another page of the same leaf table has a non-zero entry. */
  ghost predicate HasNeighbour(s: Space, q: Page) {
    exists r :: IsPage(r) && r != q && PtPath(r) == PtPath(q) && Lookup(s, r) != 0
  }

  lemma SameNeighbours(s: Space, t: Space, q: Page)
    requires SameMap(s, t)
    ensures HasNeighbour(s, q) <==> HasNeighbour(t, q)
  {
  }

  lemma WeakenNoEmpty(s: Space, p: Path)
    ensures NoEmpty(s, {}) ==> NoEmpty(s, {p})
  {
  }

  lemma PathsClosed(dir: map<Path, nat>, q: Page)
    requires Shape(dir)
    ensures PtPath(q) in dir ==> PdPath(q) in dir
    ensures PdPath(q) in dir ==> PdptPath(q) in dir
  {
  }

  lemma NoEmptyRoot(s: Space)
    ensures NoEmpty(s, {}) <==> NoEmpty(s, {Root})
  {
  }

  lemma PathDepths(q: Page)
    ensures PdptPath(q) == Sub(Root, q.pml4e) && PdPath(q) == Sub(PdptPath(q), q.pdpe)
    ensures PtPath(q) == Sub(PdPath(q), q.pde)
    ensures Depth(Root) == 0 && Depth(PdptPath(q)) == 1 && Depth(PdPath(q)) == 2 && Depth(PtPath(q)) == 3
  {
    LeafDepth(q);
  }

  /** What writing a leaf entry does to the tree. */
  lemma WriteLeafSpec(s: Space, q: Page, word: nat)
    requires Wf(s) && IsPage(q) && PtPath(q) in s.dir
    ensures var t := WriteLeaf(s, PtPath(q), q.pte, word);
            && Wf(t)
            && (forall r | IsPage(r) :: Lookup(t, r) == if r == q then word else Lookup(s, r))
            && (NoEmpty(s, {PtPath(q)}) ==>
                  NoEmpty(t, {PtPath(q)}) && (NoEmpty(t, {}) <==> word != 0 || HasNeighbour(s, q)))
  {
    var p := PtPath(q);
    var t := WriteLeaf(s, p, q.pte, word);
    LeafDepth(q);
    WriteLeafKeepsWf(s, p, q.pte, word);
    forall r | IsPage(r) ensures Lookup(t, r) == if r == q then word else Lookup(s, r) {
      WriteLeafLookup(s, q, word, r);
    }
    if NoEmpty(s, {p}) {
      WriteLeafNoEmpty(s, p, q.pte, word, {p});
      OccupiedLeaf(s, q, word);
      assert NoEmpty(t, {}) <==> Occupied(t, p);
    }
  }

  lemma OccupiedLeaf(s: Space, q: Page, word: nat)
    requires Wf(s) && IsPage(q) && PtPath(q) in s.dir
    ensures var t := WriteLeaf(s, PtPath(q), q.pte, word);
            Occupied(t, PtPath(q)) <==> word != 0 || HasNeighbour(s, q)
  {
    var p := PtPath(q);
    var t := WriteLeaf(s, p, q.pte, word);
    if Occupied(t, p) && word == 0 {
      var i: nat :| i < ENTRIES && t.mem[t.dir[p]][i] != 0;
      var r := q.(pte := i);
      assert PtPath(r) == p && Lookup(s, r) != 0;
    }
    if word != 0 {
      assert t.mem[t.dir[p]][q.pte] != 0;
    } else if HasNeighbour(s, q) {
      var r :| IsPage(r) && r != q && PtPath(r) == p && Lookup(s, r) != 0;
      assert t.mem[t.dir[p]][r.pte] != 0;
    }
  }

  lemma OccupiedNeedsNoExcuse(s: Space, p: Path)
    requires p in s.dir && Occupied(s, p)
    ensures NoEmpty(s, {p}) ==> NoEmpty(s, {})
  {
  }

  lemma OwnedDrop(dir: map<Path, nat>, n: Path)
    requires Shape(dir) && n in dir
    ensures Owned(dir) == Owned(dir - {n}) + {dir[n]} && dir[n] !in Owned(dir - {n})
  {
    assert forall q :: q in dir - {n} ==> (dir - {n})[q] == dir[q];
    assert forall q :: q in dir ==> q == n || q in dir - {n};
  }

  /** What unlinking an empty table does to the tree. */
  lemma DropTableSpec(s: Space, p: Path, i: nat)
    requires Wf(s) && Sub(p, i) in s.dir && !Occupied(s, Sub(p, i))
    ensures p in s.dir && Wf(DropTable(s, p, i))
    ensures forall q | IsPage(q) :: Lookup(DropTable(s, p, i), q) == Lookup(s, q)
    ensures NoEmpty(s, {Sub(p, i)}) ==> NoEmpty(DropTable(s, p, i), {p})
  {
    DropTableKeepsWf(s, p, i);
    forall q | IsPage(q) ensures Lookup(DropTable(s, p, i), q) == Lookup(s, q) {
      DropTableKeepsLookup(s, p, i, q);
    }
    if NoEmpty(s, {Sub(p, i)}) {
      DropTableNoEmpty(s, p, i);
    }
  }

  // ----- page numbers -----

  /** The 36-bit page number that the four indices spell. */
  function PageNumber(q: Page): nat {
    q.pml4e * 0x800_0000 + q.pdpe * 0x4_0000 + q.pde * 0x200 + q.pte
  }

  /** Two virtual addresses have the same table indices exactly when they have the same
      36-bit page number. */
  lemma PageOfNumber(vaddr: nat)
    ensures PageNumber(PageOf(vaddr)) == vaddr / 0x1000 % 0x10_0000_0000
  {
    var n := vaddr / 0x1000;
    Shifts(vaddr);
    Digits2(n);
    Digits3(n);
    Digits4(n);
  }

  lemma Shifts(vaddr: nat)
    ensures vaddr / 0x20_0000 == vaddr / 0x1000 / 0x200
    ensures vaddr / 0x4000_0000 == vaddr / 0x1000 / 0x4_0000
    ensures vaddr / 0x80_0000_0000 == vaddr / 0x1000 / 0x800_0000
  {
  }

  lemma Digits2(n: nat)
    ensures n % 0x4_0000 == (n / 0x200 % 0x200) * 0x200 + n % 0x200
  {
  }

  lemma Digits3(n: nat)
    ensures n % 0x800_0000 == (n / 0x4_0000 % 0x200) * 0x4_0000 + n % 0x4_0000
  {
  }

  lemma Digits4(n: nat)
    ensures n % 0x10_0000_0000 == (n / 0x800_0000 % 0x200) * 0x800_0000 + n % 0x800_0000
  {
  }

  // ----- steps and runs -----

  /** The table memory with its directory, and the free frames. */
  datatype State = State(space: Space, free: set<int>)

  datatype Op = Map(vaddr: nat, paddr: nat, flags: nat) | Unmap(vaddr: nat)

  function Word(paddr: nat, flags: nat): nat {
    MakeEntry(PageBase(paddr), flags)
  }

  /** The word maps a page to the frame of `paddr` with the flags: bit by bit, and as a frame
      number and flags when the flags are below the page size. */
  ghost predicate Maps(word: nat, paddr: nat, flags: nat) {
    && (forall i: nat :: Bit(word, i) <==> Bit(flags, i) || (12 <= i && Bit(paddr, i)))
    && (flags < PAGE_SIZE ==> word / PAGE_SIZE == paddr / PAGE_SIZE && word % PAGE_SIZE == flags)
  }

  /** The entry that `map_page` writes does. */
  lemma WordMaps(paddr: nat, flags: nat)
    ensures Maps(Word(paddr, flags), paddr, flags)
  {
    hide BitOr, PageBase, Bit;
    PageBaseTwice(paddr);
    forall i: nat
      ensures Bit(Word(paddr, flags), i) <==> Bit(flags, i) || (12 <= i && Bit(paddr, i))
    {
      BitOrBits(PageBase(paddr), flags, i);
      PageBaseBits(paddr, i);
    }
    if flags < PAGE_SIZE {
      WordParts(paddr, flags);
    }
  }

  lemma WordParts(paddr: nat, flags: nat)
    requires flags < PAGE_SIZE
    ensures Word(paddr, flags) / PAGE_SIZE == paddr / PAGE_SIZE && Word(paddr, flags) % PAGE_SIZE == flags
  {
    hide BitOr, ShiftLeft, Pow2;
    var f := paddr / PAGE_SIZE;
    PageBaseTwice(paddr);
    TwelvefoldShift(f);
    BitOrDisjoint(f, flags, 12);
    assert PageBase(paddr) == 4096 * f;
    FrameAndFlags(f, flags);
  }

  lemma FrameAndFlags(f: nat, flags: nat)
    requires flags < 4096
    ensures (4096 * f + flags) / 4096 == f && (4096 * f + flags) % 4096 == flags
  {
  }

  lemma TwelvefoldShift(x: nat)
    ensures ShiftLeft(x, 12) == 4096 * x && Pow2(12) == 4096
  {
    EightfoldShift(x);
    assert ShiftLeft(x, 5) == 32 * x && Pow2(5) == 32;
    assert ShiftLeft(x, 7) == 128 * x && Pow2(7) == 128;
    assert ShiftLeft(x, 9) == 512 * x && Pow2(9) == 512;
    assert ShiftLeft(x, 11) == 2048 * x && Pow2(11) == 2048;
  }

  /** The bits say all there is to say about a word. */
  lemma {:induction false} BitsDetermine(x: nat, y: nat)
    requires forall i: nat :: Bit(x, i) == Bit(y, i)
    ensures x == y
    decreases x + y
  {
    if x != 0 || y != 0 {
      assert Bit(x, 0) == Bit(y, 0);
      forall i: nat ensures Bit(x / 2, i) == Bit(y / 2, i) {
        assert Bit(x, i + 1) == Bit(y, i + 1);
      }
      BitsDetermine(x / 2, y / 2);
    }
  }

  /** So two words that map to the same frame with the same flags are the same. */
  lemma MapsOnce(v: nat, w: nat, paddr: nat, flags: nat)
    requires Maps(v, paddr, flags) && Maps(w, paddr, flags)
    ensures v == w
  {
    BitsDetermine(v, w);
  }

  ghost predicate Inv(s: State) {
    Wf(s.space) && Owned(s.space.dir) !! s.free
  }

  /** What one call does, as the contracts of `MapPage` and `UnmapPage` promise it for tables that
      are well formed when it begins. */
  ghost predicate Step(s: State, op: Op, t: State) {
    Inv(s) ==>
    && Inv(t)
    && t.free + Owned(t.space.dir) == s.free + Owned(s.space.dir)
    && (forall q | IsPage(q) :: Lookup(t.space, q) == Effect(op, Lookup(s.space, q), q))
    && (NoEmpty(s.space, {}) ==> (NoEmpty(t.space, {}) <==> KeepsTidy(s, op)))
  }

  /** The effect of one call on what is found for page `q`. */
  function Effect(op: Op, found: nat, q: Page): nat {
    match op
    case Map(v, p, f) => if q == PageOf(v) then Word(p, f) else found
    case Unmap(v) => if q == PageOf(v) && Present(found) then 0 else found
  }

  ghost predicate KeepsTidy(s: State, op: Op) {
    op.Map? ==> Word(op.paddr, op.flags) != 0 || HasNeighbour(s.space, PageOf(op.vaddr))
  }

  /** A flat map after a sequence of calls, at page `q`. */
  function After(ops: seq<Op>, found: nat, q: Page): nat {
    if ops == [] then found
    else Effect(ops[|ops| - 1], After(ops[..|ops| - 1], found, q), q)
  }

  ghost predicate IsRun(states: seq<State>, ops: seq<Op>) {
    && |states| == |ops| + 1
    && forall i :: 0 <= i < |ops| ==> Step(states[i], ops[i], states[i + 1])
  }

  ghost predicate IsRunOf(states: seq<State>, ops: seq<Op>, k: nat)
    ensures IsRunOf(states, ops, k) ==> |states| == k + 1 && |ops| == k
  {
    |ops| == k && IsRun(states, ops)
  }

  lemma RunExtend(states: seq<State>, ops: seq<Op>, op: Op, t: State)
    requires IsRun(states, ops) && Step(states[|ops|], op, t)
    ensures IsRun(states + [t], ops + [op])
  {
    hide Step;
    forall i | 0 <= i < |ops + [op]| ensures Step((states + [t])[i], (ops + [op])[i], (states + [t])[i + 1]) {
      if i < |ops| {
        assert Step(states[i], ops[i], states[i + 1]);
      }
    }
  }

  /** Building the leaf table and then writing the leaf is one step. */
  lemma MapIsStep(s: State, mid: Space, t: State, vaddr: nat, paddr: nat, flags: nat)
    requires Inv(s) && Inv(t) && t.free + Owned(t.space.dir) == s.free + Owned(s.space.dir)
    requires var q := PageOf(vaddr);
             && SameMap(mid, s.space)
             && (forall r | IsPage(r) :: Lookup(t.space, r) == if r == q then Word(paddr, flags) else Lookup(mid, r))
             && (NoEmpty(s.space, {}) ==> NoEmpty(mid, {PtPath(q)}))
             && (NoEmpty(mid, {PtPath(q)}) ==>
                   (NoEmpty(t.space, {}) <==> Word(paddr, flags) != 0 || HasNeighbour(mid, q)))
    ensures Step(s, Map(vaddr, paddr, flags), t)
  {
    SameNeighbours(mid, s.space, PageOf(vaddr));
    hide Wf, NoEmpty, Lookup, Owned, HasNeighbour, Word;
  }

  /** Clearing the leaf and then reclaiming the empty tables is one step. */
  lemma UnmapIsStep(s: State, mid: Space, t: State, vaddr: nat)
    requires Inv(s) && Inv(t) && t.free + Owned(t.space.dir) == s.free + Owned(s.space.dir)
    requires var q := PageOf(vaddr);
             && Present(Lookup(s.space, q))
             && SameMap(t.space, mid)
             && (forall r | IsPage(r) :: Lookup(mid, r) == if r == q then 0 else Lookup(s.space, r))
             && (NoEmpty(s.space, {}) ==> NoEmpty(t.space, {}))
    ensures Step(s, Unmap(vaddr), t)
  {
    hide Wf, NoEmpty, Lookup, Owned, HasNeighbour;
  }

  lemma IdleUnmapIsStep(s: State, vaddr: nat)
    requires Inv(s) && !Present(Lookup(s.space, PageOf(vaddr)))
    ensures Step(s, Unmap(vaddr), s)
  {
    hide Wf, NoEmpty, Lookup, Owned, HasNeighbour;
  }

  /** Over any run the radix tree behaves as the flat map does, and no frame is lost to or
      doubly owned by the tables. */
  lemma {:induction false} RunRefinesFlatMap(states: seq<State>, ops: seq<Op>)
    requires IsRun(states, ops) && Inv(states[0])
    ensures var s, t := states[0], states[|ops|];
            && Inv(t)
            && t.free + Owned(t.space.dir) == s.free + Owned(s.space.dir)
            && forall q | IsPage(q) :: Lookup(t.space, q) == After(ops, Lookup(s.space, q), q)
    decreases |ops|
  {
    if ops != [] {
      var n := |ops| - 1;
      RunRefinesFlatMap(states[..|ops|], ops[..n]);
      assert Step(states[n], ops[n], states[n + 1]);
    }
  }

  /** Every mapping call carries the present flag. */
  predicate AllPresent(ops: seq<Op>) {
    forall i :: 0 <= i < |ops| && ops[i].Map? ==> Present(ops[i].flags)
  }

  lemma PresentWordNotZero(paddr: nat, flags: nat)
    requires Present(flags)
    ensures Word(paddr, flags) != 0 && Present(Word(paddr, flags))
  {
    hide PageBase, BitOr;
    BitOrZero(PageBase(PageBase(paddr)), flags);
    BitOrStep(PageBase(PageBase(paddr)), flags);
  }

  /** An entry is zero, so that a table may be left empty, exactly when both arguments are. */
  lemma WordZero(paddr: nat, flags: nat)
    ensures Word(paddr, flags) == 0 <==> paddr < PAGE_SIZE && flags == 0
  {
    hide PageBase, BitOr;
    PageBaseTwice(paddr);
    BitOrZero(PageBase(paddr), flags);
  }

  /** Entries are 64-bit words. */
  lemma WordWidth(paddr: nat, flags: nat)
    requires paddr < TWO64 && flags < TWO64
    ensures Word(paddr, flags) < TWO64
  {
    Pow64();
    BitOrWidth(PageBase(PageBase(paddr)), flags, 64);
  }

  lemma Pow64()
    ensures Pow2(64) == TWO64
  {
    assert Pow2(8) == 0x100;
    assert Pow2(16) == 0x1_0000;
    assert Pow2(24) == 0x100_0000;
    assert Pow2(32) == 0x1_0000_0000;
    assert Pow2(40) == 0x100_0000_0000;
    assert Pow2(48) == 0x1_0000_0000_0000;
    assert Pow2(56) == 0x100_0000_0000_0000;
  }

  /** A run of calls that all carry the present flag never leaves an empty table behind. */
  lemma {:induction false} RunStaysTidy(states: seq<State>, ops: seq<Op>)
    requires IsRun(states, ops) && Inv(states[0]) && NoEmpty(states[0].space, {}) && AllPresent(ops)
    ensures NoEmpty(states[|ops|].space, {})
    decreases |ops|
  {
    if ops != [] {
      var n := |ops| - 1;
      RunRefinesFlatMap(states[..|ops|], ops[..n]);
      RunStaysTidy(states[..|ops|], ops[..n]);
      assert Step(states[n], ops[n], states[n + 1]);
      if ops[n].Map? {
        PresentWordNotZero(ops[n].paddr, ops[n].flags);
      }
    }
  }

  lemma RunOutcome(states: seq<State>, ops: seq<Op>)
    requires IsRunOf(states, ops, |ops|) && Inv(states[0])
    ensures forall q | IsPage(q) :: Lookup(states[|ops|].space, q) == After(ops, Lookup(states[0].space, q), q)
    ensures AllPresent(ops) && NoEmpty(states[0].space, {}) ==> NoEmpty(states[|ops|].space, {})
  {
    RunRefinesFlatMap(states, ops);
    if AllPresent(ops) && NoEmpty(states[0].space, {}) {
      RunStaysTidy(states, ops);
    }
  }

  /** A run that ends with the flat map it began with has given back every frame it took:
      in particular, unmapping everything restores the initial free count. */
  lemma RunRestoresFree(states: seq<State>, ops: seq<Op>)
    requires IsRun(states, ops) && Inv(states[0]) && NoEmpty(states[0].space, {}) && AllPresent(ops)
    requires SameMap(states[0].space, states[|ops|].space)
    ensures |states[|ops|].free| == |states[0].free|
    ensures states[|ops|].space.dir.Keys == states[0].space.dir.Keys
  {
    var s, t := states[0], states[|ops|];
    RunRefinesFlatMap(states, ops);
    RunStaysTidy(states, ops);
    SameMapSameTables(s.space, t.space);
    FramesConserved(s, t);
  }

  /** Conservation in numbers: free frames plus tables. */
  lemma FramesConserved(s: State, t: State)
    requires Inv(s) && Inv(t) && t.free + Owned(t.space.dir) == s.free + Owned(s.space.dir)
    ensures |t.free| + |t.space.dir| == |s.free| + |s.space.dir|
  {
    OwnedSize(s.space.dir);
    OwnedSize(t.space.dir);
    assert |s.free + Owned(s.space.dir)| == |s.free| + |Owned(s.space.dir)|;
    assert |t.free + Owned(t.space.dir)| == |t.free| + |Owned(t.space.dir)|;
  }

  lemma {:induction false} OwnedSize(dir: map<Path, nat>)
    requires forall p, q :: p in dir && q in dir && dir[p] == dir[q] ==> p == q
    ensures |Owned(dir)| == |dir|
    decreases |dir|
  {
    if |dir| > 0 {
      assert dir.Keys != {};
      var n :| n in dir;
      var rest := dir - {n};
      assert rest.Keys == dir.Keys - {n};
      OwnedSize(rest);
      assert forall q :: q in rest ==> rest[q] == dir[q];
      assert Owned(dir) == Owned(rest) + {dir[n]};
      assert dir[n] !in Owned(rest);
      assert |rest| == |dir| - 1;
    } else {
      assert dir == map[];
    }
  }

  // ----- the ranges of vmm_map and vmm_unmap -----

  /** `x + i` in 64 bits. */
  function Add64(x: nat, i: nat): nat {
    (x + i) % TWO64
  }

  /** The rounds of a loop by pages up to `np * PAGE_SIZE`, in 64 bits. */
  function Rounds(np: nat): nat {
    np * PAGE_SIZE % TWO64 / PAGE_SIZE
  }

  /** They are all the pages asked for exactly when the product does not wrap around. */
  lemma RoundsAll(np: nat)
    ensures Rounds(np) == np <==> np * PAGE_SIZE < TWO64
    ensures np * PAGE_SIZE % TWO64 == Rounds(np) * PAGE_SIZE
  {
    Pmm.ProductAligned(np);
  }

  function PageAt(vaddr: nat, k: nat): (q: Page)
    ensures IsPage(q)
  {
    PageOf(Add64(vaddr, k * PAGE_SIZE))
  }

  function MapOps(vaddr: nat, paddr: nat, np: nat, flags: nat): (ops: seq<Op>)
    ensures Present(flags) ==> AllPresent(ops)
  {
    if np == 0 then []
    else MapOps(vaddr, paddr, np - 1, flags) +
         [Map(Add64(vaddr, (np - 1) * PAGE_SIZE), Add64(paddr, (np - 1) * PAGE_SIZE), flags)]
  }

  function UnmapOps(vaddr: nat, np: nat): (ops: seq<Op>)
    ensures AllPresent(ops)
  {
    if np == 0 then []
    else UnmapOps(vaddr, np - 1) + [Unmap(Add64(vaddr, (np - 1) * PAGE_SIZE))]
  }

  /** The page numbers of a range are consecutive modulo 2^36, whatever wraps around. */
  lemma PageAtNumber(vaddr: nat, k: nat)
    ensures PageNumber(PageAt(vaddr, k)) == (vaddr / 0x1000 + k) % 0x10_0000_0000
  {
    var x := vaddr + k * PAGE_SIZE;
    PageOfNumber(x % TWO64);
    PageNumberWraps(x);
    assert x / 0x1000 == vaddr / 0x1000 + k;
    hide PageNumber, PageOf;
  }

  lemma PageNumberWraps(x: nat)
    ensures x % TWO64 / 0x1000 % 0x10_0000_0000 == x / 0x1000 % 0x10_0000_0000
  {
    var y, r := x / TWO64, x % TWO64;
    DropMultiple(r / 0x1000, y * 0x10000);
    ShiftSplit(y, r);
  }

  lemma ShiftSplit(y: nat, r: nat)
    ensures (y * TWO64 + r) / 0x1000 == y * 0x10000 * 0x10_0000_0000 + r / 0x1000
  {
  }

  lemma DropMultiple(n: nat, k: nat)
    ensures (k * 0x10_0000_0000 + n) % 0x10_0000_0000 == n % 0x10_0000_0000
  {
  }

  lemma RangeDistinct(vaddr: nat, j: nat, k: nat)
    requires j < k < j + 0x10_0000_0000
    ensures PageAt(vaddr, j) != PageAt(vaddr, k)
  {
    PageAtNumber(vaddr, j);
    PageAtNumber(vaddr, k);
    ModDistinct(vaddr / 0x1000, j, k);
    hide PageAt, PageNumber, PageOf;
  }

  lemma ModDistinct(a: nat, j: nat, k: nat)
    requires j < k < j + 0x10_0000_0000
    ensures (a + j) % 0x10_0000_0000 != (a + k) % 0x10_0000_0000
  {
  }

  /** `vmm_map` of a range: the k-th page is found with the k-th frame and the flags, all other
      pages are untouched.  In a range of more than 2^36 pages the last round for a page counts. */
  lemma {:induction false} AfterMapRange(vaddr: nat, paddr: nat, np: nat, flags: nat, found: nat, q: Page)
    ensures (forall k: nat :: k < np ==> PageAt(vaddr, k) != q) ==>
              After(MapOps(vaddr, paddr, np, flags), found, q) == found
    ensures forall k: nat :: k < np <= k + 0x10_0000_0000 && PageAt(vaddr, k) == q ==>
              Maps(After(MapOps(vaddr, paddr, np, flags), found, q), Add64(paddr, k * PAGE_SIZE), flags)
  {
    hide Maps, Word, PageOf, Add64, After, Present, AllPresent, Effect;
    if np == 0 {
      NothingAfter(found, q);
    } else {
      WordMaps(Add64(paddr, (np - 1) * PAGE_SIZE), flags);
      AfterMapRange(vaddr, paddr, np - 1, flags, found, q);
      AfterAppend(MapOps(vaddr, paddr, np - 1, flags),
                  Map(Add64(vaddr, (np - 1) * PAGE_SIZE), Add64(paddr, (np - 1) * PAGE_SIZE), flags), found, q);
      MapEffect(Add64(vaddr, (np - 1) * PAGE_SIZE), Add64(paddr, (np - 1) * PAGE_SIZE), flags, q);
      assert PageAt(vaddr, np - 1) == PageOf(Add64(vaddr, (np - 1) * PAGE_SIZE));
      forall k: nat | k < np - 1 && np <= k + 0x10_0000_0000 ensures PageAt(vaddr, k) != PageAt(vaddr, np - 1) {
        RangeDistinct(vaddr, k, np - 1);
      }
    }
  }

  /** `vmm_unmap` of a range: every page of it that was present is gone, all others stay. */
  lemma {:induction false} AfterUnmapRange(vaddr: nat, np: nat, found: nat, q: Page)
    ensures After(UnmapOps(vaddr, np), found, q) ==
            if Present(found) && exists k: nat :: k < np && PageAt(vaddr, k) == q then 0 else found
  {
    if np > 0 {
      AfterUnmapRange(vaddr, np - 1, found, q);
      AfterAppend(UnmapOps(vaddr, np - 1), Unmap(Add64(vaddr, (np - 1) * PAGE_SIZE)), found, q);
      assert PageAt(vaddr, np - 1) == PageOf(Add64(vaddr, (np - 1) * PAGE_SIZE));
    }
  }

  /** What the processor finds after `vmm_map`, in terms of what it found before. */
  lemma MappedRange(vaddr: nat, paddr: nat, np: nat, flags: nat, before: Space, after: Space)
    requires forall q | IsPage(q) :: Lookup(after, q) == After(MapOps(vaddr, paddr, np, flags), Lookup(before, q), q)
    ensures forall k: nat :: k < np <= k + 0x10_0000_0000 ==>
              Maps(Lookup(after, PageAt(vaddr, k)), Add64(paddr, k * PAGE_SIZE), flags)
    ensures forall q | IsPage(q) && (forall k: nat :: k < np ==> PageAt(vaddr, k) != q) ::
              Lookup(after, q) == Lookup(before, q)
  {
    hide Lookup, MapOps, After, Maps, Add64, PageAt;
    forall k: nat | k < np <= k + 0x10_0000_0000
      ensures Maps(Lookup(after, PageAt(vaddr, k)), Add64(paddr, k * PAGE_SIZE), flags)
    {
      AfterMapRange(vaddr, paddr, np, flags, Lookup(before, PageAt(vaddr, k)), PageAt(vaddr, k));
    }
    forall q | IsPage(q) && (forall k: nat :: k < np ==> PageAt(vaddr, k) != q)
      ensures Lookup(after, q) == Lookup(before, q)
    {
      AfterMapRange(vaddr, paddr, np, flags, Lookup(before, q), q);
    }
  }

  /** What it finds after `vmm_unmap`. */
  lemma UnmappedRange(vaddr: nat, np: nat, before: Space, after: Space)
    requires forall q | IsPage(q) :: Lookup(after, q) == After(UnmapOps(vaddr, np), Lookup(before, q), q)
    ensures forall q | IsPage(q) :: Lookup(after, q) ==
              if Present(Lookup(before, q)) && exists k: nat :: k < np && PageAt(vaddr, k) == q then 0
              else Lookup(before, q)
  {
    hide Lookup, UnmapOps, After, PageAt;
    forall q | IsPage(q)
      ensures Lookup(after, q) ==
                if Present(Lookup(before, q)) && exists k: nat :: k < np && PageAt(vaddr, k) == q then 0
                else Lookup(before, q)
    {
      AfterUnmapRange(vaddr, np, Lookup(before, q), q);
    }
  }

  lemma MapEffect(vaddr: nat, paddr: nat, flags: nat, q: Page)
    ensures forall found :: Effect(Map(vaddr, paddr, flags), found, q)
                            == if q == PageOf(vaddr) then Word(paddr, flags) else found
  {
  }

  lemma NothingAfter(found: nat, q: Page)
    ensures After([], found, q) == found
  {
  }

  lemma AfterAppend(ops: seq<Op>, op: Op, found: nat, q: Page)
    ensures After(ops + [op], found, q) == Effect(op, After(ops, found, q), q)
  {
    assert (ops + [op])[..|ops|] == ops;
  }

  lemma RunExtendMap(states: seq<State>, vaddr: nat, paddr: nat, k: nat, flags: nat, t: State)
    requires IsRunOf(states, MapOps(vaddr, paddr, k, flags), k)
    requires Step(states[k], Map(Add64(vaddr, k * PAGE_SIZE), Add64(paddr, k * PAGE_SIZE), flags), t)
    ensures IsRunOf(states + [t], MapOps(vaddr, paddr, k + 1, flags), k + 1)
  {
    RunExtend(states, MapOps(vaddr, paddr, k, flags),
              Map(Add64(vaddr, k * PAGE_SIZE), Add64(paddr, k * PAGE_SIZE), flags), t);
  }

  lemma RunExtendUnmap(states: seq<State>, vaddr: nat, k: nat, t: State)
    requires IsRunOf(states, UnmapOps(vaddr, k), k)
    requires Step(states[k], Unmap(Add64(vaddr, k * PAGE_SIZE)), t)
    ensures IsRunOf(states + [t], UnmapOps(vaddr, k + 1), k + 1)
  {
    RunExtend(states, UnmapOps(vaddr, k), Unmap(Add64(vaddr, k * PAGE_SIZE)), t);
  }
}
