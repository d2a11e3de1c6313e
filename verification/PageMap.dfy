/** The 4-level page table of kernel/core/mm.c on values: what the table memory denotes, the
    invariant that ties the radix tree to a directory of tables, and the tree edits that
    `map_page` and `unmap_page` are made of.  Module `AddrSpace` holds the methods. */
module PageMap {
  import opened Common

  const ENTRIES: nat := 512

  /** VMM_FLAGS_USERMODE: present, read-write, user. */
  const USERMODE: nat := 7

  // ----- 64-bit words -----

  /** Bitwise or of two words. */
  function BitOr(x: nat, y: nat): nat
    decreases x + y
  {
    if x == 0 && y == 0 then 0
    else 2 * BitOr(x / 2, y / 2) + (if x % 2 == 1 || y % 2 == 1 then 1 else 0)
  }

  /** `address & ~0xfff`. */
  function PageBase(address: nat): nat {
    address - address % PAGE_SIZE
  }

  /** `address & ~0x1ff`, the narrower mask that `unmap_page` uses. */
  function NarrowBase(address: nat): nat {
    address - address % 512
  }

  /** MAKE_TABLE_ENTRY. */
  function MakeEntry(address: nat, flags: nat): nat {
    BitOr(PageBase(address), flags)
  }

  /** `entry & VMM_FLAG_PRESENT`. */
  predicate Present(entry: nat) {
    entry % 2 == 1
  }

  lemma {:induction false} BitOrZero(x: nat, y: nat)
    ensures BitOr(x, y) == 0 <==> x == 0 && y == 0
    decreases x + y
  {
    if x != 0 || y != 0 {
      BitOrZero(x / 2, y / 2);
    }
  }

  lemma {:induction false} BitOrWidth(x: nat, y: nat, bound: nat)
    requires bound > 0 && x < Pow2(bound) && y < Pow2(bound)
    ensures BitOr(x, y) < Pow2(bound)
    decreases bound
  {
    if bound > 1 {
      BitOrWidth(x / 2, y / 2, bound - 1);
    }
  }

  function Pow2(n: nat): nat {
    if n == 0 then 1 else 2 * Pow2(n - 1)
  }

  function ShiftLeft(x: nat, n: nat): nat {
    if n == 0 then x else 2 * ShiftLeft(x, n - 1)
  }

  /** Where the low bits of the address are clear, `|` is addition. */
  lemma {:induction false} BitOrDisjoint(high: nat, low: nat, width: nat)
    requires low < Pow2(width)
    ensures BitOr(ShiftLeft(high, width), low) == ShiftLeft(high, width) + low
    decreases width
  {
    if width == 0 {
      BitOrIdentity(high);
    } else {
      var half := ShiftLeft(high, width - 1);
      BitOrDisjoint(high, low / 2, width - 1);
      BitOrStep(2 * half, low);
    }
  }

  lemma BitOrStep(x: nat, y: nat)
    ensures BitOr(x, y) == 2 * BitOr(x / 2, y / 2) + (if x % 2 == 1 || y % 2 == 1 then 1 else 0)
  {
    BitOrZero(x, y);
  }

  lemma {:induction false} BitOrIdentity(x: nat)
    ensures BitOr(x, 0) == x
  {
    if x != 0 {
      BitOrIdentity(x / 2);
    }
  }

  /** Bit `i` of a word. */
  predicate Bit(x: nat, i: nat)
    decreases i
  {
    if i == 0 then x % 2 == 1 else Bit(x / 2, i - 1)
  }

  /** `BitOr` is the or of the bits. */
  lemma {:induction false} BitOrBits(x: nat, y: nat, i: nat)
    ensures Bit(BitOr(x, y), i) <==> Bit(x, i) || Bit(y, i)
    decreases i
  {
    hide BitOr;
    BitOrHalves(x, y);
    if i > 0 {
      BitOrBits(x / 2, y / 2, i - 1);
    }
  }

  lemma BitOrHalves(x: nat, y: nat)
    ensures BitOr(x, y) / 2 == BitOr(x / 2, y / 2)
    ensures BitOr(x, y) % 2 == 1 <==> x % 2 == 1 || y % 2 == 1
  {
    BitOrStep(x, y);
    hide BitOr;
    Halves(BitOr(x / 2, y / 2), if x % 2 == 1 || y % 2 == 1 then 1 else 0);
  }

  lemma Halves(h: nat, b: nat)
    requires b < 2
    ensures (2 * h + b) / 2 == h && (2 * h + b) % 2 == b
  {
  }

  /** `PageBase` clears bits 0 to 11 and keeps the others. */
  lemma PageBaseBits(x: nat, i: nat)
    ensures Bit(PageBase(x), i) <==> 12 <= i && Bit(x, i)
  {
    var f := x / 4096;
    assert PageBase(x) == 4096 * f;
    TwelveUp(f, i);
    if i >= 12 {
      TwelveDown(x, i - 12);
    }
  }

  lemma TwelveUp(f: nat, i: nat)
    ensures Bit(4096 * f, i) <==> 12 <= i && Bit(f, i - 12)
  {
    hide Bit;
    ThreeUp(512 * f, i);
    if i >= 3 {
      ThreeUp(64 * f, i - 3);
    }
    if i >= 6 {
      ThreeUp(8 * f, i - 6);
    }
    if i >= 9 {
      ThreeUp(f, i - 9);
    }
  }

  lemma ThreeUp(f: nat, i: nat)
    ensures Bit(8 * f, i) <==> 3 <= i && Bit(f, i - 3)
  {
    OneUp(4 * f, i);
    if i >= 1 {
      OneUp(2 * f, i - 1);
    }
    if i >= 2 {
      OneUp(f, i - 2);
    }
  }

  lemma OneUp(f: nat, i: nat)
    ensures Bit(2 * f, i) <==> 1 <= i && Bit(f, i - 1)
  {
  }

  lemma TwelveDown(x: nat, j: nat)
    ensures Bit(x / 4096, j) <==> Bit(x, j + 12)
  {
    hide Bit;
    ThreeDown(x, j + 9);
    ThreeDown(x / 8, j + 6);
    ThreeDown(x / 64, j + 3);
    ThreeDown(x / 512, j);
    assert x / 8 / 8 == x / 64 && x / 64 / 8 == x / 512 && x / 512 / 8 == x / 4096;
  }

  lemma ThreeDown(x: nat, j: nat)
    ensures Bit(x / 8, j) <==> Bit(x, j + 3)
  {
    assert x / 2 / 2 == x / 4 && x / 4 / 2 == x / 8;
    assert Bit(x, j + 3) == Bit(x / 2, j + 2) && Bit(x / 2, j + 2) == Bit(x / 4, j + 1);
  }

  /** The entry of a table at frame `f`: its base is the frame, and because its flags are
      below 512 the narrow mask of `unmap_page` recovers the same base. */
  lemma TableEntry(f: nat)
    ensures MakeEntry(f * PAGE_SIZE, USERMODE) == Entry(f)
    ensures Present(Entry(f)) && PageBase(Entry(f)) == NarrowBase(Entry(f)) == f * PAGE_SIZE
    ensures Entry(f) == 4096 * f + 7
  {
    EntryBases(f);
    EightfoldShift(f * 512);
    BitOrDisjoint(f * 512, USERMODE, 3);
    hide BitOr, ShiftLeft, Pow2, PageBase, NarrowBase;
  }

  lemma EntryBases(f: nat)
    ensures PageBase(f * PAGE_SIZE) == f * PAGE_SIZE
    ensures PageBase(Entry(f)) == NarrowBase(Entry(f)) == f * PAGE_SIZE
  {
    MasksAgree(Entry(f));
  }

  lemma EightfoldShift(x: nat)
    ensures ShiftLeft(x, 3) == 8 * x && Pow2(3) == 8
  {
    assert ShiftLeft(x, 1) == 2 * x && Pow2(1) == 2;
    assert ShiftLeft(x, 2) == 4 * x && Pow2(2) == 4;
  }

  /** The word the tables hold for a child table at frame `f`. */
  function Entry(f: nat): (e: nat)
    ensures Present(e) && e % PAGE_SIZE == USERMODE && e / PAGE_SIZE == f
  {
    f * PAGE_SIZE + USERMODE
  }

  /** The two masks agree on an entry exactly when its low twelve bits are below 512. */
  lemma MasksAgree(entry: nat)
    ensures NarrowBase(entry) == PageBase(entry) <==> entry % PAGE_SIZE < 512
  {
    LowBits(entry / PAGE_SIZE, entry % PAGE_SIZE);
    assert entry == 4096 * (entry / PAGE_SIZE) + entry % PAGE_SIZE;
  }

  lemma LowBits(q: nat, r: nat)
    requires r < 4096
    ensures (4096 * q + r) % 512 == r % 512 && (r % 512 == r <==> r < 512)
  {
    assert 4096 * q + r == 512 * (8 * q + r / 512) + r % 512;
    SmallRemainder(8 * q + r / 512, r % 512);
  }

  lemma SmallRemainder(q: nat, r: nat)
    requires r < 512
    ensures (512 * q + r) % 512 == r
  {
  }

  /** Clearing the low bits twice is clearing them once. */
  lemma PageBaseTwice(address: nat)
    ensures PageBase(PageBase(address)) == PageBase(address)
    ensures PageBase(address) == 0 <==> address < PAGE_SIZE
  {
    var q := address / PAGE_SIZE;
    assert PageBase(address) == 4096 * q;
    Multiple(q);
  }

  lemma Multiple(q: nat)
    ensures 4096 * q % 4096 == 0
  {
  }

  // ----- pages and table positions -----

  /** The four table indices of a virtual address. */
  datatype Page = Page(pml4e: nat, pdpe: nat, pde: nat, pte: nat)

  predicate IsPage(q: Page) {
    q.pml4e < ENTRIES && q.pdpe < ENTRIES && q.pde < ENTRIES && q.pte < ENTRIES
  }

  /** The position of a table in the radix tree: the indices followed from the PML4. */
  datatype Path = Root | Sub(parent: Path, index: nat)

  function Depth(p: Path): nat {
    match p
    case Root => 0
    case Sub(q, _) => 1 + Depth(q)
  }

  function PdptPath(q: Page): Path { Sub(Root, q.pml4e) }
  function PdPath(q: Page): Path { Sub(PdptPath(q), q.pdpe) }
  function PtPath(q: Page): Path { Sub(PdPath(q), q.pde) }

  // ----- the memory of the tables -----

  type Memory = seq<seq<nat>>

  /** Table memory together with the directory of the tables in it: position to frame. */
  datatype Space = Space(mem: Memory, dir: map<Path, nat>)

  /** A table after `memset(table, 0, PAGE_SIZE)`. */
  function ZeroTable(): (t: seq<nat>)
    ensures |t| == ENTRIES && forall i :: 0 <= i < ENTRIES ==> t[i] == 0
  {
    seq(ENTRIES, _ => 0)
  }

  predicate IsTable(mem: Memory, f: nat) {
    f < |mem| && |mem[f]| == ENTRIES
  }

  /** What a directory slot holds: the entry of the child table, or zero. */
  function Slot(dir: map<Path, nat>, p: Path): nat {
    if p in dir then Entry(dir[p]) else 0
  }

  /** The directory is a tree of depth 3 of pairwise distinct frames. */
  ghost predicate Shape(dir: map<Path, nat>) {
    && Root in dir
    && (forall p :: p in dir ==> Depth(p) <= 3)
    && (forall p, i: nat :: Sub(p, i) in dir ==> p in dir && i < ENTRIES)
    && (forall p, q :: p in dir && q in dir && dir[p] == dir[q] ==> p == q)
  }

  ghost predicate Placed(mem: Memory, dir: map<Path, nat>) {
    forall p :: p in dir ==> IsTable(mem, dir[p])
  }

  /** Every entry above the leaf level is exactly its child's, or zero. */
  ghost predicate Linked(mem: Memory, dir: map<Path, nat>)
    requires Placed(mem, dir)
  {
    forall p, i: nat :: p in dir && Depth(p) < 3 && i < ENTRIES ==> mem[dir[p]][i] == Slot(dir, Sub(p, i))
  }

  /** The tree in memory is the one the directory describes: the tables are distinct frames,
      each but the PML4 has its parent, and there are no other links. */
  ghost predicate Wf(s: Space) {
    Shape(s.dir) && Placed(s.mem, s.dir) && Linked(s.mem, s.dir)
  }

  /** The table at `p` has a non-zero entry. */
  ghost predicate Occupied(s: Space, p: Path)
    requires p in s.dir
  {
    IsTable(s.mem, s.dir[p]) && exists i: nat :: i < ENTRIES && s.mem[s.dir[p]][i] != 0
  }

  /** Every table but the PML4, and those in `except`, is occupied. */
  ghost predicate NoEmpty(s: Space, except: set<Path>) {
    forall p :: p in s.dir && p != Root && p !in except ==> Occupied(s, p)
  }

  // ----- the flat map -----

  /** What the processor finds: follow present entries from frame `pml4`; 0 when a level is
      missing. */
  function Walk(mem: Memory, pml4: nat, q: Page): nat
    requires IsPage(q)
  {
    var pdpt := Read(mem, pml4, q.pml4e);
    if !Present(pdpt) then 0 else
      var pd := Read(mem, PageBase(pdpt) / PAGE_SIZE, q.pdpe);
      if !Present(pd) then 0 else
        var pt := Read(mem, PageBase(pd) / PAGE_SIZE, q.pde);
        if !Present(pt) then 0 else
          Read(mem, PageBase(pt) / PAGE_SIZE, q.pte)
  }

  /** A word of memory; positions outside of it read as zero. */
  function Read(mem: Memory, f: nat, i: nat): nat {
    if f < |mem| && i < |mem[f]| then mem[f][i] else 0
  }

  function Lookup(s: Space, q: Page): nat
    requires IsPage(q)
  {
    if PtPath(q) in s.dir then Read(s.mem, s.dir[PtPath(q)], q.pte) else 0
  }

  /** The processor's walk finds exactly the leaf word of the directory. */
  lemma WalkIsLookup(s: Space, q: Page)
    requires Wf(s) && IsPage(q)
    ensures Walk(s.mem, s.dir[Root], q) == Lookup(s, q)
  {
    hide Entry;
    if PdptPath(q) in s.dir {
      if PdPath(q) in s.dir {
        assert Depth(PdPath(q)) == 2;
      }
    }
  }

  // ----- the edits -----

  /** Memory after writing one word. */
  function Poke(mem: Memory, f: nat, i: nat, word: nat): Memory
    requires f < |mem| && i < |mem[f]|
  {
    mem[f := PokeTable(mem[f], i, word)]
  }

  function PokeTable(table: seq<nat>, i: nat, word: nat): seq<nat>
    requires i < |table|
  {
    table[i := word]
  }

  /** Hang a zeroed table at frame `f` under entry `i` of the table at `p`. */
  function AddTable(s: Space, p: Path, i: nat, f: nat): Space
    requires p in s.dir && s.dir[p] < |s.mem| && f < |s.mem| && i < |s.mem[s.dir[p]]| && f != s.dir[p]
  {
    Space(Poke(s.mem[f := ZeroTable()], s.dir[p], i, Entry(f)), s.dir[Sub(p, i) := f])
  }

  /** Write the leaf entry `i` of the table at `p`. */
  function WriteLeaf(s: Space, p: Path, i: nat, word: nat): Space
    requires p in s.dir && s.dir[p] < |s.mem| && i < |s.mem[s.dir[p]]|
  {
    Space(Poke(s.mem, s.dir[p], i, word), s.dir)
  }

  /** Clear entry `i` of the table at `p` and forget the table it led to. */
  function DropTable(s: Space, p: Path, i: nat): Space
    requires p in s.dir && s.dir[p] < |s.mem| && i < |s.mem[s.dir[p]]|
  {
    Space(Poke(s.mem, s.dir[p], i, 0), s.dir - {Sub(p, i)})
  }

  lemma AddTableKeepsWf(s: Space, p: Path, i: nat, f: nat)
    requires Wf(s) && p in s.dir && Depth(p) < 3 && i < ENTRIES && Sub(p, i) !in s.dir
    requires f < |s.mem| && f !in s.dir.Values
    ensures Wf(AddTable(s, p, i, f))
  {
    var t := AddTable(s, p, i, f);
    ShapeAdd(s.dir, Sub(p, i), f);
    assert Placed(t.mem, t.dir);
    forall q, j: nat | q in t.dir && Depth(q) < 3 && j < ENTRIES
      ensures t.mem[t.dir[q]][j] == Slot(t.dir, Sub(q, j))
    {
      if q == Sub(p, i) {
        assert Sub(q, j) !in s.dir;
      } else {
        AddTableElsewhere(s, p, i, f, q, j);
      }
    }
  }

  lemma AddTableElsewhere(s: Space, p: Path, i: nat, f: nat, q: Path, j: nat)
    requires Wf(s) && p in s.dir && Depth(p) < 3 && i < ENTRIES && Sub(p, i) !in s.dir
    requires f < |s.mem| && f !in s.dir.Values && q in s.dir && Depth(q) < 3 && j < ENTRIES
    ensures var t := AddTable(s, p, i, f);
            IsTable(t.mem, t.dir[q]) && t.mem[t.dir[q]][j] == Slot(t.dir, Sub(q, j))
  {
    assert s.mem[s.dir[q]][j] == Slot(s.dir, Sub(q, j));
    assert s.dir[q] in s.dir.Values;
    if q != p {
      DistinctTables(s, p, q);
    }
    hide Shape, Linked, Depth;
  }

  lemma ShapeAdd(dir: map<Path, nat>, n: Path, f: nat)
    requires Shape(dir) && n.Sub? && n !in dir && n.parent in dir && Depth(n) <= 3 && n.index < ENTRIES
    requires f !in dir.Values
    ensures Shape(dir[n := f])
  {
    forall q | q in dir ensures dir[q] != f {
      assert dir[q] in dir.Values;
    }
  }

  lemma ShapeDrop(dir: map<Path, nat>, n: Path)
    requires Shape(dir) && n.Sub? && forall j: nat :: Sub(n, j) !in dir
    ensures Shape(dir - {n})
  {
  }

  /** A new table is all zero, so no page gains or loses a mapping. */
  lemma AddTableKeepsLookup(s: Space, p: Path, i: nat, f: nat, q: Page)
    requires Wf(s) && p in s.dir && Depth(p) < 3 && i < ENTRIES && Sub(p, i) !in s.dir
    requires f < |s.mem| && f !in s.dir.Values && IsPage(q)
    ensures Lookup(AddTable(s, p, i, f), q) == Lookup(s, q)
  {
    var leaf := PtPath(q);
    LeafDepth(q);
    TableAt(s, p);
    if leaf in s.dir {
      assert s.dir[leaf] in s.dir.Values;
      TableAt(s, leaf);
      DistinctTables(s, p, leaf);
      hide Wf, Depth, Entry;
      assert Read(AddTable(s, p, i, f).mem, s.dir[leaf], q.pte) == Read(s.mem, s.dir[leaf], q.pte);
    } else {
      hide Wf, Depth, Entry;
    }
  }

  lemma LeafDepth(q: Page)
    ensures Depth(PtPath(q)) == 3
  {
    assert Depth(PdptPath(q)) == 1;
    assert Depth(PdPath(q)) == 2;
  }

  lemma TreeShape(s: Space)
    requires Wf(s)
    ensures Shape(s.dir)
  {
  }

  lemma TableAt(s: Space, p: Path)
    requires Wf(s) && p in s.dir
    ensures IsTable(s.mem, s.dir[p]) && Depth(p) <= 3
  {
  }

  lemma DistinctTables(s: Space, p: Path, q: Path)
    requires Wf(s) && p in s.dir && q in s.dir && p != q
    ensures s.dir[p] != s.dir[q]
  {
  }

  lemma WriteLeafKeepsWf(s: Space, p: Path, i: nat, word: nat)
    requires Wf(s) && p in s.dir && Depth(p) == 3 && i < ENTRIES
    ensures Wf(WriteLeaf(s, p, i, word))
  {
  }

  lemma WriteLeafLookup(s: Space, q: Page, word: nat, r: Page)
    requires Wf(s) && IsPage(q) && IsPage(r) && PtPath(q) in s.dir
    ensures Lookup(WriteLeaf(s, PtPath(q), q.pte, word), r) == if r == q then word else Lookup(s, r)
  {
  }

  lemma ShapeAt(dir: map<Path, nat>, p: Path, i: nat)
    requires Shape(dir) && Sub(p, i) in dir
    ensures p in dir && Depth(p) < 3 && i < ENTRIES
  {
    assert Depth(Sub(p, i)) <= 3;
  }

  /** A table whose entries are all zero has no children, so it can be unlinked. */
  lemma DropTableKeepsWf(s: Space, p: Path, i: nat)
    requires Wf(s) && Sub(p, i) in s.dir && !Occupied(s, Sub(p, i))
    ensures p in s.dir && Wf(DropTable(s, p, i))
  {
    NoChildren(s, Sub(p, i));
    ShapeDrop(s.dir, Sub(p, i));
    ShapeAt(s.dir, p, i);
    hide Shape, Entry, Occupied;
    var t := DropTable(s, p, i);
    forall q, j: nat | q in t.dir && Depth(q) < 3 && j < ENTRIES
      ensures t.mem[t.dir[q]][j] == Slot(t.dir, Sub(q, j))
    {
      assert s.mem[s.dir[q]][j] == Slot(s.dir, Sub(q, j));
      if q != p {
        DistinctTables(s, p, q);
      }
    }
  }

  lemma NoChildren(s: Space, n: Path)
    requires Wf(s) && n in s.dir && !Occupied(s, n)
    ensures forall j: nat :: Sub(n, j) !in s.dir
  {
    forall j: nat | Sub(n, j) in s.dir ensures false {
      ChildOccupies(s, n, j);
    }
  }

  lemma ChildOccupies(s: Space, n: Path, j: nat)
    requires Wf(s) && n in s.dir && Sub(n, j) in s.dir
    ensures Occupied(s, n)
  {
    assert Depth(Sub(n, j)) <= 3;
    assert s.mem[s.dir[n]][j] == Slot(s.dir, Sub(n, j));
  }

  lemma DropTableKeepsLookup(s: Space, p: Path, i: nat, q: Page)
    requires Wf(s) && Sub(p, i) in s.dir && !Occupied(s, Sub(p, i)) && IsPage(q)
    ensures p in s.dir && Lookup(DropTable(s, p, i), q) == Lookup(s, q)
  {
    var leaf := PtPath(q);
    assert Depth(leaf) == 3 && Depth(p) < 3;
    if leaf in s.dir {
      assert s.dir[p] != s.dir[leaf];
      if leaf == Sub(p, i) {
        assert s.mem[s.dir[leaf]][q.pte] == 0;
      }
    }
  }

  // ----- which edits keep every table occupied -----

  lemma AddTableNoEmpty(s: Space, p: Path, i: nat, f: nat, except: set<Path>)
    requires Wf(s) && p in s.dir && Depth(p) < 3 && i < ENTRIES && Sub(p, i) !in s.dir
    requires f < |s.mem| && f !in s.dir.Values && NoEmpty(s, except)
    ensures NoEmpty(AddTable(s, p, i, f), except - {p} + {Sub(p, i)})
  {
    var t := AddTable(s, p, i, f);
    forall q | q in t.dir && q != Root && q !in except - {p} + {Sub(p, i)} ensures Occupied(t, q) {
      assert s.dir[q] in s.dir.Values;
      if q == p {
        assert t.mem[t.dir[q]][i] != 0;
      } else {
        assert Occupied(s, q) && t.mem[t.dir[q]] == s.mem[s.dir[q]];
      }
    }
  }

  lemma WriteLeafNoEmpty(s: Space, p: Path, i: nat, word: nat, except: set<Path>)
    requires Wf(s) && p in s.dir && Depth(p) == 3 && i < ENTRIES && NoEmpty(s, except)
    ensures NoEmpty(WriteLeaf(s, p, i, word), if word != 0 then except - {p} else except + {p})
  {
    var t := WriteLeaf(s, p, i, word);
    assert word != 0 ==> t.mem[t.dir[p]][i] != 0;
    forall q | q in t.dir && q != Root && q != p && q !in except ensures Occupied(t, q) {
      assert Occupied(s, q) && t.mem[t.dir[q]] == s.mem[s.dir[q]];
    }
  }

  lemma DropTableNoEmpty(s: Space, p: Path, i: nat)
    requires Wf(s) && Sub(p, i) in s.dir && !Occupied(s, Sub(p, i)) && NoEmpty(s, {Sub(p, i)})
    ensures p in s.dir && NoEmpty(DropTable(s, p, i), {p})
  {
    var t := DropTable(s, p, i);
    forall q | q in t.dir && q != Root && q != p ensures Occupied(t, q) {
      assert Occupied(s, q) && t.mem[t.dir[q]] == s.mem[s.dir[q]];
    }
  }

  // ----- the directory is a function of the flat map -----

  /** `p` is one of the three tables that the walk of `q` passes below the PML4. */
  predicate OnWalk(p: Path, q: Page) {
    p == PdptPath(q) || p == PdPath(q) || p == PtPath(q)
  }

  /** The page `q` has a leaf entry and its walk passes the table at `p`. */
  ghost predicate Reaches(s: Space, p: Path, q: Page) {
    IsPage(q) && OnWalk(p, q) && Lookup(s, q) != 0
  }

  /** From any occupied table some mapped page can be reached. */
  lemma SomePageBelow(s: Space, p: Path) returns (q: Page)
    requires Wf(s) && NoEmpty(s, {}) && p in s.dir && p != Root
    ensures Reaches(s, p, q)
    decreases 3 - Depth(p)
  {
    assert Occupied(s, p);
    var i: nat :| i < ENTRIES && s.mem[s.dir[p]][i] != 0;
    if Depth(p) == 3 {
      q := LeafPage(s, p, i);
    } else {
      assert Sub(p, i) in s.dir;
      q := SomePageBelow(s, Sub(p, i));
      StepUp(s, p, i, q);
    }
  }

  lemma LeafPage(s: Space, p: Path, i: nat) returns (q: Page)
    requires Wf(s) && p in s.dir && Depth(p) == 3 && i < ENTRIES && s.mem[s.dir[p]][i] != 0
    ensures Reaches(s, p, q)
  {
    var pd := p.parent;
    var pdpt := pd.parent;
    assert Depth(pd) == 2 && Depth(pdpt) == 1 && Depth(pdpt.parent) == 0;
    q := Page(pdpt.index, pd.index, p.index, i);
  }

  lemma StepUp(s: Space, p: Path, i: nat, q: Page)
    requires Wf(s) && p in s.dir && p != Root && Reaches(s, Sub(p, i), q)
    ensures Reaches(s, p, q)
  {
    assert Depth(PdptPath(q)) == 1;
  }

  lemma TablesOnWalk(s: Space, p: Path, q: Page)
    requires Wf(s) && Reaches(s, p, q)
    ensures p in s.dir
  {
    assert PtPath(q) in s.dir;
    assert PdPath(q) in s.dir;
    assert PdptPath(q) in s.dir;
  }

  /** With no empty table, the tables are exactly those some mapped page needs. */
  lemma TablesAreNeeded(s: Space, p: Path)
    requires Wf(s) && NoEmpty(s, {}) && p != Root
    ensures p in s.dir <==> exists q :: Reaches(s, p, q)
  {
    if p in s.dir {
      var q := SomePageBelow(s, p);
    }
    forall q | Reaches(s, p, q) ensures p in s.dir {
      TablesOnWalk(s, p, q);
    }
  }

  ghost predicate SameMap(s: Space, t: Space) {
    forall q | IsPage(q) :: Lookup(s, q) == Lookup(t, q)
  }

  /** Two table trees without empty tables that map the same pages have the same tables, and
      hence the same number of them, however they were built. */
  lemma SameMapSameTables(s: Space, t: Space)
    requires Wf(s) && Wf(t) && NoEmpty(s, {}) && NoEmpty(t, {}) && SameMap(s, t)
    ensures s.dir.Keys == t.dir.Keys && |s.dir| == |t.dir|
  {
    forall p ensures p in s.dir <==> p in t.dir {
      if p != Root {
        TablesAreNeeded(s, p);
        TablesAreNeeded(t, p);
        assert forall q :: Reaches(s, p, q) <==> Reaches(t, p, q);
      }
    }
    assert s.dir.Keys == t.dir.Keys;
    assert |s.dir| == |s.dir.Keys| && |t.dir| == |t.dir.Keys|;
  }
}
