/** The copy of the FAT on disk: which of its 512-byte sectors fat32_write refreshes when it
    links a cluster (kernel/fs/fat32.c:191-210), and when that is enough. */
module FatDisk {
  import opened FatChain

  newtype byte = x: int | 0 <= x < 256

  const TWO32: nat := 0x1_0000_0000

  /** Byte `j` of a 32-bit entry, least significant first. */
  function EntryByte(v: nat, j: nat): byte {
    match j
    case 0 => (v % 256) as byte
    case 1 => (v / 0x100 % 256) as byte
    case 2 => (v / 0x1_0000 % 256) as byte
    case _ => (v / 0x100_0000 % 256) as byte
  }

  lemma EntryBytesDiffer(v: nat, w: nat)
    requires v < TWO32 && w < TWO32 && v != w
    ensures exists j :: 0 <= j < 4 && EntryByte(v, j) != EntryByte(w, j)
  {
    if forall j :: 0 <= j < 4 ==> EntryByte(v, j) == EntryByte(w, j) {
      assert EntryByte(v, 0) == EntryByte(w, 0) && EntryByte(v, 1) == EntryByte(w, 1);
      assert EntryByte(v, 2) == EntryByte(w, 2) && EntryByte(v, 3) == EntryByte(w, 3);
      FourBytes(v);
      FourBytes(w);
      assert false;
    }
  }

  lemma FourBytes(v: nat)
    requires v < TWO32
    ensures v == v % 256 + 0x100 * (v / 0x100 % 256) + 0x1_0000 * (v / 0x1_0000 % 256)
                 + 0x100_0000 * (v / 0x100_0000 % 256)
  {
    var a := v / 0x100;
    var b := v / 0x1_0000;
    assert b == a / 0x100 && v / 0x100_0000 == b / 0x100;
  }

  /** The bytes of sector `k` of the FAT. */
  function SectorBytes(fat: Fat, k: nat): seq<byte>
    requires 128 * (k + 1) <= |fat|
  {
    seq(512, (j: nat) requires j < 512 => EntryByte(fat[128 * k + j / 4], j % 4))
  }

  /** Entry `c` determines bytes of sector `c / 128` and of no other. */
  lemma SectorChanges(before: Fat, after: Fat, k: nat)
    requires |before| == |after| && 128 * (k + 1) <= |before|
    requires forall c :: 0 <= c < |before| ==> before[c] < TWO32 && after[c] < TWO32
    ensures SectorBytes(before, k) == SectorBytes(after, k) <==>
            forall c :: 128 * k <= c < 128 * (k + 1) ==> before[c] == after[c]
  {
    if SectorBytes(before, k) == SectorBytes(after, k) {
      forall c | 128 * k <= c < 128 * (k + 1) ensures before[c] == after[c] {
        if before[c] != after[c] {
          EntryBytesDiffer(before[c], after[c]);
          var j :| 0 <= j < 4 && EntryByte(before[c], j) != EntryByte(after[c], j);
          ByteAt(before, k, c - 128 * k, j);
          ByteAt(after, k, c - 128 * k, j);
          assert false;
        }
      }
    }
  }

  lemma ByteAt(fat: Fat, k: nat, i: nat, j: nat)
    requires 128 * (k + 1) <= |fat| && i < 128 && j < 4
    ensures SectorBytes(fat, k)[4 * i + j] == EntryByte(fat[128 * k + i], j)
  {
    assert (4 * i + j) / 4 == i && (4 * i + j) % 4 == j;
  }

  /** DIV_ROUNDUP(cluster * 4, 512): one more than the sector that is written. */
  function RoundedSector(cluster: nat): nat {
    (cluster * 4 + 511) / 512
  }

  /** The sector written is the one that holds the entry exactly when 128 does not divide the
      cluster number; otherwise it is the one before. */
  lemma WrittenSector(cluster: nat)
    ensures RoundedSector(cluster) == cluster / 128 + (if cluster % 128 != 0 then 1 else 0)
    ensures RoundedSector(cluster) - 1 == cluster / 128 <==> cluster % 128 != 0
  {
  }

  type Disk = seq<seq<byte>>

  /** Memory and disk hold the same FAT. */
  ghost predicate Agree(fat: Fat, disk: Disk) {
    |fat| == 128 * |disk| && forall k :: 0 <= k < |disk| ==> disk[k] == SectorBytes(fat, k)
  }

  // ----- reading the disk -----

  /** All sectors have 512 bytes. */
  ghost predicate Sectors(disk: Disk) {
    forall k :: 0 <= k < |disk| ==> |disk[k]| == 512
  }

  /** Entry `c` as a mount reads it: four bytes of sector `c / 128`, least significant first. */
  function EntryOnDisk(disk: Disk, c: nat): nat
    requires c < 128 * |disk| && Sectors(disk)
  {
    var b, at := disk[c / 128], 4 * (c % 128);
    b[at] as nat + 0x100 * b[at + 1] as nat + 0x1_0000 * b[at + 2] as nat + 0x100_0000 * b[at + 3] as nat
  }

  /** The table that a mount reads from the disk. */
  function Mounted(disk: Disk): (fat: Fat)
    requires Sectors(disk)
    ensures |fat| == 128 * |disk| && forall c :: 0 <= c < |fat| ==> fat[c] == EntryOnDisk(disk, c)
  {
    seq(128 * |disk|, c requires 0 <= c < 128 * |disk| => EntryOnDisk(disk, c))
  }

  /** A sector written from memory reads back as the entries it was written from. */
  lemma SectorRead(fat: Fat, disk: Disk, c: nat)
    requires Sectors(disk) && c < |fat| == 128 * |disk| && fat[c] < TWO32
    requires disk[c / 128] == SectorBytes(fat, c / 128)
    ensures EntryOnDisk(disk, c) == fat[c]
  {
    var k, i := c / 128, c % 128;
    ByteAt(fat, k, i, 0);
    ByteAt(fat, k, i, 1);
    ByteAt(fat, k, i, 2);
    ByteAt(fat, k, i, 3);
    hide SectorBytes;
    BytesOfEntry(fat[c]);
  }

  lemma BytesOfEntry(v: nat)
    requires v < TWO32
    ensures EntryByte(v, 0) as nat + 0x100 * EntryByte(v, 1) as nat + 0x1_0000 * EntryByte(v, 2) as nat
            + 0x100_0000 * EntryByte(v, 3) as nat == v
  {
    FourBytes(v);
  }

  /** Bytes of a sector that reads as the entries are the ones that would be written. */
  lemma SectorFromEntries(fat: Fat, disk: Disk, k: nat)
    requires Sectors(disk) && |fat| == 128 * |disk| && k < |disk|
    requires forall c: nat :: 128 * k <= c < 128 * (k + 1) ==> EntryOnDisk(disk, c) == fat[c] < TWO32
    ensures disk[k] == SectorBytes(fat, k)
  {
    hide EntryOnDisk, EntryByte;
    forall j: nat | j < 512 ensures disk[k][j] == SectorBytes(fat, k)[j] {
      var i, r := j / 4, j % 4;
      assert j == 4 * i + r;
      EntryBytes(disk, k, i, fat[128 * k + i]);
      ByteAt(fat, k, i, r);
    }
  }

  lemma EntryBytes(disk: Disk, k: nat, i: nat, v: nat)
    requires Sectors(disk) && k < |disk| && i < 128 && EntryOnDisk(disk, 128 * k + i) == v
    ensures forall r :: 0 <= r < 4 ==> disk[k][4 * i + r] == EntryByte(v, r)
  {
    hide EntryByte;
    InSector(k, i);
    var b := disk[k];
    BytesUnique(b[4 * i], b[4 * i + 1], b[4 * i + 2], b[4 * i + 3]);
  }

  lemma InSector(k: nat, i: nat)
    requires i < 128
    ensures (128 * k + i) / 128 == k && (128 * k + i) % 128 == i
  {
  }

  lemma BytesUnique(b0: byte, b1: byte, b2: byte, b3: byte)
    ensures var v := b0 as nat + 0x100 * b1 as nat + 0x1_0000 * b2 as nat + 0x100_0000 * b3 as nat;
            EntryByte(v, 0) == b0 && EntryByte(v, 1) == b1 && EntryByte(v, 2) == b2 && EntryByte(v, 3) == b3
  {
    var w3 := b3 as nat;
    var w2 := b2 as nat + 0x100 * w3;
    var w1 := b1 as nat + 0x100 * w2;
    var v := b0 as nat + 0x100 * w1;
    LowestByte(b0 as nat, w1);
    LowestByte(b1 as nat, w2);
    LowestByte(b2 as nat, w3);
    ShiftedBytes(v);
  }

  lemma LowestByte(b: nat, w: nat)
    requires b < 0x100
    ensures (b + 0x100 * w) % 0x100 == b && (b + 0x100 * w) / 0x100 == w
  {
  }

  lemma ShiftedBytes(v: nat)
    ensures v / 0x1_0000 == v / 0x100 / 0x100 && v / 0x100_0000 == v / 0x100 / 0x100 / 0x100
  {
  }

  /** Memory and disk agree exactly when a mount reads every entry as it is in memory. */
  lemma AgreeIsMounted(fat: Fat, disk: Disk)
    requires Sectors(disk) && |fat| == 128 * |disk| && forall c :: 0 <= c < |fat| ==> fat[c] < TWO32
    ensures Agree(fat, disk) <==> Mounted(disk) == fat
    ensures Agree(fat, disk) <==> forall c :: 0 <= c < |fat| ==> EntryOnDisk(disk, c) == fat[c]
  {
    hide SectorBytes, EntryOnDisk;
    if Agree(fat, disk) {
      forall c: nat | c < |fat| ensures EntryOnDisk(disk, c) == fat[c] {
        SectorRead(fat, disk, c);
      }
    }
    if forall c :: 0 <= c < |fat| ==> EntryOnDisk(disk, c) == fat[c] {
      forall k: nat | k < |disk| ensures disk[k] == SectorBytes(fat, k) {
        SectorFromEntries(fat, disk, k);
      }
    }
  }

  function WriteSector(fat: Fat, disk: Disk, k: nat): Disk
    requires |fat| == 128 * |disk| && k < |disk|
  {
    disk[k := SectorBytes(fat, k)]
  }

  /** The sector writes after a link: the tail's sector, and the new cluster's if the rounded
      numbers differ. */
  function FlushLink(fat: Fat, disk: Disk, tail: nat, added: nat): (d: Disk)
    requires |fat| == 128 * |disk| && 0 < tail < |fat| && 0 < added < |fat|
  {
    WrittenSector(tail);
    WrittenSector(added);
    var d := WriteSector(fat, disk, RoundedSector(tail) - 1);
    if RoundedSector(added) != RoundedSector(tail) then WriteSector(fat, d, RoundedSector(added) - 1) else d
  }

  /** The link touches only sectors that get written. */
  predicate Clean(tail: nat, added: nat) {
    (tail % 128 != 0 && added % 128 != 0) || tail / 128 == added / 128
  }

  /** From agreement, one link leads to agreement exactly when it is clean: neither number is
      divisible by 128, or both entries are in one sector. */
  lemma LinkAgreement(fat: Fat, disk: Disk, tail: nat, added: nat)
    requires Agree(fat, disk) && |fat| <= EOC && forall c :: 0 <= c < |fat| ==> fat[c] < TWO32
    requires 2 <= tail < |fat| && 2 <= added < |fat| && fat[tail] == EOC && fat[added] == 0
    ensures Agree(Link(fat, tail, added), FlushLink(Link(fat, tail, added), disk, tail, added))
            <==> Clean(tail, added)
  {
    var after := Link(fat, tail, added);
    var d := FlushLink(after, disk, tail, added);
    forall k | 0 <= k < |disk|
      ensures d[k] == SectorBytes(after, k) <==>
              (k != tail / 128 && k != added / 128) || Written(k, tail, added)
    {
      LinkSector(fat, disk, tail, added, k);
    }
    CleanCovers(tail, added);
    SectorInRange(tail, |disk|);
    SectorInRange(added, |disk|);
    hide SectorBytes, FlushLink, Link, Written, Clean;
    assert |d| == |disk|;
  }

  lemma SectorInRange(c: nat, n: nat)
    requires c < 128 * n
    ensures c / 128 < n
  {
  }

  /** Sector `k` is one of those fat32_write refreshes for the link. */
  predicate Written(k: nat, tail: nat, added: nat) {
    k == RoundedSector(tail) - 1 || k == RoundedSector(added) - 1
  }

  lemma LinkSector(fat: Fat, disk: Disk, tail: nat, added: nat, k: nat)
    requires Agree(fat, disk) && |fat| <= EOC && forall c :: 0 <= c < |fat| ==> fat[c] < TWO32
    requires 2 <= tail < |fat| && 2 <= added < |fat| && fat[tail] == EOC && fat[added] == 0
    requires k < |disk|
    ensures FlushLink(Link(fat, tail, added), disk, tail, added)[k] == SectorBytes(Link(fat, tail, added), k)
            <==> (k != tail / 128 && k != added / 128) || Written(k, tail, added)
  {
    var after := Link(fat, tail, added);
    SectorChanges(fat, after, k);
    if k == tail / 128 {
      assert 128 * k <= tail < 128 * (k + 1) && fat[tail] != after[tail];
    }
    if k == added / 128 {
      assert 128 * k <= added < 128 * (k + 1) && fat[added] != after[added];
    }
    FlushAt(after, disk, tail, added, k);
    hide SectorBytes, FlushLink, Written;
  }

  lemma FlushAt(fat: Fat, disk: Disk, tail: nat, added: nat, k: nat)
    requires |fat| == 128 * |disk| && 0 < tail < |fat| && 0 < added < |fat| && k < |disk|
    ensures var d := FlushLink(fat, disk, tail, added);
            |d| == |disk| && d[k] == if Written(k, tail, added) then SectorBytes(fat, k) else disk[k]
  {
    WrittenSector(tail);
    WrittenSector(added);
    hide SectorBytes, RoundedSector;
  }

  /** A link is clean exactly when both changed sectors are among the written ones. */
  lemma CleanCovers(tail: nat, added: nat)
    requires tail != added
    ensures Clean(tail, added) <==>
            Written(tail / 128, tail, added) && Written(added / 128, tail, added)
  {
    WrittenSector(tail);
    WrittenSector(added);
  }
}
