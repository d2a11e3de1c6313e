/** Sequences of links in the FAT, by one call of fat32_write or by many, and exactly when the
    FAT in memory and the FAT on disk agree after them. */
module FatLinks {
  import opened FatChain
  import opened FatDisk

  /** A cluster appended behind the last cluster of a chain. */
  datatype FatLink = FatLink(tail: nat, added: nat)

  /** The links that append `news` to the chain `ch`. */
  function LinksOf(ch: seq<nat>, news: seq<nat>): (links: seq<FatLink>)
    requires ch != []
    ensures |links| == |news|
  {
    seq(|news|, i requires 0 <= i < |news| => FatLink(if i == 0 then ch[|ch| - 1] else news[i - 1], news[i]))
  }

  lemma LinksAppend(ch: seq<nat>, news: seq<nat>, t: nat)
    requires ch != []
    ensures LinksOf(ch, news + [t]) == LinksOf(ch, news) + [FatLink((ch + news)[|ch + news| - 1], t)]
  {
  }

  /** The links name clusters of the table. */
  ghost predicate InTable(links: seq<FatLink>, n: nat) {
    forall i :: 0 <= i < |links| ==> 2 <= links[i].tail < n && 2 <= links[i].added < n
  }

  lemma InTablePrefix(links: seq<FatLink>, n: nat, m: nat)
    requires InTable(links, n) && m <= |links|
    ensures InTable(links[..m], n)
  {
  }

  /** The FAT in memory after the links. */
  function LinkAll(fat: Fat, links: seq<FatLink>): (r: Fat)
    requires InTable(links, |fat|)
    ensures |r| == |fat|
  {
    if links == [] then fat
    else
      var n := |links| - 1;
      Link(LinkAll(fat, links[..n]), links[n].tail, links[n].added)
  }

  /** The FAT on disk after the links, each followed by its sector writes. */
  function FlushAll(fat: Fat, disk: Disk, links: seq<FatLink>): (r: Disk)
    requires InTable(links, |fat|) && |fat| == 128 * |disk|
    ensures |r| == |disk|
  {
    if links == [] then disk
    else
      var n := |links| - 1;
      FlushKeepsSize(LinkAll(fat, links), FlushAll(fat, disk, links[..n]), links[n]);
      FlushLink(LinkAll(fat, links), FlushAll(fat, disk, links[..n]), links[n].tail, links[n].added)
  }

  lemma FlushKeepsSize(fat: Fat, disk: Disk, l: FatLink)
    requires |fat| == 128 * |disk| && 0 < l.tail < |fat| && 0 < l.added < |fat|
    ensures |FlushLink(fat, disk, l.tail, l.added)| == |disk|
  {
  }

  /** The link appends a free cluster behind the end of a chain. */
  predicate CanLink(fat: Fat, l: FatLink) {
    2 <= l.tail < |fat| && 2 <= l.added < |fat| && fat[l.tail] == EOC && fat[l.added] == 0
  }

  /** Every link does, at its time. */
  ghost predicate Linkable(fat: Fat, links: seq<FatLink>)
    ensures Linkable(fat, links) ==> InTable(links, |fat|)
  {
    links == [] ||
    (var n := |links| - 1;
     Linkable(fat, links[..n]) && CanLink(LinkAll(fat, links[..n]), links[n]))
  }

  lemma {:induction false} LinkablePrefix(fat: Fat, links: seq<FatLink>, m: nat)
    requires Linkable(fat, links) && m <= |links|
    ensures Linkable(fat, links[..m])
    ensures m < |links| ==> CanLink(LinkAll(fat, links[..m]), links[m])
  {
    var n := |links|;
    if m < n {
      assert links[..n - 1][..m] == links[..m];
      if m < n - 1 {
        LinkablePrefix(fat, links[..n - 1], m);
      }
    } else {
      assert links[..m] == links;
    }
  }

  lemma LinkMore(fat: Fat, disk: Disk, links: seq<FatLink>, l: FatLink)
    requires Linkable(fat, links) && CanLink(LinkAll(fat, links), l) && |fat| == 128 * |disk|
    ensures Linkable(fat, links + [l])
    ensures var after := Link(LinkAll(fat, links), l.tail, l.added);
            && LinkAll(fat, links + [l]) == after
            && FlushAll(fat, disk, links + [l]) == FlushLink(after, FlushAll(fat, disk, links), l.tail, l.added)
  {
    assert (links + [l])[..|links|] == links;
  }

  /** Links in two parts. */
  lemma {:induction false} LinksConcat(fat: Fat, disk: Disk, a: seq<FatLink>, b: seq<FatLink>)
    requires Linkable(fat, a) && Linkable(LinkAll(fat, a), b) && |fat| == 128 * |disk|
    ensures Linkable(fat, a + b) && LinkAll(fat, a + b) == LinkAll(LinkAll(fat, a), b)
    ensures FlushAll(fat, disk, a + b) == FlushAll(LinkAll(fat, a), FlushAll(fat, disk, a), b)
    decreases |b|
  {
    hide LinkAll, FlushAll, Linkable, CanLink, Link, FlushLink;
    if b == [] {
      NoLinks(LinkAll(fat, a), FlushAll(fat, disk, a));
      assert a + b == a;
    } else {
      var n := |b| - 1;
      LinkablePrefix(LinkAll(fat, a), b, n);
      LinksConcat(fat, disk, a, b[..n]);
      ConcatMore(fat, disk, a, b[..n], b[n]);
      assert b == b[..n] + [b[n]];
    }
  }

  lemma ConcatMore(fat: Fat, disk: Disk, a: seq<FatLink>, b: seq<FatLink>, l: FatLink)
    requires |fat| == 128 * |disk| && Linkable(fat, a) && Linkable(LinkAll(fat, a), b) && Linkable(fat, a + b)
    requires CanLink(LinkAll(LinkAll(fat, a), b), l)
    requires LinkAll(fat, a + b) == LinkAll(LinkAll(fat, a), b)
    requires FlushAll(fat, disk, a + b) == FlushAll(LinkAll(fat, a), FlushAll(fat, disk, a), b)
    ensures Linkable(LinkAll(fat, a), b + [l]) && Linkable(fat, a + (b + [l]))
    ensures LinkAll(fat, a + (b + [l])) == LinkAll(LinkAll(fat, a), b + [l])
    ensures FlushAll(fat, disk, a + (b + [l])) == FlushAll(LinkAll(fat, a), FlushAll(fat, disk, a), b + [l])
  {
    hide LinkAll, FlushAll, Linkable, Link, FlushLink;
    LinkMore(LinkAll(fat, a), FlushAll(fat, disk, a), b, l);
    LinkMore(fat, disk, a + b, l);
    assert a + (b + [l]) == a + b + [l];
  }

  // ----- what links do to an entry -----

  /** Free, end of a chain, followed by a cluster: an entry only ever moves on. */
  function Rank(v: nat): nat {
    if v == 0 then 0 else if v == EOC then 1 else 2
  }

  lemma LinkRank(fat: Fat, l: FatLink, c: nat)
    requires CanLink(fat, l) && c < |fat| <= EOC
    ensures var after := Link(fat, l.tail, l.added);
            if c == l.tail || c == l.added then Rank(after[c]) > Rank(fat[c]) else after[c] == fat[c]
  {
  }

  lemma {:induction false} RankGrows(fat: Fat, links: seq<FatLink>, m: nat, c: nat)
    requires Linkable(fat, links) && m <= |links| && c < |fat| <= EOC
    ensures InTable(links[..m], |fat|) && Rank(LinkAll(fat, links[..m])[c]) <= Rank(LinkAll(fat, links)[c])
  {
    hide Rank, Link, CanLink;
    LinkablePrefix(fat, links, m);
    var n := |links|;
    if m < n {
      LinkRank(LinkAll(fat, links[..n - 1]), links[n - 1], c);
      assert links[..n - 1][..m] == links[..m];
      RankGrows(fat, links[..n - 1], m, c);
    } else {
      assert links[..m] == links;
    }
  }

  /** The link changes an entry of sector `k`. */
  predicate Touches(l: FatLink, k: nat) {
    k == l.tail / 128 || k == l.added / 128
  }

  /** Sector `k` is written after the link. */
  predicate Refreshes(l: FatLink, k: nat) {
    Written(k, l.tail, l.added)
  }

  ghost predicate Small(fat: Fat) {
    |fat| <= EOC && forall c :: 0 <= c < |fat| ==> fat[c] < TWO32
  }

  lemma {:induction false} LinkAllSmall(fat: Fat, links: seq<FatLink>)
    requires Linkable(fat, links) && Small(fat)
    ensures Small(LinkAll(fat, links))
  {
    if links != [] {
      LinkAllSmall(fat, links[..|links| - 1]);
    }
  }

  /** No link from the `m`-th on touches the sector. */
  ghost predicate QuietSince(links: seq<FatLink>, m: nat, k: nat) {
    forall i :: m <= i < |links| ==> !Touches(links[i], k)
  }

  lemma {:induction false} EntryKept(fat: Fat, links: seq<FatLink>, m: nat, k: nat, c: nat)
    requires Linkable(fat, links) && m <= |links| && c < |fat| && c / 128 == k && QuietSince(links, m, k)
    ensures InTable(links[..m], |fat|) && LinkAll(fat, links[..m])[c] == LinkAll(fat, links)[c]
  {
    var n := |links|;
    if m < n {
      assert !Touches(links[n - 1], k);
      assert links[..n - 1][..m] == links[..m];
      EntryKept(fat, links[..n - 1], m, k, c);
    } else {
      assert links[..m] == links;
    }
  }

  /** An entry that a link touches is different from then on from what it was before. */
  lemma EntryMoved(fat: Fat, links: seq<FatLink>, m: nat, i: nat, c: nat)
    requires Linkable(fat, links) && m <= i < |links| && (c == links[i].tail || c == links[i].added)
    requires |fat| <= EOC
    ensures c < |fat| && InTable(links[..m], |fat|) && LinkAll(fat, links[..m])[c] != LinkAll(fat, links)[c]
  {
    hide Rank, Link;
    LinkablePrefix(fat, links, i);
    LinkablePrefix(fat, links, i + 1);
    var at := links[..i + 1];
    assert at[..i] == links[..i] && at[..i][..m] == links[..m];
    LinkRank(LinkAll(fat, links[..i]), links[i], c);
    RankGrows(fat, links[..i], m, c);
    RankGrows(fat, links, i + 1, c);
  }

  /** A sector is as it was after the first `m` links exactly when none since touched it. */
  lemma SectorSince(fat: Fat, links: seq<FatLink>, m: nat, k: nat)
    requires Linkable(fat, links) && Small(fat) && m <= |links| && 128 * (k + 1) <= |fat|
    ensures InTable(links[..m], |fat|)
    ensures SectorBytes(LinkAll(fat, links[..m]), k) == SectorBytes(LinkAll(fat, links), k) <==> QuietSince(links, m, k)
  {
    hide SectorBytes, Linkable, LinkAll, Rank;
    LinkablePrefix(fat, links, m);
    LinkAllSmall(fat, links);
    LinkAllSmall(fat, links[..m]);
    var before, after := LinkAll(fat, links[..m]), LinkAll(fat, links);
    SectorChanges(before, after, k);
    if QuietSince(links, m, k) {
      forall c: nat | 128 * k <= c < 128 * (k + 1) ensures before[c] == after[c] {
        EntryKept(fat, links, m, k, c);
      }
    } else {
      var i :| m <= i < |links| && Touches(links[i], k);
      var c := if k == links[i].tail / 128 then links[i].tail else links[i].added;
      EntryMoved(fat, links, m, i, c);
      assert 128 * k <= c < 128 * (k + 1);
    }
  }

  // ----- the disk -----

  /** The number of links up to the last that refreshes the sector; 0 when none does. */
  function LastRefresh(links: seq<FatLink>, k: nat): (m: nat)
    ensures m <= |links|
    ensures m > 0 ==> Refreshes(links[m - 1], k)
    ensures forall j :: m <= j < |links| ==> !Refreshes(links[j], k)
  {
    if links == [] then 0
    else if Refreshes(links[|links| - 1], k) then |links|
    else LastRefresh(links[..|links| - 1], k)
  }

  /** The disk has, of each sector, what it was at the last refresh. */
  lemma {:induction false} DiskSince(fat: Fat, disk: Disk, links: seq<FatLink>, k: nat)
    requires InTable(links, |fat|) && Agree(fat, disk) && k < |disk|
    ensures InTable(links[..LastRefresh(links, k)], |fat|)
    ensures FlushAll(fat, disk, links)[k] == SectorBytes(LinkAll(fat, links[..LastRefresh(links, k)]), k)
  {
    hide SectorBytes, FlushLink, LinkAll;
    InTablePrefix(links, |fat|, LastRefresh(links, k));
    if links == [] {
      NoLinks(fat, disk);
    } else {
      var n := |links| - 1;
      FlushAt(LinkAll(fat, links), FlushAll(fat, disk, links[..n]), links[n].tail, links[n].added, k);
      if Refreshes(links[n], k) {
        assert links[..n + 1] == links;
      } else {
        DiskSince(fat, disk, links[..n], k);
        assert links[..n][..LastRefresh(links[..n], k)] == links[..LastRefresh(links, k)];
      }
    }
  }

  lemma {:induction false} SectorsKept(fat: Fat, disk: Disk, links: seq<FatLink>)
    requires InTable(links, |fat|) && |fat| == 128 * |disk| && Sectors(disk)
    ensures Sectors(FlushAll(fat, disk, links))
  {
    hide SectorBytes, FlushLink, LinkAll;
    if links == [] {
      NoLinks(fat, disk);
    } else {
      var n := |links| - 1;
      SectorsKept(fat, disk, links[..n]);
      var d := FlushAll(fat, disk, links[..n]);
      forall k | 0 <= k < |disk| ensures |FlushAll(fat, disk, links)[k]| == 512 {
        FlushAt(LinkAll(fat, links), d, links[n].tail, links[n].added, k);
        SectorSize(LinkAll(fat, links), k);
      }
    }
  }

  lemma SectorSize(fat: Fat, k: nat)
    requires 128 * (k + 1) <= |fat|
    ensures |SectorBytes(fat, k)| == 512
  {
  }

  /** What a mount reads after the links, entry by entry: what the entry was at the last link that
      refreshed its sector. */
  lemma MountReads(fat: Fat, disk: Disk, links: seq<FatLink>, c: nat)
    requires Sectors(disk) && Mounted(disk) == fat && Small(fat) && Linkable(fat, links) && c < |fat|
    ensures var m := LastRefresh(links, c / 128);
            && InTable(links[..m], |fat|) && Sectors(FlushAll(fat, disk, links))
            && EntryOnDisk(FlushAll(fat, disk, links), c) == LinkAll(fat, links[..m])[c]
  {
    hide SectorBytes, FlushLink, LinkAll, FlushAll, Linkable, EntryOnDisk, LastRefresh;
    AgreeIsMounted(fat, disk);
    SectorsKept(fat, disk, links);
    DiskSince(fat, disk, links, c / 128);
    var m := LastRefresh(links, c / 128);
    LinkablePrefix(fat, links, m);
    LinkAllSmall(fat, links[..m]);
    SectorRead(LinkAll(fat, links[..m]), FlushAll(fat, disk, links), c);
  }

  lemma NoLinks(fat: Fat, disk: Disk)
    requires |fat| == 128 * |disk|
    ensures Linkable(fat, []) && LinkAll(fat, []) == fat && FlushAll(fat, disk, []) == disk
  {
  }

  /** Every sector that a link touches is refreshed by that link or a later one. */
  ghost predicate Covered(links: seq<FatLink>, sectors: nat) {
    forall k: nat :: k < sectors ==> SectorCovered(links, k)
  }

  ghost predicate SectorCovered(links: seq<FatLink>, k: nat) {
    forall i :: 0 <= i < |links| && Touches(links[i], k) ==> RefreshedSince(links, i, k)
  }

  ghost predicate RefreshedSince(links: seq<FatLink>, i: nat, k: nat) {
    exists j :: i <= j < |links| && Refreshes(links[j], k)
  }

  lemma CoveredAt(links: seq<FatLink>, k: nat)
    ensures QuietSince(links, LastRefresh(links, k), k) <==> SectorCovered(links, k)
  {
    var m := LastRefresh(links, k);
    if QuietSince(links, m, k) {
      forall i | 0 <= i < |links| && Touches(links[i], k) ensures RefreshedSince(links, i, k) {
        assert i <= m - 1;
      }
    }
  }

  /** From agreement, memory and disk agree after any links exactly when every sector that a
      link touches is refreshed by that link or a later one. */
  lemma Agreement(fat: Fat, disk: Disk, links: seq<FatLink>)
    requires Agree(fat, disk) && Small(fat) && Linkable(fat, links)
    ensures Agree(LinkAll(fat, links), FlushAll(fat, disk, links)) <==> Covered(links, |disk|)
  {
    hide SectorBytes, Linkable, LinkAll, FlushAll, LastRefresh, SectorCovered;
    var memory, after := LinkAll(fat, links), FlushAll(fat, disk, links);
    forall k: nat | k < |disk| ensures after[k] == SectorBytes(memory, k) <==> SectorCovered(links, k) {
      DiskSince(fat, disk, links, k);
      SectorSince(fat, links, LastRefresh(links, k), k);
      CoveredAt(links, k);
    }
  }

  /** In terms of a mount: it reads the table in memory exactly then. */
  lemma MountAgreement(fat: Fat, disk: Disk, links: seq<FatLink>)
    requires Sectors(disk) && Mounted(disk) == fat && Small(fat) && Linkable(fat, links)
    ensures Sectors(FlushAll(fat, disk, links))
    ensures Mounted(FlushAll(fat, disk, links)) == LinkAll(fat, links) <==> Covered(links, |disk|)
  {
    hide SectorBytes, Linkable, LinkAll, FlushAll, Mounted, EntryOnDisk, Covered, Agree;
    MountedSize(disk);
    LinkAllSmall(fat, links);
    SectorsKept(fat, disk, links);
    AgreeIsMounted(fat, disk);
    AgreeIsMounted(LinkAll(fat, links), FlushAll(fat, disk, links));
    Agreement(fat, disk, links);
  }

  lemma MountedSize(disk: Disk)
    requires Sectors(disk)
    ensures |Mounted(disk)| == 128 * |disk|
  {
  }

  /** In particular when each link refreshes what it touches, as it does when neither of its
      clusters is a multiple of 128. */
  lemma CleanLinksCover(links: seq<FatLink>, sectors: nat)
    requires forall i :: 0 <= i < |links| ==> links[i].tail != links[i].added && Clean(links[i].tail, links[i].added)
    ensures Covered(links, sectors)
  {
    forall k: nat | k < sectors ensures SectorCovered(links, k) {
      forall i | 0 <= i < |links| && Touches(links[i], k) ensures RefreshedSince(links, i, k) {
        CleanCovers(links[i].tail, links[i].added);
        assert Refreshes(links[i], k);
      }
    }
  }

  // ----- examples -----

  /** A table of 256 entries whose upper half is free. */
  function HalfFree(): (fat: Fat)
    ensures |fat| == 256 && forall c :: 0 <= c < 256 ==> fat[c] == if c < 128 then EOC else 0
  {
    seq(256, c => if c < 128 then EOC else 0)
  }

  lemma HalfFreeRead(disk: Disk)
    requires |disk| == 2 && disk[0] == SectorBytes(HalfFree(), 0) && disk[1] == SectorBytes(HalfFree(), 1)
    ensures Agree(HalfFree(), disk) && Sectors(disk) && Mounted(disk) == HalfFree()
  {
    SectorSize(HalfFree(), 0);
    SectorSize(HalfFree(), 1);
    hide SectorBytes, Mounted, EntryOnDisk, HalfFree;
    AgreeIsMounted(HalfFree(), disk);
  }

  function HalfFreeDisk(): (disk: Disk)
    ensures |disk| == 2 && Agree(HalfFree(), disk) && Sectors(disk) && Mounted(disk) == HalfFree()
  {
    HalfFreeRead([SectorBytes(HalfFree(), 0), SectorBytes(HalfFree(), 1)]);
    [SectorBytes(HalfFree(), 0), SectorBytes(HalfFree(), 1)]
  }

  /** The file on cluster 127 grows by one cluster: the first free one is 128, whose sector is not
      written, and memory and disk disagree.  A mount reads a chain that goes on to a free entry. */
  lemma BoundaryExample()
    ensures var fat, links := HalfFree(), LinksOf([127], [128]);
            && IsChain(fat, [127]) && FirstFree(fat, 0, 1) == [128] && Linkable(fat, links)
            && !Agree(LinkAll(fat, links), FlushAll(fat, HalfFreeDisk(), links))
            && Sectors(FlushAll(fat, HalfFreeDisk(), links))
            && EntryOnDisk(FlushAll(fat, HalfFreeDisk(), links), 127) == 128
            && EntryOnDisk(FlushAll(fat, HalfFreeDisk(), links), 128) == 0
  {
    hide HalfFree, HalfFreeDisk, SectorBytes, LinkAll, FlushAll, Linkable, Agree, Covered, FirstFree, EntryOnDisk;
    hide Mounted;
    var fat, links := HalfFree(), LinksOf([127], [128]);
    FirstFreeIs(fat, 0, [128]);
    assert links == [FatLink(127, 128)];
    OneLink(fat, links);
    BoundaryMissed();
    Agreement(fat, HalfFreeDisk(), links);
    NoLinks(fat, HalfFreeDisk());
    MountReads(fat, HalfFreeDisk(), links, 127);
    MountReads(fat, HalfFreeDisk(), links, 128);
    assert links[..0] == [] && links[..1] == links;
  }

  lemma BoundaryMissed()
    ensures var links := [FatLink(127, 128)];
            !Covered(links, 2) && LastRefresh(links, 127 / 128) == 1 && LastRefresh(links, 128 / 128) == 0
  {
    var links := [FatLink(127, 128)];
    assert links[..0] == [];
    assert Touches(links[0], 1) && !Refreshes(links[0], 1);
    assert !SectorCovered(links, 1);
  }

  lemma OneLink(fat: Fat, links: seq<FatLink>)
    requires |links| == 1 && CanLink(fat, links[0])
    ensures Linkable(fat, links) && LinkAll(fat, links) == Link(fat, links[0].tail, links[0].added)
  {
    assert links[..0] == [];
  }

  /** When it grows by two at once, the second link writes the sector the first one missed. */
  lemma HealedExample()
    ensures var fat, links := HalfFree(), LinksOf([127], [128, 129]);
            && FirstFree(fat, 0, 2) == [128, 129] && Linkable(fat, links) && !Clean(127, 128)
            && Agree(LinkAll(fat, links), FlushAll(fat, HalfFreeDisk(), links))
  {
    hide HalfFree, HalfFreeDisk, SectorBytes, LinkAll, FlushAll, Agree, Covered, FirstFree;
    var fat, links := HalfFree(), LinksOf([127], [128, 129]);
    FirstFreeIs(fat, 0, [128, 129]);
    assert links == [FatLink(127, 128), FatLink(128, 129)];
    OneLink(fat, links[..1]);
    BoundaryHealed();
    Agreement(fat, HalfFreeDisk(), links);
  }

  lemma BoundaryHealed()
    ensures Covered([FatLink(127, 128), FatLink(128, 129)], 2)
  {
    var links := [FatLink(127, 128), FatLink(128, 129)];
    assert Refreshes(links[0], 0) && Refreshes(links[1], 0) && Refreshes(links[1], 1);
    forall k: nat | k < 2 ensures SectorCovered(links, k) {
      forall i | 0 <= i < 2 && Touches(links[i], k) ensures RefreshedSince(links, i, k) {
        assert k == 0 ==> Refreshes(links[i], k);
      }
    }
  }
}
