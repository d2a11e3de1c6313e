/** The invariant of the loop in fat32_write and the two steps that keep it: writing a cluster
    of the chain, and appending a cluster to the chain. */
module FileWrite {
  import opened FatChain
  import opened FatDisk
  import opened FatLinks
  import opened FileData

  /** A volume as a value: FAT in memory, FAT on disk, data clusters. */
  datatype Vol = Vol(fat: Fat, disk: Disk, clusters: Clusters)

  ghost predicate SaneVol(v: Vol, cb: nat) {
    && 2 <= |v.fat| <= EOC && |v.fat| == |v.clusters| == 128 * |v.disk|
    && v.fat[0] != 0 && v.fat[1] != 0 && Sized(v.clusters, cb)
    && forall c :: 0 <= c < |v.fat| ==> v.fat[c] < TWO32
  }

  /** Both FATs are what linking `news` behind `ch` makes of them. */
  ghost predicate Linked(v0: Vol, v: Vol, ch: seq<nat>, news: seq<nat>) {
    && ch != [] && |v0.fat| == 128 * |v0.disk| && Linkable(v0.fat, LinksOf(ch, news))
    && v.fat == LinkAll(v0.fat, LinksOf(ch, news)) && v.disk == FlushAll(v0.fat, v0.disk, LinksOf(ch, news))
  }

  /** The chain `ch` has grown by `news`, each the first free cluster of its time. */
  ghost predicate Growth(fat0: Fat, fat: Fat, ch: seq<nat>, news: seq<nat>) {
    && IsChain(fat0, ch) && Grown(fat0, fat, ch, news)
    && (news != [] ==> NoneFreeBelow(fat, news[|news| - 1]))
    && |FreeEntries(fat)| + |news| == |FreeEntries(fat0)|
  }

  /** The first `k` clusters of `all` hold the first bytes of `dd`; clusters outside are as
      they were. */
  ghost predicate Filled(before: Clusters, after: Clusters, cb: nat, all: seq<nat>, dd: seq<byte>, k: nat) {
    && Sized(before, cb) && Sized(after, cb) && |before| == |after|
    && k <= |all| && (forall i :: 0 <= i < |all| ==> all[i] < |after|)
    && Span(k, cb) <= |dd| && Contents(after, all[..k]) == dd[..Span(k, cb)]
    && (forall c :: 0 <= c < |after| && c !in all ==> after[c] == before[c])
  }

  /** The invariant of the loop in fat32_write. */
  ghost predicate Writing(v0: Vol, v: Vol, cb: nat, ch: seq<nat>, news: seq<nat>, dd: seq<byte>, k: nat) {
    && SaneVol(v0, cb) && SaneVol(v, cb)
    && Growth(v0.fat, v.fat, ch, news)
    && Filled(v0.clusters, v.clusters, cb, ch + news, dd, k)
    && Linked(v0, v, ch, news)
  }

  lemma WritingStart(v: Vol, cb: nat, ch: seq<nat>, dd: seq<byte>)
    requires SaneVol(v, cb) && IsChain(v.fat, ch)
    ensures Writing(v, v, cb, ch, [], dd, 0)
  {
    GrownRefl(v.fat, ch);
    assert Span(0, cb) == 0;
  }

  /** What the loop may use about the i-th cluster. */
  lemma WritingAt(v0: Vol, v: Vol, cb: nat, ch: seq<nat>, news: seq<nat>, dd: seq<byte>, k: nat, i: nat)
    requires Writing(v0, v, cb, ch, news, dd, k) && i < |ch + news|
    ensures var all := ch + news;
            && 2 <= all[i] < |v.fat|
            && (if i + 1 < |all| then all[i + 1] >= 2 && NextCluster(all[i], v.fat) == all[i + 1]
                else NextCluster(all[i], v.fat) == 0)
  {
    WalkFollows(v.fat, ch + news, i);
  }

  lemma FilledStep(fat: Fat, before: Clusters, after: Clusters, cb: nat, all: seq<nat>, dd: seq<byte>, k: nat)
    requires Filled(before, after, cb, all, dd, k) && IsChain(fat, all) && k < |all| && Span(k, cb) + cb <= |dd|
    ensures all[k] < |after|
    ensures Filled(before, after[all[k] := dd[Span(k, cb)..Span(k, cb) + cb]], cb, all, dd, k + 1)
  {
    hide IsChain, Contents, Span;
    SpanStep(k, |all|, cb);
    assert forall i :: 0 <= i < |all| ==> all[i] < |after|;
    ContentsStep(fat, after, all, k, dd[Span(k, cb)..Span(k, cb) + cb]);
    TakeMore(dd, Span(k, cb), cb);
  }

  lemma TakeMore(dd: seq<byte>, pos: nat, cb: nat)
    requires pos + cb <= |dd|
    ensures dd[..pos + cb] == dd[..pos] + dd[pos..pos + cb]
  {
  }

  /** Writing the k-th cluster of a chain adds its bytes and leaves those of the clusters before. */
  lemma ContentsStep(fat: Fat, after: Clusters, all: seq<nat>, k: nat, bytes: seq<byte>)
    requires IsChain(fat, all) && k < |all| && forall i :: 0 <= i < |all| ==> all[i] < |after|
    ensures Contents(after[all[k] := bytes], all[..k + 1]) == Contents(after, all[..k]) + bytes
  {
    hide IsChain, Contents;
    var c := all[k];
    var next := after[c := bytes];
    forall i | 0 <= i < k ensures all[i] != c {
      ChainAcyclic(fat, all, i, k);
    }
    ContentsFrame(after, next, all[..k]);
    assert all[..k + 1] == all[..k] + [c];
    ContentsAppend(next, all[..k], c);
  }

  lemma WritingCluster(v0: Vol, v: Vol, cb: nat, ch: seq<nat>, news: seq<nat>, dd: seq<byte>, k: nat)
    requires Writing(v0, v, cb, ch, news, dd, k) && k < |ch + news| && Span(k, cb) + cb <= |dd|
    ensures var c := (ch + news)[k];
            c < |v.clusters| &&
            Writing(v0, Vol(v.fat, v.disk, v.clusters[c := dd[Span(k, cb)..Span(k, cb) + cb]]), cb, ch, news, dd, k + 1)
  {
    hide Growth, Filled, SaneVol, Contents, Span, IsChain, LinkAll, FlushAll, Linkable, LinksOf;
    GrowthChain(v0.fat, v.fat, ch, news);
    FilledStep(v.fat, v0.clusters, v.clusters, cb, ch + news, dd, k);
    SaneCluster(v, cb, (ch + news)[k], dd, Span(k, cb));
  }

  lemma GrowthChain(fat0: Fat, fat: Fat, ch: seq<nat>, news: seq<nat>)
    requires Growth(fat0, fat, ch, news)
    ensures IsChain(fat, ch + news)
  {
  }

  lemma SaneCluster(v: Vol, cb: nat, c: nat, dd: seq<byte>, pos: nat)
    requires SaneVol(v, cb) && c < |v.clusters| && pos + cb <= |dd|
    ensures SaneVol(Vol(v.fat, v.disk, v.clusters[c := dd[pos..pos + cb]]), cb)
  {
  }

  lemma GrowthStep(fat0: Fat, fat: Fat, ch: seq<nat>, news: seq<nat>, t: nat)
    requires Growth(fat0, fat, ch, news) && IsFirstFree(fat, t) && 2 <= t
    ensures var tail := (ch + news)[|ch + news| - 1];
            2 <= tail < |fat| && Growth(fat0, Link(fat, tail, t), ch, news + [t])
  {
    GrownStep(fat0, fat, ch, news, t);
  }

  lemma FilledExtend(before: Clusters, after: Clusters, cb: nat, all: seq<nat>, dd: seq<byte>, t: nat)
    requires Filled(before, after, cb, all, dd, |all|) && t < |after|
    ensures Filled(before, after, cb, all + [t], dd, |all|)
  {
    assert (all + [t])[..|all|] == all == all[..|all|];
  }

  lemma WritingLink(v0: Vol, v: Vol, cb: nat, ch: seq<nat>, news: seq<nat>, dd: seq<byte>, t: nat)
    requires Writing(v0, v, cb, ch, news, dd, |ch + news|) && IsFirstFree(v.fat, t) && 2 <= t
    ensures var tail := (ch + news)[|ch + news| - 1];
            && 2 <= tail < |v.fat|
            && var fat := Link(v.fat, tail, t);
               Writing(v0, Vol(fat, FlushLink(fat, v.disk, tail, t), v.clusters), cb, ch, news + [t], dd, |ch + news|)
  {
    hide Growth, Filled, Linked, FlushLink, IsFirstFree, Contents, Sized, Span, IsChain;
    Bounds(v0.fat, v.fat, ch, news, t);
    var all := ch + news;
    var tail := all[|all| - 1];
    GrowthStep(v0.fat, v.fat, ch, news, t);
    FilledExtend(v0.clusters, v.clusters, cb, all, dd, t);
    LinkedStep(v0, v, ch, news, t);
    SaneLink(v, cb, tail, t);
    FlushSize(Link(v.fat, tail, t), v.disk, tail, t);
    assert all + [t] == ch + (news + [t]);
  }

  lemma Bounds(fat0: Fat, fat: Fat, ch: seq<nat>, news: seq<nat>, t: nat)
    requires Growth(fat0, fat, ch, news) && IsFirstFree(fat, t)
    ensures |ch + news| > 0 && t < |fat|
  {
  }

  lemma SaneLink(v: Vol, cb: nat, tail: nat, t: nat)
    requires SaneVol(v, cb) && 2 <= tail < |v.fat| && 2 <= t < |v.fat|
    ensures var fat := Link(v.fat, tail, t); SaneVol(Vol(fat, FlushLink(fat, v.disk, tail, t), v.clusters), cb)
  {
    FlushSize(Link(v.fat, tail, t), v.disk, tail, t);
    hide FlushLink, Sized;
  }

  /** One more link. */
  lemma LinkedStep(v0: Vol, v: Vol, ch: seq<nat>, news: seq<nat>, t: nat)
    requires Linked(v0, v, ch, news) && Growth(v0.fat, v.fat, ch, news) && IsFirstFree(v.fat, t) && 2 <= t
    ensures var tail := (ch + news)[|ch + news| - 1];
            && 2 <= tail < |v.fat| && |v.fat| == 128 * |v.disk|
            && var fat := Link(v.fat, tail, t);
               Linked(v0, Vol(fat, FlushLink(fat, v.disk, tail, t), v.clusters), ch, news + [t])
  {
    var all := ch + news;
    var tail := all[|all| - 1];
    assert v.fat[tail] == Successor(all, |all| - 1);
    LinksAppend(ch, news, t);
    hide IsChain, Grown, FreeEntries, FlushLink, Link;
    var links, l := LinksOf(ch, news), FatLink(tail, t);
    LinkMore(v0.fat, v0.disk, links, l);
  }

  lemma FlushSize(fat: Fat, disk: Disk, tail: nat, t: nat)
    requires |fat| == 128 * |disk| && 0 < tail < |fat| && 0 < t < |fat|
    ensures |FlushLink(fat, disk, tail, t)| == |disk|
  {
  }

  /** When the buffer is used up, the file holds it. */
  lemma WritingDone(v0: Vol, v: Vol, cb: nat, ch: seq<nat>, news: seq<nat>, dd: seq<byte>, k: nat)
    requires Writing(v0, v, cb, ch, news, dd, k) && Span(k, cb) == |dd| && Span(|ch|, cb) <= |dd|
    requires news != [] ==> k == |ch + news|
    ensures k == |ch + news| && Contents(v.clusters, ch + news) == dd && Fits(|dd|, cb, |ch|, |FreeEntries(v0.fat)|)
  {
    SpanOrder(|ch|, k, cb);
    SpanOrder(k, |ch|, cb);
    assert (ch + news)[..k] == ch + news;
    assert dd[..|dd|] == dd;
  }

  /** What the whole loop did, apart from the contents of the file: the chain grew by the least
      free entries, both FATs are what linking them makes, and no other cluster changed. */
  ghost predicate Outcome(v0: Vol, v: Vol, ch: seq<nat>, news: seq<nat>) {
    && Grown(v0.fat, v.fat, ch, news) && news == FirstFree(v0.fat, 0, |news|)
    && Linked(v0, v, ch, news) && Untouched(v0.clusters, v.clusters, ch + news)
  }

  /** Clusters outside `all` keep their bytes. */
  ghost predicate Untouched(before: Clusters, after: Clusters, all: seq<nat>) {
    |before| == |after| && forall c :: 0 <= c < |after| && c !in all ==> after[c] == before[c]
  }

  /** First fit, repeated: the clusters added are the least free entries of the old FAT. */
  lemma GrowthFirstFree(fat0: Fat, fat: Fat, ch: seq<nat>, news: seq<nat>)
    requires Growth(fat0, fat, ch, news)
    ensures news == FirstFree(fat0, 0, |news|)
  {
    if news != [] {
      var last := ch[|ch| - 1];
      assert fat0[last] == Successor(ch, |ch| - 1);
      forall c | 0 <= c < news[|news| - 1] && c < |fat0| && fat0[c] == 0 ensures c in news {
        assert fat[c] != 0 && c != last;
      }
    }
    FirstFreeIs(fat0, 0, news);
  }

  lemma WritingOutcome(v0: Vol, v: Vol, cb: nat, ch: seq<nat>, news: seq<nat>, dd: seq<byte>, k: nat)
    requires Writing(v0, v, cb, ch, news, dd, k)
    ensures Outcome(v0, v, ch, news)
  {
    GrowthFirstFree(v0.fat, v.fat, ch, news);
    hide Contents, FirstFree, Linked, IsChain;
  }

  /** After a call that succeeds, memory and disk agree, if they did before, exactly when every
      FAT sector that a link touches is refreshed by that link or a later one.  The links are
      known before the call: from the last cluster of the chain through the `n` least free
      entries, where `n` more clusters are what the request needs. */
  lemma WriteAgreement(v0: Vol, v: Vol, cb: nat, ch: seq<nat>, news: seq<nat>, n: nat, offset: nat, len: nat)
    requires SaneVol(v0, cb) && Sectors(v0.disk) && Mounted(v0.disk) == v0.fat && Outcome(v0, v, ch, news)
    requires Span(|ch + news|, cb) == Request(offset, len) == Span(|ch| + n, cb)
    ensures Sectors(v.disk) && |v.fat| == 128 * |v.disk|
    ensures Mounted(v.disk) == v.fat <==> Covered(LinksOf(ch, FirstFree(v0.fat, 0, n)), |v0.disk|)
    ensures Covered(LinksOf(ch, FirstFree(v0.fat, 0, n)), |v0.disk|) ==>
              ReadsChain(v.disk, ch + FirstFree(v0.fat, 0, n))
  {
    hide Growth, FirstFree, Untouched, Linkable, Covered, LinkAll, FlushAll, Span, Request, Mounted;
    hide IsChain, ReadsChain;
    SpanOrder(|ch + news|, |ch| + n, cb);
    assert |news| == n;
    MountAgreement(v0.fat, v0.disk, LinksOf(ch, news));
    if Covered(LinksOf(ch, news), |v0.disk|) {
      MountedChain(v.fat, v.disk, ch + news);
    }
  }

  /** The entries on disk lead through the clusters to the mark of the end. */
  ghost predicate ReadsChain(disk: Disk, all: seq<nat>)
    requires Sectors(disk)
  {
    && all != [] && (forall i :: 0 <= i < |all| ==> 2 <= all[i] < 128 * |disk|)
    && (forall i :: 0 <= i < |all| - 1 ==> EntryOnDisk(disk, all[i]) == all[i + 1])
    && EntryOnDisk(disk, all[|all| - 1]) == 0x0FFF_FFFF
  }

  lemma MountedChain(fat: Fat, disk: Disk, all: seq<nat>)
    requires Sectors(disk) && |fat| == 128 * |disk| && Mounted(disk) == fat && IsChain(fat, all)
    ensures ReadsChain(disk, all)
  {
    hide EntryOnDisk;
    forall i | 0 <= i < |all| ensures EntryOnDisk(disk, all[i]) == Successor(all, i) {
      assert fat[all[i]] == Successor(all, i);
    }
  }

  /** What a mount reads after a call, if before it read what was in memory: each entry as it was at
      the last link that refreshed its sector.  That is the whole table in memory exactly when every
      sector a link touches is refreshed by that link or a later one. */
  ghost predicate ReadsBack(v0: Vol, v: Vol, ch: seq<nat>, news: seq<nat>)
    requires ch != []
  {
    var links := LinksOf(ch, news);
    InTable(links, |v0.fat|) && |v0.fat| == |v.fat| == 128 * |v.disk| &&
    (Sectors(v0.disk) && Mounted(v0.disk) == v0.fat ==>
      && Sectors(v.disk)
      && (forall c: nat :: c < |v.fat| ==> ReadsSince(v0.fat, v.disk, links, c))
      && (Mounted(v.disk) == v.fat <==> Covered(links, |v.disk|)))
  }

  ghost predicate ReadsSince(fat: Fat, disk: Disk, links: seq<FatLink>, c: nat)
    requires InTable(links, |fat|) && c < |fat| == 128 * |disk| && Sectors(disk)
  {
    InTablePrefix(links, |fat|, LastRefresh(links, c / 128));
    EntryOnDisk(disk, c) == LinkAll(fat, links[..LastRefresh(links, c / 128)])[c]
  }

  lemma WriteMounted(v0: Vol, v: Vol, cb: nat, ch: seq<nat>, news: seq<nat>)
    requires SaneVol(v0, cb) && Outcome(v0, v, ch, news)
    ensures ch != [] && ReadsBack(v0, v, ch, news)
  {
    hide Grown, Growth, FirstFree, Untouched, Covered, LinkAll, FlushAll, Mounted, EntryOnDisk, LinksOf;
    hide LastRefresh;
    var links := LinksOf(ch, news);
    if Sectors(v0.disk) && Mounted(v0.disk) == v0.fat {
      MountAgreement(v0.fat, v0.disk, links);
      forall c: nat | c < |v.fat| ensures ReadsSince(v0.fat, v.disk, links, c) {
        MountReads(v0.fat, v0.disk, links, c);
      }
    }
  }

  /** The table runs out exactly when as many clusters were added as were free. */
  lemma FreeLeft(v0: Vol, v: Vol, cb: nat, ch: seq<nat>, news: seq<nat>, dd: seq<byte>)
    requires Writing(v0, v, cb, ch, news, dd, |ch + news|)
    ensures FreeEntries(v.fat) == {} ==> |news| == |FreeEntries(v0.fat)|
  {
  }
}
