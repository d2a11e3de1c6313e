/** fat32_read and fat32_write of kernel/fs/fat32.c on an in-memory FAT, its copy on disk and
    the data clusters, all updated in place. */
module Fat32 {
  import opened Common
  import opened FatChain
  import opened FatDisk
  import opened FileData
  import opened FileWrite

  class Volume {
    /** `id->fat`, one element an entry. */
    const fat: array<nat>
    /** The sectors of the first FAT on disk. */
    const fatDisk: array<seq<byte>>
    /** The data area of the disk, one element a cluster. */
    const clusters: array<seq<byte>>
    const sectorsPerCluster: nat
    /** `id->entry.file_size_bytes`, and the size in the directory slot on disk. */
    var fileSize: nat
    var slotSize: nat

    /** Bytes per cluster. */
    function Cb(): nat {
      512 * sectorsPerCluster
    }

    ghost predicate Valid()
      reads fat, fatDisk, clusters
    {
      && sectorsPerCluster > 0 && Sized(clusters[..], Cb())
      && 2 <= fat.Length <= EOC && fat.Length == 128 * fatDisk.Length && clusters.Length == fat.Length
      && fat[0] != 0 && fat[1] != 0
      && forall c :: 0 <= c < fat.Length ==> fat[c] < TWO32
    }

    constructor (entries: array<nat>, sectors: array<seq<byte>>, data: array<seq<byte>>, spc: nat, size: nat)
      requires 2 <= entries.Length <= EOC && entries.Length == 128 * sectors.Length && data.Length == entries.Length
      requires forall c :: 0 <= c < entries.Length ==> entries[c] < TWO32
      requires entries[0] != 0 && entries[1] != 0 && spc > 0 && Sized(data[..], 512 * spc)
      ensures Valid() && fat == entries && fatDisk == sectors && clusters == data && sectorsPerCluster == spc
      ensures fileSize == slotSize == size
    {
      fat, fatDisk, clusters, sectorsPerCluster := entries, sectors, data, spc;
      fileSize, slotSize := size, size;
    }

    /** The loop of `fat32_read`: the clusters of the chain go to the front of the buffer.
        `ok` is false when the next cluster would run past the end of the buffer. */
    method ReadChain(begin: nat, dd: array<byte>, ghost ch: seq<nat>) returns (ok: bool)
      requires Valid() && IsChain(fat[..], ch) && begin == ch[0]
      modifies dd
      ensures ok <==> Span(|ch|, Cb()) <= dd.Length
      ensures ok ==> dd[..Span(|ch|, Cb())] == Contents(clusters[..], ch)
    {
      hide IsChain, Span, Sized, Contents;
      var pos, cluster := 0, begin;
      ghost var k := 0;
      NoContents(ch);
      SpanStep(0, |ch|, Cb());
      while true
        invariant k < |ch| && cluster == ch[k] && pos == Span(k, Cb()) <= dd.Length
        invariant dd[..pos] == Contents(clusters[..], ch[..k])
        decreases |ch| - k
      {
        SpanStep(k, |ch|, Cb());
        ChainStep(ch, k);
        if pos + Cb() > dd.Length {
          return false;
        }
        ReadCluster(dd, pos, cluster);
        pos := pos + Cb();
        var next := NextCluster(cluster, fat[..]);
        if next == 0 {
          break;
        }
        cluster := next;
        k := k + 1;
      }
      ok := true;
    }

    lemma NoContents(ch: seq<nat>)
      requires Valid() && IsChain(fat[..], ch)
      ensures |ch| > 0 && (forall i :: 0 <= i < |ch| ==> ch[i] < clusters.Length)
      ensures Contents(clusters[..], ch[..0]) == []
    {
    }

    lemma ChainStep(ch: seq<nat>, k: nat)
      requires Valid() && IsChain(fat[..], ch) && k < |ch|
      ensures forall i :: 0 <= i < |ch| ==> ch[i] < clusters.Length
      ensures Contents(clusters[..], ch[..k + 1]) == Contents(clusters[..], ch[..k]) + clusters[..][ch[k]]
      ensures NextCluster(ch[k], fat[..]) == if k + 1 < |ch| then ch[k + 1] else 0
      ensures if k + 1 < |ch| then ch[k + 1] >= 2 else ch[..k + 1] == ch
    {
      assert ch[..k + 1] == ch[..k] + [ch[k]];
      ContentsAppend(clusters[..], ch[..k], ch[k]);
      WalkFollows(fat[..], ch, k);
    }

    /** `fat32_read`.  `None` stands for running past the end of the buffer, which happens
        exactly when the chain is longer than the rounded request. */
    method Read(begin: nat, offset: nat, len: nat, ghost ch: seq<nat>) returns (r: Option<seq<byte>>)
      requires Valid() && IsChain(fat[..], ch) && begin == ch[0]
      ensures ReadResult(clusters[..], ch, Cb(), offset, len, r)
    {
      hide IsChain, Span, Contents, Sized, ReadOk;
      NoContents(ch);
      ghost var file := Contents(clusters[..], ch);
      ContentsSize(clusters[..], ch, Cb());
      var sectorNum := (offset + len + 511) / 512;
      assert sectorNum * 512 == Request(offset, len);
      var dd := new byte[sectorNum * 512];
      var ok := ReadChain(begin, dd, ch);
      if !ok {
        return None;
      }
      var retlen := Least(sectorNum * 512 - offset, len);
      r := Some(dd[offset..offset + retlen]);
      CopiedOut(file, dd[..], offset, len);
    }

    /** The transfer `ata_pio_read28` of one cluster into the buffer. */
    method ReadCluster(dd: array<byte>, pos: nat, cluster: nat)
      requires Valid() && cluster < clusters.Length && pos + Cb() <= dd.Length
      modifies dd
      ensures dd[..pos + Cb()] == old(dd[..pos]) + clusters[cluster]
    {
      assert |clusters[..][cluster]| == Cb();
      forall i | 0 <= i < Cb() {
        dd[pos + i] := clusters[cluster][i];
      }
    }

    /** `fat32_get_free_cluster`.  `None` stands for the scan running off the end of the table. */
    method GetFreeCluster() returns (r: Option<nat>)
      requires Valid()
      ensures r.None? <==> FreeEntries(fat[..]) == {}
      ensures r.Some? ==> IsFirstFree(fat[..], r.value) && r.value >= 2
    {
      for i := 0 to fat.Length
        invariant NoneFreeBelow(fat[..], i)
      {
        if fat[i] == 0 {
          assert i in FreeEntries(fat[..]);
          return Some(i);
        }
      }
      assert FreeEntries(fat[..]) == {};
      return None;
    }

    /** The part of `fat32_write` that appends a cluster to the chain: find it, link it in
        memory, refresh the FAT sectors on disk. */
    method LinkCluster(tail: nat) returns (r: Option<nat>)
      requires Valid() && 2 <= tail < fat.Length
      modifies fat, fatDisk
      ensures Valid()
      ensures r.None? <==> FreeEntries(old(fat[..])) == {}
      ensures r.None? ==> fat[..] == old(fat[..]) && fatDisk[..] == old(fatDisk[..])
      ensures r.Some? ==> IsFirstFree(old(fat[..]), r.value) && 2 <= r.value
                          && fat[..] == Link(old(fat[..]), tail, r.value)
                          && fatDisk[..] == FlushLink(fat[..], old(fatDisk[..]), tail, r.value)
    {
      hide SectorBytes, FreeEntries, NoneFreeBelow, Sized, FlushLink;
      r := GetFreeCluster();
      if r.None? {
        return;
      }
      fat[tail] := r.value;
      fat[r.value] := EOC;
      FlushSectors(tail, r.value);
    }

    /** The refresh of the FAT sectors on disk after a link. */
    method FlushSectors(tail: nat, t: nat)
      requires fat.Length == 128 * fatDisk.Length && 0 < tail < fat.Length && 0 < t < fat.Length
      modifies fatDisk
      ensures fatDisk[..] == FlushLink(fat[..], old(fatDisk[..]), tail, t)
    {
      hide SectorBytes;
      WrittenSector(tail);
      WrittenSector(t);
      ghost var disk := fatDisk[..];
      var no := RoundedSector(tail);
      fatDisk[no - 1] := SectorBytes(fat[..], no - 1);
      ghost var once := fatDisk[..];
      assert once == WriteSector(fat[..], disk, no - 1);
      var tno := RoundedSector(t);
      if tno != no {
        fatDisk[tno - 1] := SectorBytes(fat[..], tno - 1);
        assert fatDisk[..] == WriteSector(fat[..], once, tno - 1);
      }
    }

    /** The transfer `ata_pio_write28` of one cluster from the buffer. */
    method WriteCluster(dd: seq<byte>, pos: nat, cluster: nat)
      requires Valid() && cluster < clusters.Length && pos + Cb() <= |dd|
      modifies clusters
      ensures Valid() && clusters[..] == old(clusters[..])[cluster := dd[pos..pos + Cb()]]
    {
      clusters[cluster] := dd[pos..pos + Cb()];
    }

    ghost function St(): Vol
      reads fat, fatDisk, clusters
    {
      Vol(fat[..], fatDisk[..], clusters[..])
    }

    lemma Sane()
      requires Valid()
      ensures SaneVol(St(), Cb())
    {
    }

    /** Write the k-th cluster of the file from the buffer. */
    method WriteStep(dd: seq<byte>, pos: nat, cluster: nat,
                     ghost v0: Vol, ghost ch: seq<nat>, ghost news: seq<nat>, ghost k: nat)
      requires Valid() && Writing(v0, St(), Cb(), ch, news, dd, k)
      requires k < |ch + news| && cluster == (ch + news)[k] && pos == Span(k, Cb()) && pos + Cb() <= |dd|
      modifies clusters
      ensures Valid() && Writing(v0, St(), Cb(), ch, news, dd, k + 1)
    {
      hide Writing, SaneVol, Span, Contents, IsChain, Sized;
      WritingCluster(v0, St(), Cb(), ch, news, dd, k);
      WriteCluster(dd, pos, cluster);
    }

    /** Go on to the k-th cluster: the next of the chain, or a newly appended one.  `None` when
        one is needed and no free entry is left in the table. */
    method Advance(cluster: nat, ghost v0: Vol, ghost ch: seq<nat>, ghost news: seq<nat>, ghost dd: seq<byte>,
                   ghost k: nat)
      returns (r: Option<nat>, ghost more: seq<nat>)
      requires Valid() && Writing(v0, St(), Cb(), ch, news, dd, k)
      requires 1 <= k <= |ch + news| && cluster == (ch + news)[k - 1] && (news != [] ==> k == |ch + news|)
      modifies fat, fatDisk
      ensures Valid()
      ensures r.None? ==> k == |ch| + |FreeEntries(v0.fat)|
      ensures r.Some? ==> Writing(v0, St(), Cb(), ch, more, dd, k)
                          && k < |ch + more| && r.value == (ch + more)[k] && (more != [] ==> k == |ch + more| - 1)
    {
      more := news;
      WritingAt(v0, St(), Cb(), ch, news, dd, k, k - 1);
      hide Writing, SaneVol, Span, FreeEntries, Contents, Sized, IsChain;
      var next := NextCluster(cluster, fat[..]);
      if next != 0 {
        assert k < |ch + news|;
        return Some(next), more;
      }
      assert k == |ch + news|;
      r, more := Append(cluster, v0, ch, news, dd);
    }

    method Append(cluster: nat, ghost v0: Vol, ghost ch: seq<nat>, ghost news: seq<nat>, ghost dd: seq<byte>)
      returns (r: Option<nat>, ghost more: seq<nat>)
      requires Valid() && Writing(v0, St(), Cb(), ch, news, dd, |ch + news|)
      requires 2 <= cluster < fat.Length && |ch + news| > 0 && cluster == (ch + news)[|ch + news| - 1]
      modifies fat, fatDisk
      ensures Valid()
      ensures r.None? ==> |news| == |FreeEntries(v0.fat)|
      ensures r.Some? ==> more == news + [r.value] && Writing(v0, St(), Cb(), ch, more, dd, |ch + news|)
    {
      more := news;
      FreeLeft(v0, St(), Cb(), ch, news, dd);
      hide Writing, SaneVol, IsChain, Contents, FreeEntries, Link, FlushLink, IsFirstFree;
      ghost var v := St();
      r := LinkCluster(cluster);
      if r.Some? {
        WritingLink(v0, v, Cb(), ch, news, dd, r.value);
        more := news + [r.value];
      }
    }

    /** The loop of `fat32_write`: the buffer goes to the clusters of the chain, and clusters
        are appended while bytes remain.  `ok` is false when the last cluster would be written
        from past the end of the buffer, or no free entry is left in the table. */
    method WriteChain(begin: nat, dd: seq<byte>, ghost ch: seq<nat>) returns (ok: bool, ghost news: seq<nat>)
      requires Valid() && IsChain(fat[..], ch) && begin == ch[0] && Span(|ch|, Cb()) <= |dd|
      modifies fat, fatDisk, clusters
      ensures Valid()
      ensures ok <==> Fits(|dd|, Cb(), |ch|, |FreeEntries(old(fat[..]))|)
      ensures ok ==> Writing(old(St()), St(), Cb(), ch, news, dd, |ch + news|)
      ensures ok ==> Contents(clusters[..], ch + news) == dd && Span(|ch + news|, Cb()) == |dd|
    {
      news := [];
      var pos, cluster := 0, begin;
      ghost var k := 0;
      ghost var v0 := St();
      Sane();
      WritingStart(v0, Cb(), ch, dd);
      SpanStep(0, |ch|, Cb());
      FirstCluster(ch);
      ClusterBytes();
      hide Writing, SaneVol, IsChain, Span, Contents, Fits, FreeEntries, AtCluster, Volume.Valid, Cb;
      while true
        invariant Valid() && Writing(v0, St(), Cb(), ch, news, dd, k)
        invariant AtCluster(ch, news, k, cluster) && pos == Span(k, Cb()) < |dd|
        decreases |dd| - pos
      {
        SpanStep(k, k + 1, Cb());
        if pos + Cb() > |dd| {
          FitsNot(|dd|, Cb(), |ch|, |FreeEntries(v0.fat)|, k);
          return false, news;
        }
        WriteRound(dd, pos, cluster, v0, ch, news, k);
        pos := pos + Cb();
        k := k + 1;
        if pos >= |dd| {
          break;
        }
        var r;
        r, news := NextRound(cluster, v0, ch, news, dd, k);
        if r.None? {
          FitsNot(|dd|, Cb(), |ch|, |FreeEntries(v0.fat)|, k);
          return false, news;
        }
        cluster := r.value;
      }
      WritingDone(v0, St(), Cb(), ch, news, dd, k);
      ok := true;
    }

    lemma ClusterBytes()
      requires Valid()
      ensures Cb() > 0
    {
    }

    lemma FirstCluster(ch: seq<nat>)
      requires IsChain(fat[..], ch)
      ensures AtCluster(ch, [], 0, ch[0])
    {
    }

    /** The loop is at the k-th cluster; appended ones are written as soon as they are there. */
    ghost predicate AtCluster(ch: seq<nat>, news: seq<nat>, k: nat, cluster: nat) {
      k < |ch + news| && cluster == (ch + news)[k] && (news != [] ==> k == |ch + news| - 1)
    }

    /** The first half of a round: the cluster is written. */
    method WriteRound(dd: seq<byte>, pos: nat, cluster: nat,
                      ghost v0: Vol, ghost ch: seq<nat>, ghost news: seq<nat>, ghost k: nat)
      requires Valid() && Writing(v0, St(), Cb(), ch, news, dd, k) && AtCluster(ch, news, k, cluster)
      requires pos == Span(k, Cb()) && pos + Cb() <= |dd|
      modifies clusters
      ensures Valid() && Writing(v0, St(), Cb(), ch, news, dd, k + 1)
      ensures 1 <= k + 1 <= |ch + news| && cluster == (ch + news)[k] && (news != [] ==> k + 1 == |ch + news|)
    {
      hide Writing, SaneVol, Span, Sized;
      WriteStep(dd, pos, cluster, v0, ch, news, k);
    }

    /** The second half: on to the next cluster. */
    method NextRound(cluster: nat, ghost v0: Vol, ghost ch: seq<nat>, ghost news: seq<nat>, ghost dd: seq<byte>,
                     ghost k: nat)
      returns (r: Option<nat>, ghost more: seq<nat>)
      requires Valid() && Writing(v0, St(), Cb(), ch, news, dd, k)
      requires 1 <= k <= |ch + news| && cluster == (ch + news)[k - 1] && (news != [] ==> k == |ch + news|)
      modifies fat, fatDisk
      ensures Valid()
      ensures r.None? ==> k == |ch| + |FreeEntries(v0.fat)|
      ensures r.Some? ==> Writing(v0, St(), Cb(), ch, more, dd, k) && AtCluster(ch, more, k, r.value)
    {
      hide Writing, SaneVol, Span, Sized, FreeEntries;
      r, more := Advance(cluster, v0, ch, news, dd, k);
    }

    /** The buffer of `fat32_write`: the file's bytes with `buff` copied over them. */
    method Prepare(begin: nat, offset: nat, buff: seq<byte>, ghost ch: seq<nat>) returns (dd: Option<seq<byte>>)
      requires Valid() && IsChain(fat[..], ch) && begin == ch[0]
      ensures dd.None? <==> Span(|ch|, Cb()) > Request(offset, |buff|)
      ensures dd.Some? ==> WriteOk(Contents(clusters[..], ch), offset, buff, dd.value)
    {
      ContentsSize(clusters[..], ch, Cb());
      hide IsChain, Span, Contents, Sized;
      var sectorNum := (offset + |buff| + 511) / 512;
      var size := sectorNum * 512;
      assert Request(0, size) == size == Request(offset, |buff|);
      dd := Read(begin, 0, size, ch);
      if dd.Some? {
        OverlayOk(Contents(clusters[..], ch), offset, buff, dd.value);
        dd := Some(Overlay(dd.value, offset, buff));
      }
    }

    /** `fat32_write`.  `None` stands for a chain longer than the request, a request that is
        not a whole number of clusters, or a table without enough free entries.  Otherwise the
        file at `begin` holds its old bytes overwritten by `buff`, on its old clusters and
        `news`, the least free entries of the table. */
    method Write(begin: nat, offset: nat, buff: seq<byte>, ghost ch: seq<nat>)
      returns (r: Option<nat>, ghost news: seq<nat>)
      requires Valid() && IsChain(fat[..], ch) && begin == ch[0]
      modifies this, fat, fatDisk, clusters
      ensures Valid()
      ensures r.Some? <==> Span(|ch|, Cb()) <= Request(offset, |buff|)
                           && Fits(Request(offset, |buff|), Cb(), |ch|, |FreeEntries(old(fat[..]))|)
      ensures r.Some? ==> r.value == |buff| && Outcome(old(St()), St(), ch, news)
      ensures r.Some? ==> Span(|ch + news|, Cb()) == Request(offset, |buff|)
      ensures r.Some? ==> WriteOk(old(Contents(clusters[..], ch)), offset, buff, Contents(clusters[..], ch + news))
      ensures r.Some? ==> ReadsBack(old(St()), St(), ch, news)
      ensures if r.Some? && offset + |buff| > old(fileSize)
              then fileSize == slotSize == (offset + |buff|) % TWO32
              else fileSize == old(fileSize) && slotSize == old(slotSize)
    {
      news := [];
      var dd := Prepare(begin, offset, buff, ch);
      if dd.None? {
        return None, news;
      }
      assert |dd.value| == Request(offset, |buff|);
      hide Writing, IsChain, Span, Contents, Fits, FreeEntries, Outcome, Sized, WriteOk, ReadsBack, SaneVol;
      Sane();
      var ok;
      ok, news := WriteChain(begin, dd.value, ch);
      if !ok {
        return None, news;
      }
      WritingOutcome(old(St()), St(), Cb(), ch, news, dd.value, |ch + news|);
      WriteMounted(old(St()), St(), Cb(), ch, news);
      if offset + |buff| > fileSize {
        fileSize := (offset + |buff|) % TWO32;
        slotSize := fileSize;
      }
      r := Some(Least(|dd.value| - offset, |buff|));
    }
  }
}
