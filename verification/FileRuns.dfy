/** Whole runs of writes to the files of a volume: what fat32_write promises for one call,
    repeated in any order over any files. */
module FileRuns {
  import opened FatChain
  import opened FatDisk
  import opened FatLinks
  import opened FileData
  import opened FileWrite

  /** The FAT in memory and on disk, the data clusters, and the chain of every file by its first
      cluster. */
  datatype Store = Store(fat: Fat, disk: Disk, clusters: Clusters, chains: map<nat, seq<nat>>)

  /** A successful write to the file that begins at `head`, which grew by `news`. */
  datatype Op = Op(head: nat, offset: nat, buff: seq<byte>, news: seq<nat>)

  ghost predicate StoreOk(s: Store, cb: nat) {
    && WellFormed(s.fat, s.chains) && Sized(s.clusters, cb) && |s.clusters| == |s.fat| == 128 * |s.disk|
    && Small(s.fat)
  }

  /** The file's clusters are there to be read. */
  ghost predicate HasFile(s: Store, h: nat) {
    h in s.chains && s.chains[h] != [] && forall i :: 0 <= i < |s.chains[h]| ==> s.chains[h][i] < |s.clusters|
  }

  ghost function File(s: Store, h: nat): seq<byte>
    requires HasFile(s, h)
  {
    Contents(s.clusters, s.chains[h])
  }

  function OpLinks(s: Store, op: Op): seq<FatLink>
    requires op.head in s.chains && s.chains[op.head] != []
  {
    LinksOf(s.chains[op.head], op.news)
  }

  /** The effect that `Volume.Write` promises: the chain grows by the least free entries, both
      FATs are what linking them makes, other clusters keep their bytes and all their size, and
      the file is overlaid. */
  ghost predicate Step(s: Store, op: Op, t: Store, cb: nat) {
    && HasFile(s, op.head) && HasFile(t, op.head)
    && t.chains == s.chains[op.head := s.chains[op.head] + op.news]
    && op.news == FirstFree(s.fat, 0, |op.news|)
    && |s.fat| == 128 * |s.disk| && InTable(OpLinks(s, op), |s.fat|)
    && t.fat == LinkAll(s.fat, OpLinks(s, op)) && t.disk == FlushAll(s.fat, s.disk, OpLinks(s, op))
    && Untouched(s.clusters, t.clusters, t.chains[op.head]) && (Sized(s.clusters, cb) ==> Sized(t.clusters, cb))
    && WriteOk(File(s, op.head), op.offset, op.buff, File(t, op.head))
  }

  /** Linking the least free entries behind a chain lets it grow and nothing else. */
  lemma {:induction false} FirstFreeGrows(fat: Fat, ch: seq<nat>, news: seq<nat>, m: nat)
    requires IsChain(fat, ch) && 2 <= |fat| && fat[0] != 0 && fat[1] != 0 && m <= |news|
    requires LeastFree(fat, 0, news)
    ensures Linkable(fat, LinksOf(ch, news[..m])) && Grown(fat, LinkAll(fat, LinksOf(ch, news[..m])), ch, news[..m])
    ensures m > 0 ==> NoneFreeBelow(LinkAll(fat, LinksOf(ch, news[..m])), news[m - 1])
  {
    hide Linkable, LinkAll, LeastFree, IsFirstFree, NoneFreeBelow, FreeEntries;
    if m == 0 {
      GrownRefl(fat, ch);
      NothingLinked(fat, ch);
    } else {
      var some, t := news[..m - 1], news[m - 1];
      FirstFreeGrows(fat, ch, news, m - 1);
      var mid := LinkAll(fat, LinksOf(ch, some));
      NextFree(fat, mid, ch, news, m - 1);
      GrownStep(fat, mid, ch, some, t);
      assert news[..m] == some + [t];
      LinksAppend(ch, some, t);
      TailOpen(mid, ch + some);
      LinkOneMore(fat, LinksOf(ch, some), FatLink((ch + some)[|ch + some| - 1], t));
    }
  }

  lemma NothingLinked(fat: Fat, ch: seq<nat>)
    requires ch != []
    ensures LinksOf(ch, []) == [] && Linkable(fat, []) && LinkAll(fat, []) == fat
  {
  }

  lemma TailOpen(fat: Fat, all: seq<nat>)
    requires IsChain(fat, all)
    ensures 2 <= all[|all| - 1] < |fat| && fat[all[|all| - 1]] == EOC
  {
    assert fat[all[|all| - 1]] == Successor(all, |all| - 1);
  }

  lemma LinkOneMore(fat: Fat, links: seq<FatLink>, l: FatLink)
    requires Linkable(fat, links) && CanLink(LinkAll(fat, links), l)
    ensures Linkable(fat, links + [l])
    ensures LinkAll(fat, links + [l]) == Link(LinkAll(fat, links), l.tail, l.added)
  {
    assert (links + [l])[..|links|] == links;
  }

  lemma FreeListed(fat: Fat, news: seq<nat>, m: nat, c: nat)
    requires m < |news| && LeastFree(fat, 0, news)
    requires c < news[m] && fat[c] == 0
    ensures c in news[..m]
  {
    assert news[m] <= news[|news| - 1];
    assert c in news;
    var i :| 0 <= i < |news| && news[i] == c;
    assert news[..m][i] == c;
  }

  /** After `m` of them are linked, the next is the first free entry. */
  lemma NextFree(fat: Fat, mid: Fat, ch: seq<nat>, news: seq<nat>, m: nat)
    requires m < |news| && IsChain(fat, ch) && Grown(fat, mid, ch, news[..m])
    requires 2 <= |fat| && fat[0] != 0 && fat[1] != 0
    requires LeastFree(fat, 0, news)
    ensures news[m] >= 2 && IsFirstFree(mid, news[m])
  {
    var all, t := ch + news[..m], news[m];
    var last := ch[|ch| - 1];
    assert fat[last] == Successor(ch, |ch| - 1);
    assert t !in news[..m] && t != last;
    forall c: nat | c < t && c < |mid| ensures mid[c] != 0 {
      if fat[c] == 0 {
        FreeListed(fat, news, m, c);
      }
      if c in news[..m] {
        var i :| 0 <= i < m && news[..m][i] == c;
        assert all[|ch| + i] == c && mid[c] == Successor(all, |ch| + i);
      } else if c == last {
        assert all[|ch| - 1] == c && mid[c] == Successor(all, |ch| - 1);
      }
    }
  }

  /** So a step can be linked and lets its chain grow. */
  lemma StepGrows(s: Store, op: Op, t: Store, cb: nat)
    requires StoreOk(s, cb) && Step(s, op, t, cb)
    ensures IsChain(s.fat, s.chains[op.head]) && Grown(s.fat, t.fat, s.chains[op.head], op.news)
    ensures Linkable(s.fat, OpLinks(s, op))
  {
    hide Grown, LinkAll, FlushAll, Linkable, Contents, WriteOk, Untouched, Sized, LeastFree, FirstFree, IsChain;
    var ch := s.chains[op.head];
    FirstFreeAre(s.fat, 0, |op.news|);
    FirstFreeGrows(s.fat, ch, op.news, |op.news|);
    assert op.news[..|op.news|] == op.news;
  }

  /** A write keeps the volume well formed and every other file's bytes, and takes from the
      free entries exactly what it adds to the chain. */
  lemma StepKeeps(s: Store, op: Op, t: Store, cb: nat)
    requires StoreOk(s, cb) && Step(s, op, t, cb)
    ensures StoreOk(t, cb) && t.chains.Keys == s.chains.Keys
    ensures |FreeEntries(t.fat)| + |op.news| == |FreeEntries(s.fat)|
  {
    hide Grown, LinkAll, FlushAll, Contents, WriteOk, FreeEntries, WellFormed, IsChain;
    var ch := s.chains[op.head];
    StepGrows(s, op, t, cb);
    GrowthKeepsVolume(s.fat, t.fat, s.chains, op.head, op.news);
    GrowthUsesFree(s.fat, t.fat, ch, op.news);
    LinkAllSmall(s.fat, OpLinks(s, op));
  }

  lemma OtherFile(s: Store, op: Op, t: Store, cb: nat, h: nat)
    requires StoreOk(s, cb) && Step(s, op, t, cb) && h in s.chains && h != op.head
    ensures HasFile(s, h) && HasFile(t, h) && t.chains[h] == s.chains[h] && File(t, h) == File(s, h)
  {
    hide Grown, LinkAll, FlushAll, Contents, WriteOk, Linkable, FirstFree;
    StepGrows(s, op, t, cb);
    OtherClusters(s, op, t, cb, h);
    ContentsFrame(s.clusters, t.clusters, s.chains[h]);
  }

  lemma OtherClusters(s: Store, op: Op, t: Store, cb: nat, h: nat)
    requires StoreOk(s, cb) && Step(s, op, t, cb) && h in s.chains && h != op.head
    requires Grown(s.fat, t.fat, s.chains[op.head], op.news)
    ensures HasFile(s, h) && HasFile(t, h) && t.chains[h] == s.chains[h]
    ensures forall i :: 0 <= i < |s.chains[h]| ==> t.clusters[s.chains[h][i]] == s.clusters[s.chains[h][i]]
  {
    hide LinkAll, FlushAll, Contents, WriteOk, Linkable, FirstFree, Sized;
    var o := s.chains[h];
    var ch := s.chains[op.head];
    assert IsChain(s.fat, o) && Apart(o, ch);
    forall i | 0 <= i < |o| ensures o[i] < |s.clusters| && o[i] !in ch + op.news {
      assert s.fat[o[i]] == Successor(o, i) != 0;
    }
  }

  // ----- runs -----

  /** `states` goes through the writes `ops`, one after the other. */
  ghost predicate IsRun(states: seq<Store>, ops: seq<Op>, cb: nat) {
    && |states| == |ops| + 1
    && forall k :: 0 <= k < |ops| ==> Step(states[k], ops[k], states[k + 1], cb)
  }

  lemma RunInit(states: seq<Store>, ops: seq<Op>, cb: nat)
    requires IsRun(states, ops, cb) && ops != []
    ensures var n := |ops| - 1;
            |states| == n + 2 && IsRun(states[..n + 1], ops[..n], cb) && Step(states[n], ops[n], states[n + 1], cb)
  {
    hide Step;
  }

  lemma RunSize(states: seq<Store>, ops: seq<Op>, cb: nat)
    requires IsRun(states, ops, cb)
    ensures |states| == |ops| + 1
  {
  }

  /** Clusters appended by the run. */
  function Added(ops: seq<Op>): nat {
    if ops == [] then 0 else Added(ops[..|ops| - 1]) + |ops[|ops| - 1].news|
  }

  /** Over every run of writes to any files the volume stays well formed, and free entries plus
      appended clusters are constant. */
  lemma {:induction false} RunKeeps(states: seq<Store>, ops: seq<Op>, cb: nat)
    requires IsRun(states, ops, cb) && StoreOk(states[0], cb)
    ensures var last := states[|ops|];
            && StoreOk(last, cb) && last.chains.Keys == states[0].chains.Keys
            && |FreeEntries(last.fat)| + Added(ops) == |FreeEntries(states[0].fat)|
  {
    hide StoreOk, Step, IsRun, FreeEntries;
    RunSize(states, ops, cb);
    if ops != [] {
      var n := |ops| - 1;
      RunInit(states, ops, cb);
      RunKeeps(states[..n + 1], ops[..n], cb);
      StepKeeps(states[n], ops[n], states[n + 1], cb);
    }
  }

  // ----- the two FATs -----

  ghost predicate HasFiles(states: seq<Store>, ops: seq<Op>) {
    |states| == |ops| + 1 && forall k :: 0 <= k < |ops| ==> HasFile(states[k], ops[k].head)
  }

  /** All the links of the run, in order. */
  ghost function AllLinks(states: seq<Store>, ops: seq<Op>): seq<FatLink>
    requires HasFiles(states, ops)
    decreases |ops|
  {
    if ops == [] then []
    else
      var n := |ops| - 1;
      assert HasFile(states[n], ops[n].head);
      AllLinks(states[..n + 1], ops[..n]) + OpLinks(states[n], ops[n])
  }

  lemma RunFiles(states: seq<Store>, ops: seq<Op>, cb: nat)
    requires IsRun(states, ops, cb)
    ensures HasFiles(states, ops)
  {
    forall k | 0 <= k < |ops| ensures HasFile(states[k], ops[k].head) {
      assert Step(states[k], ops[k], states[k + 1], cb);
    }
  }

  /** Both FATs at the end are what all the links make of those at the start. */
  lemma {:induction false} RunLinks(states: seq<Store>, ops: seq<Op>, cb: nat)
    requires IsRun(states, ops, cb) && StoreOk(states[0], cb)
    ensures HasFiles(states, ops)
    ensures var s, t, links := states[0], states[|ops|], AllLinks(states, ops);
            && Linkable(s.fat, links) && |s.fat| == 128 * |s.disk| && Small(s.fat)
            && t.fat == LinkAll(s.fat, links) && t.disk == FlushAll(s.fat, s.disk, links)
    decreases |ops|
  {
    hide Step, IsRun, LinkAll, FlushAll, Linkable, HasFile, WellFormed;
    RunFiles(states, ops, cb);
    var s := states[0];
    if ops == [] {
      NoLinks(s.fat, s.disk);
    } else {
      var n := |ops| - 1;
      RunInit(states, ops, cb);
      RunKeeps(states[..n + 1], ops[..n], cb);
      RunLinks(states[..n + 1], ops[..n], cb);
      StepLinks(states[n], ops[n], states[n + 1], cb);
      LinksConcat(s.fat, s.disk, AllLinks(states[..n + 1], ops[..n]), OpLinks(states[n], ops[n]));
    }
  }

  lemma StepLinks(s: Store, op: Op, t: Store, cb: nat)
    requires StoreOk(s, cb) && Step(s, op, t, cb)
    ensures op.head in s.chains && s.chains[op.head] != []
    ensures HasFile(s, op.head) && Linkable(s.fat, OpLinks(s, op)) && |s.fat| == 128 * |s.disk|
    ensures t.fat == LinkAll(s.fat, OpLinks(s, op)) && t.disk == FlushAll(s.fat, s.disk, OpLinks(s, op))
  {
    hide Grown, LinkAll, FlushAll, Linkable, Contents, WriteOk, FirstFree, Untouched, Sized, WellFormed;
    StepGrows(s, op, t, cb);
  }

  /** Over every run a mount reads from the disk what is in memory in the end, if it did at the
      start, exactly when every FAT sector that a link touches is refreshed by that link or a later
      one, of whatever file.  Then it reads the chains of all files, as they have grown. */
  lemma RunAgreement(states: seq<Store>, ops: seq<Op>, cb: nat)
    requires IsRun(states, ops, cb) && StoreOk(states[0], cb)
    requires Sectors(states[0].disk) && Mounted(states[0].disk) == states[0].fat
    ensures HasFiles(states, ops)
    ensures var last := states[|ops|];
            && Sectors(last.disk)
            && (Mounted(last.disk) == last.fat <==> Covered(AllLinks(states, ops), |states[0].disk|))
            && (Covered(AllLinks(states, ops), |states[0].disk|) ==> WellFormed(Mounted(last.disk), last.chains))
  {
    hide Step, IsRun, LinkAll, FlushAll, Linkable, HasFile, Mounted, Covered, Small, WellFormed, FreeEntries;
    RunLinks(states, ops, cb);
    RunKeeps(states, ops, cb);
    MountAgreement(states[0].fat, states[0].disk, AllLinks(states, ops));
  }

  /** In every case it reads each entry as it was at the last link that refreshed its sector. */
  lemma RunMounted(states: seq<Store>, ops: seq<Op>, cb: nat, c: nat)
    requires IsRun(states, ops, cb) && StoreOk(states[0], cb)
    requires Sectors(states[0].disk) && Mounted(states[0].disk) == states[0].fat && c < |states[0].fat|
    ensures HasFiles(states, ops)
    ensures var links, last := AllLinks(states, ops), states[|ops|].disk;
            var some := links[..LastRefresh(links, c / 128)];
            && Sectors(last) && |last| == |states[0].disk| && InTable(some, |states[0].fat|)
            && EntryOnDisk(last, c) == LinkAll(states[0].fat, some)[c]
  {
    hide Step, IsRun, LinkAll, FlushAll, Linkable, HasFile, Mounted, Small, WellFormed, EntryOnDisk, LastRefresh;
    RunLinks(states, ops, cb);
    MountReads(states[0].fat, states[0].disk, AllLinks(states, ops), c);
  }

  // ----- the bytes of the files -----

  /** `op` writes byte `i` of file `h`. */
  predicate Covers(op: Op, h: nat, i: nat) {
    op.head == h && op.offset <= i < op.offset + |op.buff|
  }

  /** No write from the `k`-th on covers byte `i` of file `h`. */
  ghost predicate Spared(ops: seq<Op>, k: nat, h: nat, i: nat) {
    forall m :: k <= m < |ops| ==> !Covers(ops[m], h, i)
  }

  /** Byte `i` of file `h` exists and is `b`. */
  ghost predicate ByteIs(s: Store, h: nat, i: nat, b: byte) {
    HasFile(s, h) && i < |File(s, h)| && File(s, h)[i] == b
  }

  lemma ByteStays(s: Store, op: Op, t: Store, cb: nat, h: nat, i: nat, b: byte)
    requires StoreOk(s, cb) && Step(s, op, t, cb) && ByteIs(s, h, i, b) && !Covers(op, h, i)
    ensures ByteIs(t, h, i, b)
  {
    hide StoreOk, Contents, LinkAll, FlushAll, FirstFree, Untouched, Sized;
    if h != op.head {
      OtherFile(s, op, t, cb, h);
    }
  }

  lemma ByteWritten(s: Store, op: Op, t: Store, cb: nat, h: nat, i: nat)
    requires Step(s, op, t, cb) && Covers(op, h, i)
    ensures ByteIs(t, h, i, op.buff[i - op.offset])
  {
    hide Contents, LinkAll, FlushAll, FirstFree, Untouched, Sized, WriteOk;
    BuffAt(File(s, h), op.offset, op.buff, File(t, h), i);
  }

  lemma BuffAt(before: seq<byte>, offset: nat, buff: seq<byte>, after: seq<byte>, i: nat)
    requires WriteOk(before, offset, buff, after) && offset <= i < offset + |buff|
    ensures i < |after| && after[i] == buff[i - offset]
  {
    assert after[offset + (i - offset)] == buff[i - offset];
  }

  /** A byte that no write of the run covers is as it was, whatever was written to other files
      or other places. */
  lemma {:induction false} UncoveredStays(states: seq<Store>, ops: seq<Op>, cb: nat, h: nat, i: nat, b: byte)
    requires IsRun(states, ops, cb) && StoreOk(states[0], cb) && ByteIs(states[0], h, i, b) && Spared(ops, 0, h, i)
    ensures ByteIs(states[|ops|], h, i, b)
  {
    hide StoreOk, Step, IsRun, ByteIs, Covers;
    RunSize(states, ops, cb);
    if ops != [] {
      var n := |ops| - 1;
      RunInit(states, ops, cb);
      UncoveredStays(states[..n + 1], ops[..n], cb, h, i, b);
      RunKeeps(states[..n + 1], ops[..n], cb);
      ByteStays(states[n], ops[n], states[n + 1], cb, h, i, b);
    }
  }

  /** Last write wins: a byte is what the last write that covered it put there. */
  lemma LastWriteWins(states: seq<Store>, ops: seq<Op>, cb: nat, h: nat, i: nat, k: nat)
    requires IsRun(states, ops, cb) && StoreOk(states[0], cb)
    requires k < |ops| && Covers(ops[k], h, i) && Spared(ops, k + 1, h, i)
    ensures ByteIs(states[|ops|], h, i, ops[k].buff[i - ops[k].offset])
  {
    hide StoreOk, Step, IsRun, ByteIs, Spared;
    Parts(states, ops, cb, k, h, i);
    RunKeeps(states[..k + 2], ops[..k + 1], cb);
    ByteWritten(states[k], ops[k], states[k + 1], cb, h, i);
    UncoveredStays(states[k + 1..], ops[k + 1..], cb, h, i, ops[k].buff[i - ops[k].offset]);
  }

  lemma Parts(states: seq<Store>, ops: seq<Op>, cb: nat, k: nat, h: nat, i: nat)
    requires IsRun(states, ops, cb) && k < |ops| && Spared(ops, k + 1, h, i)
    ensures |states| == |ops| + 1 && Step(states[k], ops[k], states[k + 1], cb)
    ensures IsRun(states[..k + 2], ops[..k + 1], cb) && IsRun(states[k + 1..], ops[k + 1..], cb)
    ensures states[..k + 2][0] == states[0] && states[..k + 2][|ops[..k + 1]|] == states[k + 1]
    ensures states[k + 1..][0] == states[k + 1] && states[k + 1..][|ops[k + 1..]|] == states[|ops|]
    ensures Spared(ops[k + 1..], 0, h, i)
  {
    hide Step, Covers;
  }

  /** A call of fat32_write that succeeds is such a step. */
  lemma WriteIsStep(v0: Vol, v: Vol, chains: map<nat, seq<nat>>, op: Op, cb: nat)
    requires SaneVol(v0, cb) && SaneVol(v, cb) && WellFormed(v0.fat, chains) && op.head in chains
    requires Outcome(v0, v, chains[op.head], op.news)
    requires WriteOk(Contents(v0.clusters, chains[op.head]), op.offset, op.buff,
                     Contents(v.clusters, chains[op.head] + op.news))
    ensures StoreOk(Store(v0.fat, v0.disk, v0.clusters, chains), cb)
    ensures Step(Store(v0.fat, v0.disk, v0.clusters, chains), op,
                 Store(v.fat, v.disk, v.clusters, chains[op.head := chains[op.head] + op.news]), cb)
  {
  }
}
