/** Cluster chains of the FAT (kernel/fs/fat32.h and kernel/fs/fat32.c) on values. */
module FatChain {
  /** The end marker the code writes; the only one below 0xFFFFFFF8 it recognises. */
  const EOC: nat := 0x0FFF_FFFF
  const RESERVED: nat := 0xFFFF_FFF8

  /** The in-memory FAT, one 32-bit entry a cluster. */
  type Fat = seq<nat>

  /** fat32_get_next_cluster; 0 means the chain ends. */
  function NextCluster(cluster: nat, fat: Fat): nat {
    if cluster >= |fat| then 0
    else if fat[cluster] >= RESERVED then 0
    else if fat[cluster] == EOC then 0
    else fat[cluster]
  }

  /** The entry of the i-th cluster of a chain: the next cluster, or the end marker. */
  function Successor(ch: seq<nat>, i: nat): nat
    requires i < |ch|
  {
    if i + 1 < |ch| then ch[i + 1] else EOC
  }

  /** `ch` lists the clusters of a chain, first to last. */
  ghost predicate IsChain(fat: Fat, ch: seq<nat>) {
    && |ch| > 0 && |fat| <= EOC
    && (forall i :: 0 <= i < |ch| ==> 2 <= ch[i] < |fat|)
    && (forall i :: 0 <= i < |ch| ==> fat[ch[i]] == Successor(ch, i))
  }

  /** Which marks end a walk: it stops exactly at an entry that is 0, 0x0FFFFFFF, or at least
      0xFFFFFFF8.  Of the other end marks of the FAT32 specification, 0x0FFFFFF8 to 0x0FFFFFFE, it
      takes none for an end. */
  lemma EndMarks(fat: Fat, c: nat)
    requires c < |fat| && fat[c] < 0x1_0000_0000
    ensures NextCluster(c, fat) == 0 <==> fat[c] == 0 || fat[c] == 0x0FFF_FFFF || fat[c] >= 0xFFFF_FFF8
    ensures NextCluster(c, fat) != 0 ==> NextCluster(c, fat) == fat[c]
    ensures 0x0FFF_FFF8 <= fat[c] <= 0x0FFF_FFFE ==> NextCluster(c, fat) == fat[c]
  {
  }

  /** The code's walk passes through exactly the clusters of the chain and then stops. */
  lemma WalkFollows(fat: Fat, ch: seq<nat>, i: nat)
    requires IsChain(fat, ch) && i < |ch|
    ensures NextCluster(ch[i], fat) == if i + 1 < |ch| then ch[i + 1] else 0
  {
  }

  /** A chain that ends never visits a cluster twice. */
  lemma {:induction false} ChainAcyclic(fat: Fat, ch: seq<nat>, i: nat, j: nat)
    requires IsChain(fat, ch) && i < j < |ch|
    ensures ch[i] != ch[j]
    decreases |ch| - j
  {
    assert fat[ch[i]] == ch[i + 1];
    if j + 1 < |ch| {
      assert fat[ch[j]] == ch[j + 1];
      ChainAcyclic(fat, ch, i + 1, j + 1);
    } else {
      assert fat[ch[j]] == EOC;
    }
  }

  // ----- free entries -----

  function FreeEntries(fat: Fat): set<int> {
    set c: int | 0 <= c < |fat| && fat[c] == 0
  }

  /** `free` is the entry fat32_get_free_cluster returns: the least free one. */
  ghost predicate IsFirstFree(fat: Fat, free: nat) {
    free < |fat| && fat[free] == 0 && NoneFreeBelow(fat, free)
  }

  ghost predicate NoneFreeBelow(fat: Fat, limit: nat) {
    forall c :: 0 <= c < limit && c < |fat| ==> fat[c] != 0
  }

  /** The least `n` free entries from `from` on, or all of them when there are fewer. */
  function FirstFree(fat: Fat, from: nat, n: nat): (r: seq<nat>)
    ensures |r| <= n
    decreases |fat| - from
  {
    if n == 0 || from >= |fat| then []
    else if fat[from] == 0 then [from] + FirstFree(fat, from + 1, n - 1)
    else FirstFree(fat, from + 1, n)
  }

  /** Free entries in ascending order. */
  ghost predicate FreeAscending(fat: Fat, from: nat, news: seq<nat>) {
    && (forall i :: 0 <= i < |news| ==> from <= news[i] < |fat| && fat[news[i]] == 0)
    && (forall i, j :: 0 <= i < j < |news| ==> news[i] < news[j])
  }

  /** All free entries below `limit` are listed. */
  ghost predicate NoGap(fat: Fat, from: nat, limit: nat, news: seq<nat>) {
    forall c :: from <= c < limit && c < |fat| && fat[c] == 0 ==> c in news
  }

  /** The least free entries from `from` on, as many as are listed. */
  ghost predicate LeastFree(fat: Fat, from: nat, news: seq<nat>) {
    FreeAscending(fat, from, news) && (news != [] ==> NoGap(fat, from, news[|news| - 1], news))
  }

  lemma LeastFreeSkip(fat: Fat, from: nat, news: seq<nat>)
    requires from < |fat| && fat[from] != 0
    ensures LeastFree(fat, from, news) <==> LeastFree(fat, from + 1, news)
  {
    if FreeAscending(fat, from, news) {
      assert forall i :: 0 <= i < |news| ==> from != news[i];
    }
  }

  lemma LeastFreeStart(fat: Fat, from: nat, news: seq<nat>)
    requires LeastFree(fat, from, news) && news != []
    ensures from <= news[0] < |fat| && (fat[from] == 0 ==> news[0] == from)
  {
    var last := news[|news| - 1];
    assert news[0] <= last;
    if fat[from] == 0 && from < last {
      assert from in news;
    }
  }

  lemma LeastFreeTail(fat: Fat, from: nat, news: seq<nat>)
    requires LeastFree(fat, from, news) && news != [] && news[0] == from
    ensures LeastFree(fat, from + 1, news[1..]) && news == [from] + news[1..]
  {
    var last := news[|news| - 1];
    forall c | from + 1 <= c < last && c < |fat| && fat[c] == 0 ensures c in news[1..] {
      assert c in news && c != news[0];
    }
  }

  lemma LeastFreeMore(fat: Fat, from: nat, news: seq<nat>)
    requires from < |fat| && fat[from] == 0 && LeastFree(fat, from + 1, news)
    ensures LeastFree(fat, from, [from] + news)
    ensures NoGap(fat, from + 1, |fat|, news) ==> NoGap(fat, from, |fat|, [from] + news)
  {
  }

  lemma NoGapSkip(fat: Fat, from: nat, news: seq<nat>)
    requires from < |fat| && fat[from] != 0
    ensures NoGap(fat, from + 1, |fat|, news) ==> NoGap(fat, from, |fat|, news)
  {
  }

  /** That is what `FirstFree` lists. */
  lemma {:induction false} FirstFreeIs(fat: Fat, from: nat, news: seq<nat>)
    requires LeastFree(fat, from, news)
    ensures FirstFree(fat, from, |news|) == news
    decreases |fat| - from
  {
    hide LeastFree;
    if news != [] {
      LeastFreeStart(fat, from, news);
      if fat[from] == 0 {
        LeastFreeTail(fat, from, news);
        FirstFreeIs(fat, from + 1, news[1..]);
      } else {
        LeastFreeSkip(fat, from, news);
        FirstFreeIs(fat, from + 1, news);
      }
    }
  }

  lemma {:induction false} FirstFreeAre(fat: Fat, from: nat, n: nat)
    ensures var r := FirstFree(fat, from, n);
            LeastFree(fat, from, r) && (|r| < n ==> NoGap(fat, from, |fat|, r))
    decreases |fat| - from
  {
    hide LeastFree, NoGap;
    if n == 0 || from >= |fat| {
      LeastFreeNone(fat, from);
    } else if fat[from] == 0 {
      FirstFreeAre(fat, from + 1, n - 1);
      LeastFreeMore(fat, from, FirstFree(fat, from + 1, n - 1));
    } else {
      FirstFreeAre(fat, from + 1, n);
      LeastFreeSkip(fat, from, FirstFree(fat, from + 1, n));
      NoGapSkip(fat, from, FirstFree(fat, from + 1, n));
    }
  }

  lemma LeastFreeNone(fat: Fat, from: nat)
    ensures LeastFree(fat, from, []) && (from >= |fat| ==> NoGap(fat, from, |fat|, []))
  {
  }

  // ----- linking a cluster at the end of a chain -----

  /** The two FAT stores of fat32_write. */
  function Link(fat: Fat, tail: nat, added: nat): Fat
    requires tail < |fat| && added < |fat|
  {
    fat[tail := added][added := EOC]
  }

  lemma LinkExtends(fat: Fat, ch: seq<nat>, t: nat)
    requires IsChain(fat, ch) && 2 <= t < |fat| && fat[t] == 0
    ensures ch[|ch| - 1] != t && IsChain(Link(fat, ch[|ch| - 1], t), ch + [t])
    ensures FreeEntries(Link(fat, ch[|ch| - 1], t)) == FreeEntries(fat) - {t}
    ensures |FreeEntries(Link(fat, ch[|ch| - 1], t))| == |FreeEntries(fat)| - 1
  {
    var n := |ch| - 1;
    var after := Link(fat, ch[n], t);
    assert forall i :: 0 <= i <= n ==> fat[ch[i]] != 0;
    forall i | 0 <= i < n ensures ch[i] != ch[n] {
      ChainAcyclic(fat, ch, i, n);
    }
    assert FreeEntries(after) == FreeEntries(fat) - {t};
    assert t in FreeEntries(fat);
  }

  /** `after` differs from `before` only by having `news` hung at the end of the chain `ch`. */
  ghost predicate Grown(before: Fat, after: Fat, ch: seq<nat>, news: seq<nat>) {
    && |after| == |before| && IsChain(after, ch + news)
    && (forall i :: 0 <= i < |news| ==> 2 <= news[i] < |before| && before[news[i]] == 0)
    && (forall i, j :: 0 <= i < j < |news| ==> news[i] < news[j])
    && (forall c :: 0 <= c < |before| && c !in news && (ch == [] || c != ch[|ch| - 1]) ==> after[c] == before[c])
  }

  lemma GrownRefl(fat: Fat, ch: seq<nat>)
    requires IsChain(fat, ch)
    ensures Grown(fat, fat, ch, [])
  {
    assert ch + [] == ch;
  }

  /** One more link: first fit hands out the free entries in ascending order. */
  lemma GrownStep(before: Fat, mid: Fat, ch: seq<nat>, news: seq<nat>, t: nat)
    requires IsChain(before, ch) && Grown(before, mid, ch, news) && IsFirstFree(mid, t) && t >= 2
    requires news != [] ==> NoneFreeBelow(mid, news[|news| - 1])
    ensures var all := ch + news;
            && all[|all| - 1] < |mid|
            && Grown(before, Link(mid, all[|all| - 1], t), ch, news + [t])
            && NoneFreeBelow(Link(mid, all[|all| - 1], t), t)
            && |FreeEntries(Link(mid, all[|all| - 1], t))| == |FreeEntries(mid)| - 1
  {
    var all := ch + news;
    var tail := all[|all| - 1];
    FreshCluster(before, mid, ch, news, t);
    LinkExtends(mid, all, t);
    var after := Link(mid, tail, t);
    assert all + [t] == ch + (news + [t]);
    assert tail == if news == [] then ch[|ch| - 1] else news[|news| - 1];
    hide IsChain, IsFirstFree, FreeEntries;
    forall c | 0 <= c < |before| && c !in news + [t] && c != ch[|ch| - 1] ensures after[c] == before[c] {
      assert c !in news && c != t && c != tail;
    }
  }

  /** The first free cluster is new to the chain and above all clusters added so far. */
  lemma FreshCluster(before: Fat, mid: Fat, ch: seq<nat>, news: seq<nat>, t: nat)
    requires IsChain(before, ch) && Grown(before, mid, ch, news) && IsFirstFree(mid, t)
    requires news != [] ==> NoneFreeBelow(mid, news[|news| - 1])
    ensures t !in news && t != ch[|ch| - 1] && before[t] == 0
    ensures forall i :: 0 <= i < |news| ==> news[i] < t
  {
    var all := ch + news;
    forall i | 0 <= i < |all| ensures mid[all[i]] != 0 {
      assert mid[all[i]] == Successor(all, i);
    }
    assert all[|ch| - 1] == ch[|ch| - 1];
    forall i | 0 <= i < |news| ensures news[i] != t && news[i] < t {
      assert all[|ch| + i] == news[i];
      assert news[|news| - 1] <= t;
    }
  }

  // ----- all the files of a volume -----

  /** The chains of a volume, by first cluster: every one is well formed, they share no
      cluster, and entries 0 and 1 are reserved. */
  ghost predicate WellFormed(fat: Fat, chains: map<nat, seq<nat>>) {
    && |fat| >= 2 && fat[0] != 0 && fat[1] != 0
    && (forall h :: h in chains ==> IsChain(fat, chains[h]) && chains[h][0] == h)
    && (forall g, h :: g in chains && h in chains && g != h ==> Apart(chains[g], chains[h]))
  }

  ghost predicate Apart(a: seq<nat>, b: seq<nat>) {
    forall i, j :: 0 <= i < |a| && 0 <= j < |b| ==> a[i] != b[j]
  }

  /** Growing one chain keeps the whole volume well formed. */
  lemma GrowthKeepsVolume(before: Fat, after: Fat, chains: map<nat, seq<nat>>, h: nat, news: seq<nat>)
    requires WellFormed(before, chains) && h in chains && Grown(before, after, chains[h], news)
    ensures WellFormed(after, chains[h := chains[h] + news])
  {
    hide IsChain, Grown, Apart;
    var ch := chains[h];
    GrownFacts(before, after, ch, news);
    forall g | g in chains && g != h
      ensures IsChain(after, chains[g]) && Apart(chains[g], ch + news) && Apart(ch + news, chains[g])
    {
      OtherChain(before, after, ch, news, chains[g]);
    }
  }

  lemma GrownFacts(before: Fat, after: Fat, ch: seq<nat>, news: seq<nat>)
    requires IsChain(before, ch) && Grown(before, after, ch, news) && 2 <= |before|
    ensures |after| == |before| && after[0] == before[0] && after[1] == before[1]
    ensures IsChain(after, ch + news) && ch != [] && (ch + news)[0] == ch[0]
  {
    assert 0 !in news && 1 !in news;
    assert ch[|ch| - 1] >= 2;
  }

  /** A chain apart from the one that grows stays, and stays apart. */
  lemma OtherChain(before: Fat, after: Fat, ch: seq<nat>, news: seq<nat>, o: seq<nat>)
    requires IsChain(before, ch) && Grown(before, after, ch, news) && IsChain(before, o) && Apart(o, ch)
    ensures IsChain(after, o) && Apart(o, ch + news) && Apart(ch + news, o)
  {
    forall i | 0 <= i < |o| ensures o[i] !in news && o[i] != ch[|ch| - 1] {
      assert before[o[i]] != 0;
    }
  }

  /** The free count drops by exactly the clusters added. */
  lemma {:induction false} GrowthUsesFree(before: Fat, after: Fat, ch: seq<nat>, news: seq<nat>)
    requires IsChain(before, ch) && Grown(before, after, ch, news)
    ensures |FreeEntries(after)| == |FreeEntries(before)| - |news|
    ensures FreeEntries(after) == FreeEntries(before) - (set c: int | c in news)
  {
    var used := set c: int | c in news;
    forall c: int ensures c in FreeEntries(after) <==> c in FreeEntries(before) - used {
      if 0 <= c < |before| {
        if c in news {
          var i :| 0 <= i < |news| && news[i] == c;
          assert after[(ch + news)[|ch| + i]] != 0;
        } else if c == ch[|ch| - 1] {
          assert after[(ch + news)[|ch| - 1]] != 0;
          assert before[ch[|ch| - 1]] != 0;
        }
      }
    }
    AscendingSize(news);
    assert FreeEntries(after) == FreeEntries(before) - used;
    assert used <= FreeEntries(before);
    assert |FreeEntries(before) - used| == |FreeEntries(before)| - |used|;
  }

  lemma {:induction false} AscendingSize(s: seq<nat>)
    requires forall i, j :: 0 <= i < j < |s| ==> s[i] < s[j]
    ensures |set c: int | c in s| == |s|
  {
    if s == [] {
      assert (set c: int | c in s) == {};
    } else {
      var n := |s| - 1;
      AscendingSize(s[..n]);
      assert (set c: int | c in s) == (set c: int | c in s[..n]) + {s[n]} by {
        assert s == s[..n] + [s[n]];
      }
      assert s[n] !in s[..n];
    }
  }
}
