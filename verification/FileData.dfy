/** The bytes of a file as its clusters hold them, and the byte overlay that a write is. */
module FileData {
  import opened Common
  import opened FatDisk

  /** The data area: the bytes of each cluster, by cluster number. */
  type Clusters = seq<seq<byte>>

  ghost predicate Sized(clusters: Clusters, cb: nat) {
    cb > 0 && forall c :: 0 <= c < |clusters| ==> |clusters[c]| == cb
  }

  /** The bytes of the clusters of `ch`, in order. */
  function Contents(clusters: Clusters, ch: seq<nat>): seq<byte>
    requires forall i :: 0 <= i < |ch| ==> ch[i] < |clusters|
  {
    if ch == [] then [] else Contents(clusters, ch[..|ch| - 1]) + clusters[ch[|ch| - 1]]
  }

  /** The bytes of `k` clusters. */
  function Span(k: nat, cb: nat): nat {
    k * cb
  }

  lemma SpanStep(k: nat, n: nat, cb: nat)
    requires k < n
    ensures Span(0, cb) == 0 && Span(k, cb) + cb == Span(k + 1, cb) <= Span(n, cb)
  {
    hide Span;
    SpanZero(cb);
    SpanSum(k, 1, cb);
    SpanOne(cb);
    SpanSum(k + 1, n - k - 1, cb);
  }

  lemma SpanZero(cb: nat)
    ensures Span(0, cb) == 0
  {
  }

  lemma SpanOne(cb: nat)
    ensures Span(1, cb) == cb
  {
  }

  lemma SpanSum(j: nat, k: nat, cb: nat)
    ensures Span(j + k, cb) == Span(j, cb) + Span(k, cb)
  {
  }

  lemma SpanOrder(k: nat, m: nat, cb: nat)
    requires cb > 0
    ensures Span(k, cb) < Span(m, cb) <==> k < m
    ensures Span(k, cb) == Span(m, cb) <==> k == m
  {
    hide Span;
    if k < m {
      SpanStep(k, m, cb);
    } else if m < k {
      SpanStep(m, k, cb);
    }
  }

  /** `size` bytes fill whole clusters, and at most `spare` more than the `have` there are. */
  ghost predicate Fits(size: nat, cb: nat, have: nat, spare: nat) {
    exists m: nat :: size == Span(m, cb) && m <= have + spare
  }

  /** A size strictly between two multiples fits nothing. */
  lemma FitsNot(size: nat, cb: nat, have: nat, spare: nat, k: nat)
    requires cb > 0 && Span(k, cb) < size
    requires size < Span(k + 1, cb) || have + spare <= k
    ensures !Fits(size, cb, have, spare)
  {
    forall m: nat | size == Span(m, cb) ensures m > have + spare {
      SpanOrder(k, m, cb);
      SpanOrder(m, k + 1, cb);
    }
  }

  lemma {:induction false} ContentsSize(clusters: Clusters, ch: seq<nat>, cb: nat)
    requires Sized(clusters, cb) && forall i :: 0 <= i < |ch| ==> ch[i] < |clusters|
    ensures |Contents(clusters, ch)| == Span(|ch|, cb)
  {
    if ch != [] {
      var n := |ch| - 1;
      ContentsSize(clusters, ch[..n], cb);
      assert (n + 1) * cb == n * cb + cb;
    }
  }

  lemma {:induction false} ContentsAppend(clusters: Clusters, ch: seq<nat>, c: nat)
    requires (forall i :: 0 <= i < |ch| ==> ch[i] < |clusters|) && c < |clusters|
    ensures Contents(clusters, ch + [c]) == Contents(clusters, ch) + clusters[c]
  {
    assert (ch + [c])[..|ch|] == ch;
  }

  /** Clusters outside of the chain do not matter. */
  lemma {:induction false} ContentsFrame(before: Clusters, after: Clusters, ch: seq<nat>)
    requires forall i :: 0 <= i < |ch| ==> ch[i] < |before| && ch[i] < |after| && before[ch[i]] == after[ch[i]]
    ensures Contents(before, ch) == Contents(after, ch)
  {
    if ch != [] {
      ContentsFrame(before, after, ch[..|ch| - 1]);
    }
  }

  /** Byte `m` of the `j`-th cluster of the chain is that byte of the file. */
  lemma {:induction false} ContentsAt(clusters: Clusters, ch: seq<nat>, cb: nat, j: nat, m: nat)
    requires Sized(clusters, cb) && (forall i :: 0 <= i < |ch| ==> ch[i] < |clusters|) && j < |ch| && m < cb
    ensures Span(j, cb) + m < |Contents(clusters, ch)|
    ensures Contents(clusters, ch)[Span(j, cb) + m] == clusters[ch[j]][m]
  {
    hide Span;
    var n := |ch| - 1;
    ContentsSize(clusters, ch, cb);
    ContentsSize(clusters, ch[..n], cb);
    SpanStep(j, |ch|, cb);
    SpanStep(n, |ch|, cb);
    if j < n {
      ContentsAt(clusters, ch[..n], cb, j, m);
    }
  }

  /** `bytes` with `buff` written over it from `offset`. */
  function Overlay(bytes: seq<byte>, offset: nat, buff: seq<byte>): seq<byte>
    requires offset + |buff| <= |bytes|
  {
    bytes[..offset] + buff + bytes[offset + |buff|..]
  }

  /** DIV_ROUNDUP(offset + len, bytes_per_sector) * bytes_per_sector: the size of the buffer. */
  function Request(offset: nat, len: nat): (r: nat)
    ensures offset + len <= r < offset + len + 512 && r % 512 == 0
  {
    (offset + len + 511) / 512 * 512
  }

  /** MIN of kernel/lib. */
  function Least(a: int, b: int): (r: int)
    ensures r <= a && r <= b && (r == a || r == b)
  {
    if a < b then a else b
  }

  /** What fat32_read promises for a file with these contents: the bytes that exist in the
      range asked for.  (Bytes past the end of the chain are whatever the buffer held.) */
  ghost predicate ReadOk(contents: seq<byte>, offset: nat, len: nat, result: seq<byte>) {
    |result| == len && forall i :: 0 <= i < len && offset + i < |contents| ==> result[i] == contents[offset + i]
  }

  /** The last lines of fat32_read: the file is at the front of the buffer, and the range asked for
      is copied out. */
  lemma CopiedOut(file: seq<byte>, dd: seq<byte>, offset: nat, len: nat)
    requires |dd| == Request(offset, len) && |file| <= |dd| && dd[..|file|] == file
    ensures Least(|dd| - offset, len) == len && ReadOk(file, offset, len, dd[offset..offset + len])
  {
    var part := dd[offset..offset + len];
    forall i | 0 <= i < len && offset + i < |file| ensures part[i] == file[offset + i] {
      assert dd[..|file|][offset + i] == file[offset + i];
    }
  }

  /** What fat32_write promises: the file is as long as the rounded request, holds the new
      bytes in their range, and its old bytes elsewhere. */
  ghost predicate WriteOk(before: seq<byte>, offset: nat, buff: seq<byte>, after: seq<byte>) {
    && |after| == Request(offset, |buff|) && |before| <= |after|
    && (forall i :: 0 <= i < |buff| ==> after[offset + i] == buff[i])
    && (forall i :: 0 <= i < |before| && !(offset <= i < offset + |buff|) ==> after[i] == before[i])
  }

  /** Reading the old bytes into a buffer for the whole request and copying the new ones over
      them gives what a write promises. */
  lemma OverlayOk(before: seq<byte>, offset: nat, buff: seq<byte>, dd: seq<byte>)
    requires |before| <= Request(offset, |buff|) && ReadOk(before, 0, Request(offset, |buff|), dd)
    ensures WriteOk(before, offset, buff, Overlay(dd, offset, buff))
  {
    var o := Overlay(dd, offset, buff);
    forall i | 0 <= i < |before| && !(offset <= i < offset + |buff|) ensures o[i] == before[i] {
      assert dd[i] == before[0 + i];
    }
  }

  /** Reading back what was written returns it, byte for byte. */
  lemma ReadBack(before: seq<byte>, offset: nat, buff: seq<byte>, after: seq<byte>, result: seq<byte>)
    requires WriteOk(before, offset, buff, after) && ReadOk(after, offset, |buff|, result)
    ensures result == buff
  {
    forall i | 0 <= i < |buff| ensures result[i] == buff[i] {
      assert after[offset + i] == buff[i];
    }
  }

  /** What a read of `len` bytes from `offset` of the file on the clusters `ch` returns: `None` is
      running past the end of the buffer. */
  ghost predicate ReadResult(clusters: Clusters, ch: seq<nat>, cb: nat, offset: nat, len: nat, r: Option<seq<byte>>)
    requires forall i :: 0 <= i < |ch| ==> ch[i] < |clusters|
  {
    && (r.None? <==> Span(|ch|, cb) > Request(offset, len))
    && (r.Some? ==> ReadOk(Contents(clusters, ch), offset, len, r.value))
  }

  /** A read of the range of a write that succeeded succeeds and returns what was written. */
  lemma ReadAfterWrite(before: seq<byte>, clusters: Clusters, ch: seq<nat>, cb: nat, offset: nat, buff: seq<byte>,
                       r: Option<seq<byte>>)
    requires Sized(clusters, cb) && forall i :: 0 <= i < |ch| ==> ch[i] < |clusters|
    requires WriteOk(before, offset, buff, Contents(clusters, ch))
    requires ReadResult(clusters, ch, cb, offset, |buff|, r)
    ensures r == Some(buff)
  {
    ContentsSize(clusters, ch, cb);
    ReadBack(before, offset, buff, Contents(clusters, ch), r.value);
  }

  /** When the file does not grow, a write is exactly the overlay. */
  lemma WriteIsOverlay(before: seq<byte>, offset: nat, buff: seq<byte>, after: seq<byte>)
    requires WriteOk(before, offset, buff, after) && |before| == |after|
    ensures after == Overlay(before, offset, buff)
  {
    var o := Overlay(before, offset, buff);
    forall i | 0 <= i < |after| ensures after[i] == o[i] {
      if offset <= i < offset + |buff| {
        assert after[offset + (i - offset)] == buff[i - offset];
      }
    }
  }
}
