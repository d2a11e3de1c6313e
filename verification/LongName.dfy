/** Reassembly of FAT long names, stored backwards in pieces of 13 characters
    (kernel/fs/fat32.h and the string functions of kernel/lib/string.c). */
module LongName {
  import opened Common
  import opened FatDisk

  /** The fields of `fat_lfn_entry_t` that matter for the name. */
  datatype Entry = Entry(sequence: byte, name1: seq<byte>, name2: seq<byte>, name3: seq<byte>)

  predicate IsEntry(e: Entry) {
    |e.name1| == 10 && |e.name2| == 12 && |e.name3| == 4
  }

  // ----- strings in buffers -----

  /** The string at the front of a buffer: the bytes before the first NUL. */
  function Str(s: seq<byte>): (r: seq<byte>)
    ensures |r| <= |s| && r == s[..|r|] && 0 !in r && (|r| < |s| ==> s[|r|] == 0)
  {
    if s == [] || s[0] == 0 then []
    else
      var rest := Str(s[1..]);
      assert s[..|rest| + 1] == [s[0]] + s[1..][..|rest|];
      [s[0]] + rest
  }

  /** The first NUL determines the string. */
  lemma StrIs(s: seq<byte>, n: nat)
    requires n < |s| && 0 !in s[..n] && s[n] == 0
    ensures Str(s) == s[..n]
  {
    var k := |Str(s)|;
    forall i | 0 <= i < n ensures s[i] != 0 {
      assert s[..n][i] in s[..n];
    }
    forall i | 0 <= i < k ensures s[i] != 0 {
      assert s[..k][i] in s[..k];
    }
  }

  /** `strcpy` between the two buffers. */
  method StrCpy(dst: array<byte>, src: array<byte>)
    requires dst != src && dst.Length == src.Length && |Str(src[..])| < src.Length
    modifies dst
    ensures Str(dst[..]) == Str(src[..]) && |Str(dst[..])| < dst.Length
  {
    ghost var s := Str(src[..]);
    var i := 0;
    while true
      invariant i <= |s| && dst[..i] == s[..i]
      decreases |s| - i
    {
      dst[i] := src[i];
      if src[i] == 0 {
        break;
      }
      i := i + 1;
    }
    assert i == |s|;
    StrIs(dst[..], i);
  }

  method StrLen(s: array<byte>) returns (len: nat)
    requires |Str(s[..])| < s.Length
    ensures len == |Str(s[..])|
  {
    len := 0;
    while s[len] != 0
      invariant len <= |Str(s[..])|
      decreases |Str(s[..])| - len
    {
      len := len + 1;
    }
  }

  /** `strcat`; not `ok` when it would write past the end of the buffer. */
  method StrCat(dst: array<byte>, src: array<byte>) returns (ok: bool)
    requires dst != src && |Str(dst[..])| < dst.Length && |Str(src[..])| < src.Length
    modifies dst
    ensures ok <==> |Str(old(dst[..]))| + |Str(src[..])| < dst.Length
    ensures ok ==> Str(dst[..]) == Str(old(dst[..])) + Str(src[..])
  {
    hide Str;
    ghost var d, s := Str(dst[..]), Str(src[..]);
    var destLen := StrLen(dst);
    var i := destLen;
    while true
      invariant destLen <= i <= dst.Length && i - destLen <= |s|
      invariant dst[..i] == d + s[..i - destLen]
      decreases |s| + destLen - i
    {
      if i == dst.Length {
        return false;
      }
      StrChar(src[..], i - destLen);
      ghost var was := dst[..];
      dst[i] := src[i - destLen];
      if src[i - destLen] == 0 {
        break;
      }
      OneMore(was, dst[..], d, s, i);
      i := i + 1;
    }
    CatDone(dst[..], d, s, i);
    ok := true;
  }

  /** Character `j` of the string in a buffer, or the NUL behind it. */
  lemma StrChar(s: seq<byte>, j: nat)
    requires j <= |Str(s)| < |s|
    ensures if j < |Str(s)| then s[j] == Str(s)[j] && s[j] != 0 else s[j] == 0
  {
    if j < |Str(s)| {
      assert Str(s)[j] in Str(s);
    }
  }

  lemma OneMore(was: seq<byte>, now: seq<byte>, d: seq<byte>, s: seq<byte>, i: nat)
    requires |d| <= i < |was| && i - |d| < |s| && was[..i] == d + s[..i - |d|] && now == was[i := s[i - |d|]]
    ensures now[..i + 1] == d + s[..i + 1 - |d|]
  {
    assert now[..i + 1] == was[..i] + [s[i - |d|]];
    assert s[..i + 1 - |d|] == s[..i - |d|] + [s[i - |d|]];
  }

  lemma CatDone(now: seq<byte>, d: seq<byte>, s: seq<byte>, i: nat)
    requires i == |d| + |s| < |now| && now[..i] == d + s[..|s|] && now[i] == 0 && 0 !in d && 0 !in s
    ensures Str(now) == d + s
  {
    assert now[..i] == d + s;
    StrIs(now, i);
  }

  /** `fat32_name_copy`: every other byte. */
  method NameCopy(dst: array<byte>, at: nat, src: seq<byte>, len: nat)
    requires at + len <= dst.Length && 2 * len <= |src|
    modifies dst
    ensures forall i :: 0 <= i < len ==> dst[at + i] == src[2 * i]
    ensures forall i :: 0 <= i < dst.Length && !(at <= i < at + len) ==> dst[i] == old(dst[i])
  {
    for i := 0 to len
      invariant forall j :: 0 <= j < i ==> dst[at + j] == src[2 * j]
      invariant forall j :: 0 <= j < dst.Length && !(at <= j < at + i) ==> dst[j] == old(dst[j])
    {
      dst[at + i] := src[2 * i];
    }
  }

  // ----- one entry -----

  /** The low byte of character `i` of an entry. */
  function LowByte(e: Entry, i: nat): byte
    requires IsEntry(e) && i < 13
  {
    if i < 5 then e.name1[2 * i] else if i < 11 then e.name2[2 * (i - 5)] else e.name3[2 * (i - 11)]
  }

  function Piece(e: Entry): seq<byte>
    requires IsEntry(e)
  {
    seq(13, i requires 0 <= i < 13 => LowByte(e, i))
  }

  /** The piece of the name in an entry: up to a NUL, or all 13 characters. */
  function Front(e: Entry): (r: seq<byte>)
    requires IsEntry(e)
    ensures |r| <= 13
  {
    Str(Piece(e))
  }

  /** The name with one more piece in front. */
  function Longer(e: Entry, name: seq<byte>): seq<byte>
    requires IsEntry(e)
  {
    Front(e) + name
  }

  function Index(e: Entry): nat {
    (e.sequence % 64) as nat
  }

  predicate IsFirst(e: Entry) {
    e.sequence / 64 % 2 == 1
  }

  /** The sequence byte: six bits of number, the mark of the first entry, the mark of a deleted one. */
  lemma SequenceFields(e: Entry, number: nat, first: nat, deleted: nat)
    requires number < 64 && first < 2 && deleted < 2
    requires e.sequence as nat == number + 0x40 * first + 0x80 * deleted
    ensures Index(e) == number && (IsFirst(e) <==> first == 1)
  {
    assert number + 0x40 * first + 0x80 * deleted == 64 * (first + 2 * deleted) + number;
  }

  // ----- the loop -----

  /** What `fat32_get_long_filename` does: finds the name after `count` entries, runs out of
      entries, or runs past the end of the buffer. */
  datatype Outcome = Found(count: nat, name: seq<byte>) | NotFound | Overflow

  ghost predicate AreEntries(entries: seq<Entry>) {
    forall i :: 0 <= i < |entries| ==> IsEntry(entries[i])
  }

  /** The loop from entry `i`, with the name and the entry number so far. */
  function Assemble(entries: seq<Entry>, i: nat, name: seq<byte>, num: nat): Outcome
    requires AreEntries(entries) && i < |entries|
    decreases |entries| - i
  {
    var e := entries[i];
    var longer := Longer(e, name);
    var n := if IsFirst(e) then Index(e) else num;
    if |longer| >= NAME_MAX then Overflow
    else if Index(e) == 1 && i + 1 == n then Found(i + 1, longer)
    else if i + 1 == |entries| then NotFound
    else Assemble(entries, i + 1, longer, n)
  }

  /** One round: the piece of the entry goes in front of the name in the buffer. */
  method Prepend(e: Entry, fname: array<byte>, temp: array<byte>) returns (ok: bool)
    requires IsEntry(e) && fname != temp && fname.Length == temp.Length == NAME_MAX
    requires |Str(fname[..])| < NAME_MAX
    modifies fname, temp
    ensures ok <==> |Longer(e, Str(old(fname[..])))| < NAME_MAX
    ensures ok ==> Str(fname[..]) == Longer(e, Str(old(fname[..])))
  {
    StrCpy(temp, fname);
    label copied:
    NameCopy(fname, 0, e.name1, 5);
    NameCopy(fname, 5, e.name2, 6);
    NameCopy(fname, 11, e.name3, 2);
    fname[13] := 0;
    ghost var front := Front(e);
    forall i | 0 <= i < 13 ensures fname[i] == Piece(e)[i] {
      assert i < 5 ==> fname[0 + i] == e.name1[2 * i];
      assert 5 <= i < 11 ==> fname[5 + (i - 5)] == e.name2[2 * (i - 5)];
      assert 11 <= i ==> fname[11 + (i - 11)] == e.name3[2 * (i - 11)];
    }
    assert fname[..][..|front|] == front;
    StrIs(fname[..], |front|);
    hide Str, Front;
    ok := StrCat(fname, temp);
  }

  /** `fat32_get_long_filename` over the entries from `lfne` to `lfne_last`. */
  method GetLongFilename(entries: seq<Entry>, fname: array<byte>) returns (r: Option<nat>)
    requires AreEntries(entries) && |entries| > 0 && fname.Length == NAME_MAX
    modifies fname
    ensures match Assemble(entries, 0, [], 0)
            case Found(count, name) => r == Some(count) && Str(fname[..]) == name
            case NotFound => r == Some(0)
            case Overflow => r == None
    ensures r == Some(0) <==> GoesOn(entries, 0, |entries|)
    ensures r.Some? && r.value > 0 ==>
              && r.value <= |entries| && EndsName(entries, r.value - 1) && GoesOn(entries, 0, r.value - 1)
              && Str(fname[..]) == Joined(entries, r.value)
    ensures r.None? ==> exists k: nat :: OverflowsAt(entries, 0, k)
  {
    ZeroExactly(entries);
    hide GoesOn, EndsName, Joined, OverflowsAt;
    var temp := new byte[NAME_MAX];
    var count, num := 0, 0;
    fname[0] := 0;
    StrIs(fname[..], 0);
    hide Str, Longer;
    while true
      invariant count < |entries| && |Str(fname[..])| < NAME_MAX
      invariant Assemble(entries, count, Str(fname[..]), num) == Assemble(entries, 0, [], 0)
      decreases |entries| - count
    {
      var e := entries[count];
      count := count + 1;
      var ok := Prepend(e, fname, temp);
      if !ok {
        return None;
      }
      if IsFirst(e) {
        num := Index(e);
      }
      if Index(e) == 1 && count == num {
        return Some(count);
      }
      if count == |entries| {
        break;
      }
    }
    r := Some(0);
  }

  // ----- the outcome, entry by entry -----

  /** The pieces of the first `i` entries, each in front of those before it. */
  function Joined(entries: seq<Entry>, i: nat): seq<byte>
    requires AreEntries(entries) && i <= |entries|
  {
    if i == 0 then [] else Longer(entries[i - 1], Joined(entries, i - 1))
  }

  /** The number in the latest entry that is marked as a first one, among the first `i`; 0 if none
      is. */
  function Announced(entries: seq<Entry>, i: nat): nat
    requires i <= |entries|
  {
    if i == 0 then 0 else if IsFirst(entries[i - 1]) then Index(entries[i - 1]) else Announced(entries, i - 1)
  }

  /** Entry `i` ends the name: it has number 1, and as many entries were announced as there are up
      to it. */
  predicate EndsName(entries: seq<Entry>, i: nat)
    requires i < |entries|
  {
    Index(entries[i]) == 1 && Announced(entries, i + 1) == i + 1
  }

  /** None of the entries from `i` before `j` ends the name, and the pieces fit the buffer. */
  ghost predicate GoesOn(entries: seq<Entry>, i: nat, j: nat)
    requires AreEntries(entries) && j <= |entries|
  {
    forall k: nat :: i <= k < j ==> PassesBy(entries, k)
  }

  predicate PassesBy(entries: seq<Entry>, k: nat)
    requires AreEntries(entries) && k < |entries|
  {
    !EndsName(entries, k) && |Joined(entries, k + 1)| < NAME_MAX
  }

  /** The pieces fill the buffer at entry `k`, and none before it ends the name. */
  ghost predicate OverflowsAt(entries: seq<Entry>, i: nat, k: nat)
    requires AreEntries(entries)
  {
    i <= k < |entries| && GoesOn(entries, i, k) && |Joined(entries, k + 1)| >= NAME_MAX
  }

  /** The first entry from `i` on that ends the name decides how many entries it has and what it is;
      there is no name exactly when no entry ends one; and the buffer overflows exactly when the
      pieces fill it before or at the end of the name. */
  ghost predicate IsOutcome(entries: seq<Entry>, i: nat, r: Outcome)
    requires AreEntries(entries)
  {
    match r
    case Found(count, name) =>
      && i < count <= |entries| && GoesOn(entries, i, count - 1) && EndsName(entries, count - 1)
      && name == Joined(entries, count) && |name| < NAME_MAX
    case NotFound => GoesOn(entries, i, |entries|)
    case Overflow => exists k: nat :: OverflowsAt(entries, i, k)
  }

  lemma OutcomeLater(entries: seq<Entry>, i: nat, r: Outcome)
    requires AreEntries(entries) && i < |entries| && IsOutcome(entries, i + 1, r)
    requires !EndsName(entries, i) && |Joined(entries, i + 1)| < NAME_MAX
    ensures IsOutcome(entries, i, r)
  {
    hide Joined, EndsName;
    if r == Overflow {
      var k: nat :| OverflowsAt(entries, i + 1, k);
      assert OverflowsAt(entries, i, k);
    }
  }

  /** What the loop returns, from entry `i` on. */
  lemma {:induction false} OutcomeExactly(entries: seq<Entry>, i: nat)
    requires AreEntries(entries) && i < |entries|
    ensures IsOutcome(entries, i, Assemble(entries, i, Joined(entries, i), Announced(entries, i)))
    decreases |entries| - i
  {
    hide Longer, Index, IsFirst, IsEntry;
    var longer := Joined(entries, i + 1);
    assert longer == Longer(entries[i], Joined(entries, i));
    if |longer| >= NAME_MAX {
      assert OverflowsAt(entries, i, i);
    } else if !EndsName(entries, i) && i + 1 < |entries| {
      hide EndsName, IsOutcome;
      OutcomeExactly(entries, i + 1);
      OutcomeLater(entries, i, Assemble(entries, i + 1, longer, Announced(entries, i + 1)));
    }
  }

  /** In terms of the result of `fat32_get_long_filename`: it is 0 exactly when no entry ends a name
      and the pieces fit. */
  lemma ZeroExactly(entries: seq<Entry>)
    requires AreEntries(entries) && entries != []
    ensures IsOutcome(entries, 0, Assemble(entries, 0, [], 0))
    ensures Assemble(entries, 0, [], 0) == NotFound <==> GoesOn(entries, 0, |entries|)
  {
    hide Assemble, Joined, EndsName;
    OutcomeExactly(entries, 0);
    NothingJoined(entries);
    match Assemble(entries, 0, [], 0)
    case Found(count, name) =>
      NotAll(entries, count - 1);
    case NotFound =>
    case Overflow =>
      var k: nat :| OverflowsAt(entries, 0, k);
      NotAll(entries, k);
  }

  lemma NotAll(entries: seq<Entry>, k: nat)
    requires AreEntries(entries) && k < |entries|
    requires EndsName(entries, k) || |Joined(entries, k + 1)| >= NAME_MAX
    ensures !GoesOn(entries, 0, |entries|)
  {
    assert !PassesBy(entries, k);
  }

  lemma NothingJoined(entries: seq<Entry>)
    requires AreEntries(entries)
    ensures Joined(entries, 0) == [] && Announced(entries, 0) == 0
  {
  }

  // ----- the round trip -----

  /** The number of entries of a name. */
  function EntryCount(name: seq<byte>): (n: nat)
    ensures |name| <= 13 * n < |name| + 13
  {
    (|name| + 12) / 13
  }

  /** Character `i` of piece `k` as stored: the name, then a NUL, then 0xFF. */
  function Stored(name: seq<byte>, k: nat, i: nat): byte
    requires k >= 1
  {
    var at := 13 * (k - 1) + i;
    if at < |name| then name[at] else if at == |name| then 0 else 0xFF
  }

  /** `e` is entry number `k` of the name, counted from its front; the last piece, which is
      stored first, carries the flag 0x40.  The high bytes do not matter. */
  ghost predicate Encodes(e: Entry, name: seq<byte>, k: nat) {
    && IsEntry(e) && 1 <= k <= EntryCount(name) <= 20
    && e.sequence as nat == k + (if k == EntryCount(name) then 0x40 else 0)
    && forall i :: 0 <= i < 13 ==> LowByte(e, i) == Stored(name, k, i)
  }

  /** Entries of the name, last piece first, followed by anything. */
  ghost predicate StoredAs(entries: seq<Entry>, name: seq<byte>) {
    && AreEntries(entries) && EntryCount(name) <= |entries|
    && forall j :: 0 <= j < EntryCount(name) ==> Encodes(entries[j], name, EntryCount(name) - j)
  }

  /** Entry number `k` of the name. */
  function EntryOf(name: seq<byte>, k: nat): (e: Entry)
    requires 1 <= k <= EntryCount(name) <= 20
    ensures Encodes(e, name, k)
  {
    Entry((k + (if k == EntryCount(name) then 0x40 else 0)) as byte,
          Wide(name, k, 0, 5), Wide(name, k, 5, 6), Wide(name, k, 11, 2))
  }

  /** `len` stored characters as 16-bit units. */
  function Wide(name: seq<byte>, k: nat, at: nat, len: nat): (r: seq<byte>)
    requires k >= 1
    ensures |r| == 2 * len && forall i :: 0 <= i < len ==> r[2 * i] == Stored(name, k, at + i)
  {
    seq(2 * len, i requires 0 <= i < 2 * len => if i % 2 == 0 then Stored(name, k, at + i / 2) else 0)
  }

  /** The part of the name in the last pieces, from piece `k` on. */
  function From(name: seq<byte>, k: nat): (r: seq<byte>)
    requires 1 <= k <= EntryCount(name) + 1
    ensures |r| <= |name| && (k == 1 <= EntryCount(name) ==> r == name)
  {
    if k > EntryCount(name) then [] else name[13 * (k - 1)..]
  }

  lemma FrontIs(e: Entry, name: seq<byte>, k: nat)
    requires Encodes(e, name, k) && 0 !in name
    ensures Longer(e, From(name, k + 1)) == From(name, k)
  {
    var p := Piece(e);
    var n := if k == EntryCount(name) then |name| - 13 * (k - 1) else 13;
    var part := name[13 * (k - 1)..13 * (k - 1) + n];
    assert p[..n] == part;
    if n < 13 {
      assert p[n] == 0;
      StrIs(p, n);
    } else {
      NoNul(p);
    }
    assert Front(e) == part;
  }

  /** One round of the loop on an entry that is as expected. */
  lemma OneRound(entries: seq<Entry>, i: nat, name: seq<byte>, num: nat, longer: seq<byte>, k: nat, n: nat)
    requires AreEntries(entries) && i < |entries| && i + k == n <= |entries| && k >= 1
    requires Longer(entries[i], name) == longer && |longer| < NAME_MAX
    requires Index(entries[i]) == k && (if IsFirst(entries[i]) then k == n else num == n)
    ensures Assemble(entries, i, name, num) == if k == 1 then Found(n, longer) else Assemble(entries, i + 1, longer, n)
  {
  }

  lemma HeaderIs(e: Entry, name: seq<byte>, k: nat)
    requires Encodes(e, name, k)
    ensures Index(e) == k && (IsFirst(e) <==> k == EntryCount(name))
  {
  }

  lemma {:induction false} NoNul(s: seq<byte>)
    requires 0 !in s
    ensures Str(s) == s
  {
    forall i | 0 <= i < |s| ensures s[i] != 0 {
      assert s[i] in s;
    }
  }

  /** The state of the loop before round `j`, on the entries of `name`. */
  function Sofar(entries: seq<Entry>, name: seq<byte>, j: nat): Outcome
    requires StoredAs(entries, name) && j < EntryCount(name)
  {
    Assemble(entries, j, From(name, EntryCount(name) - j + 1), if j == 0 then 0 else EntryCount(name))
  }

  lemma EntryAt(entries: seq<Entry>, name: seq<byte>, j: nat)
    requires StoredAs(entries, name) && j < EntryCount(name)
    ensures AreEntries(entries) && EntryCount(name) <= |entries| && IsEntry(entries[j])
    ensures Encodes(entries[j], name, EntryCount(name) - j)
  {
    hide Encodes, EntryCount;
  }

  lemma RoundAt(entries: seq<Entry>, name: seq<byte>, j: nat)
    requires |name| < NAME_MAX && 0 !in name && StoredAs(entries, name) && j < EntryCount(name)
    ensures Sofar(entries, name, j)
            == if j + 1 == EntryCount(name) then Found(EntryCount(name), name) else Sofar(entries, name, j + 1)
  {
    hide StoredAs, AreEntries, IsEntry, Encodes, Longer, From, Index, IsFirst, EntryCount, Assemble;
    EntryAt(entries, name, j);
    var n := EntryCount(name);
    FrontIs(entries[j], name, n - j);
    HeaderIs(entries[j], name, n - j);
    OneRound(entries, j, From(name, n - j + 1), if j == 0 then 0 else n, From(name, n - j), n - j, n);
  }

  /** Every name of 1 to 255 characters other than NUL comes back from its entries, with their
      number, whatever follows them. */
  lemma {:induction false} RoundTrip(entries: seq<Entry>, name: seq<byte>, j: nat)
    requires 1 <= |name| < NAME_MAX && 0 !in name && StoredAs(entries, name) && j < EntryCount(name)
    ensures Sofar(entries, name, j) == Found(EntryCount(name), name)
    decreases EntryCount(name) - j
  {
    hide StoredAs, Sofar, EntryCount;
    RoundAt(entries, name, j);
    if j + 1 < EntryCount(name) {
      RoundTrip(entries, name, j + 1);
    }
  }

  /** The entries of a name, last piece first. */
  function EntriesOf(name: seq<byte>): (r: seq<Entry>)
    requires |name| < NAME_MAX
    ensures StoredAs(r, name) && |r| == EntryCount(name)
  {
    var n := EntryCount(name);
    seq(n, j requires 0 <= j < n => EntryOf(name, n - j))
  }

  /** So `GetLongFilename` returns the number of entries and rebuilds the name. */
  lemma NameRebuilt(entries: seq<Entry>, name: seq<byte>)
    requires 1 <= |name| < NAME_MAX && 0 !in name && StoredAs(entries, name)
    ensures |entries| > 0 && Assemble(entries, 0, [], 0) == Found(EntryCount(name), name)
  {
    RoundTrip(entries, name, 0);
  }

  /** Every name can be stored, and comes back whatever entries follow. */
  lemma StoredNameRebuilt(name: seq<byte>, more: seq<Entry>)
    requires 1 <= |name| < NAME_MAX && 0 !in name && AreEntries(more)
    ensures var entries := EntriesOf(name) + more;
            AreEntries(entries) && |entries| > 0
            && Assemble(entries, 0, [], 0) == Found(EntryCount(name), name)
  {
    hide Assemble, Encodes, IsEntry;
    var entries := EntriesOf(name) + more;
    assert AreEntries(entries);
    NameRebuilt(entries, name);
  }
}
