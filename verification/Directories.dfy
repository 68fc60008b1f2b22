/** fat32_vfs.c: lookup and listing over the clusters of a directory. */
module Directories {
  import opened Wrappers
  import opened FatChains
  import opened FatFiles
  import opened DirSlots
  import opened ShortNames

  /** The fields of the vfs_node that lookup and listing build. */
  datatype NodeInfo = NodeInfo(name: Name, size: nat, isDirectory: bool, firstCluster: nat)

  function InfoOf(e: DirEntry): NodeInfo
    requires |e.short| == 11
  {
    NodeInfo(if e.longName.Some? then First(e.longName.value, 127) else NormalName(e.short),
             e.size, e.attr / 16 % 2 == 1, e.firstCluster)
  }

  /** A directory is an entry with attribute bit 0x10, whatever the other bits are. */
  lemma KindShown(e: DirEntry)
    requires |e.short| == 11
    ensures InfoOf(e).firstCluster == e.firstCluster && InfoOf(e).size == e.size
    ensures InfoOf(e).isDirectory <==> (e.attr as bv8) & 0x10 != 0
    ensures (e.attr == 0x10 ==> InfoOf(e).isDirectory) && (e.attr == 0x20 ==> !InfoOf(e).isDirectory)
  {
  }

  /** A long name is shown as far as the node has room for it. */
  lemma LongShown(e: DirEntry, name: Name)
    requires |e.short| == 11 && e.longName == Some(First(name, LFN_LIMIT))
    ensures InfoOf(e).name == if |name| <= 127 then name else name[..127]
  {
    CutTwice(name);
  }

  /** A name of the 8.3 form is shown in lower case. */
  lemma ShortShown(e: DirEntry, name: Name)
    requires e.short == FatName(name) && e.longName == None && IsProperShortName(name)
    ensures InfoOf(e).name == Lowers(name)
  {
    ShownInLowerCase(name);
  }

  lemma CutTwice(name: Name)
    ensures First(First(name, LFN_LIMIT), 127) == if |name| <= 127 then name else name[..127]
  {
  }

  function SlotsOf(bytes: seq<Byte>): (slots: seq<Slot>)
    ensures |slots| == |bytes| / 32 && forall i: nat | i < |slots| :: slots[i] == bytes[32 * i..32 * i + 32]
  {
    seq(|bytes| / 32, i requires 0 <= i < |bytes| / 32 => bytes[32 * i..32 * i + 32])
  }

  ghost function SlotsIn(data: seq<seq<Byte>>, c: nat): seq<Slot>
  {
    if c < |data| then SlotsOf(data[c]) else []
  }

  /** The slots of a directory: those of its clusters, in chain order. */
  ghost function SlotsAlong(data: seq<seq<Byte>>, cs: seq<nat>): seq<Slot>
  {
    if cs == [] then [] else SlotsAlong(data, cs[..|cs| - 1]) + SlotsIn(data, cs[|cs| - 1])
  }

  lemma {:induction false} SlotsAlongSplit(data: seq<seq<Byte>>, a: seq<nat>, b: seq<nat>)
    ensures SlotsAlong(data, a + b) == SlotsAlong(data, a) + SlotsAlong(data, b)
    decreases |b|
  {
    if b == [] {
      assert a + b == a;
    } else {
      var n := |b| - 1;
      assert (a + b)[..|a + b| - 1] == a + b[..n] && (a + b)[|a + b| - 1] == b[n];
      SlotsAlongSplit(data, a, b[..n]);
      assert SlotsAlong(data, a + b) == SlotsAlong(data, a + b[..n]) + SlotsIn(data, b[n]);
      assert SlotsAlong(data, b) == SlotsAlong(data, b[..n]) + SlotsIn(data, b[n]);
      Regroup(SlotsAlong(data, a), SlotsAlong(data, b[..n]), SlotsIn(data, b[n]));
    }
  }

  /** Every listed entry has an 11-byte short name. */
  lemma {:induction false} ScanShorts(t: Scanner, slots: seq<Slot>)
    requires forall e | e in t.entries :: |e.short| == 11
    ensures forall e | e in ScanFrom(t, slots).entries :: |e.short| == 11
  {
    if slots != [] {
      ScanShorts(t, slots[..|slots| - 1]);
    }
  }

  method ComputeChecksum(short: Name) returns (sum: Byte)
    ensures sum == Checksum(short)
  {
    sum := 0;
    for i := 0 to |short|
      invariant sum == Checksum(short[..i])
    {
      sum := (sum % 2 * 128 + sum / 2 + short[i]) % 256;
      assert short[..i + 1][..i] == short[..i];
    }
    assert short[..|short|] == short;
  }

  /** The characters of a long-name slot go to their place in the name buffer. */
  method ClearName(lfnBuf: array<Byte>)
    requires lfnBuf.Length == 256
    modifies lfnBuf
    ensures lfnBuf[..] == Zeros(256)
  {
    forall i | 0 <= i < 256 { lfnBuf[i] := 0; }
  }

  method StoreLfn(lfnBuf: array<Byte>, checksum: int, s: Slot, ghost t: Scanner) returns (checksum': int)
    requires lfnBuf.Length == 256 && lfnBuf[..] == t.buf && checksum == t.checksum
    modifies lfnBuf
    ensures lfnBuf[..] == TakeLfn(t, s).buf && checksum' == TakeLfn(t, s).checksum
  {
    checksum' := checksum;
    if s[0] / 64 % 2 == 1 {
      ClearName(lfnBuf);
      checksum' := s[13];
    }
    assert lfnBuf[..] == if s[0] / 64 % 2 == 1 then Zeros(256) else t.buf;
    var idx := (s[0] % 64 - 1) * CHARS_PER_SLOT;
    if 0 <= idx < 242 {
      StoreChars(lfnBuf, s, idx);
    }
  }

  method StoreChars(lfnBuf: array<Byte>, s: Slot, idx: nat)
    requires lfnBuf.Length == 256 && idx < 242
    modifies lfnBuf
    ensures lfnBuf[..] == Overwrite(old(lfnBuf[..]), idx, Chars(s))
  {
    ghost var was := lfnBuf[..];
    for k := 0 to CHARS_PER_SLOT
      invariant forall j | 0 <= j < 256 :: lfnBuf[j] == if idx <= j < idx + k then Chars(s)[j - idx] else was[j]
    {
      lfnBuf[idx + k] := LfnChar(s, k);
    }
    assert lfnBuf[..] == Overwrite(was, idx, Chars(s));
  }

  datatype SlotKind = EndMark | Skipped | Live

  /** What both walks do with a slot that is not an entry. */
  method ClassifySlot(lfnBuf: array<Byte>, checksum: int, s: Slot, ghost t: Scanner) returns (kind: SlotKind, checksum': int)
    requires lfnBuf.Length == 256 && lfnBuf[..] == t.buf && checksum == t.checksum && !t.ended
    modifies lfnBuf
    ensures kind.EndMark? ==> ScanSlot(t, s) == t.(ended := true)
    ensures kind.Skipped? ==> ScanSlot(t, s) == t.(buf := lfnBuf[..], checksum := checksum')
    ensures kind.Live? ==> IsLive(s) && lfnBuf[..] == t.buf && checksum' == t.checksum
  {
    checksum' := checksum;
    if IsEnd(s) {
      return EndMark, checksum';
    }
    if LooksDeleted(s) {
      return Skipped, -1;
    }
    if IsLfn(s) {
      checksum' := StoreLfn(lfnBuf, checksum, s, t);
      return Skipped, checksum';
    }
    if IsVolumeId(s) {
      return Skipped, -1;
    }
    return Live, checksum';
  }

  /** The entry that a live slot stands for: its long name counts only if the checksum vouches for it. */
  method DecodeEntry(lfnBuf: array<Byte>, checksum: int, s: Slot, ghost t: Scanner) returns (e: DirEntry)
    requires lfnBuf.Length == 256 && lfnBuf[..] == t.buf && checksum == t.checksum
    ensures e == EntryOf(t, s) && |e.short| == 11
  {
    var sum := ComputeChecksum(s[..11]);
    e := DirEntry(if lfnBuf[0] != 0 && sum == checksum then Some(CString(lfnBuf[..])) else None, s[..11], s[11],
                  U16(s, 20) * 65536 + U16(s, 26), U16(s, 28) + 65536 * U16(s, 30));
  }

  /** The comparisons of fat32_finddir: the long name in the buffer, if it counts, and then the short one. */
  method AnswersTo(name: Name, lfnBuf: array<Byte>, e: DirEntry) returns (answers: bool)
    requires |e.short| == 11 && (e.longName.Some? ==> e.longName.value == CString(lfnBuf[..]))
    ensures answers <==> Matches(name, e)
  {
    answers := false;
    if e.longName.Some? {
      answers := StrCaseCmp(name, lfnBuf[..]);
    }
    if !answers {
      var entryName := ToNormalName(e.short);
      answers := StrCaseCmp(name, entryName);
    }
  }

  /** Why the walk over one cluster stopped. */
  datatype Outcome = GoOn | DirectoryEnd | Found(entry: DirEntry)

  lemma ScanNext(t: Scanner, slots: seq<Slot>, i: nat)
    requires i < |slots|
    ensures ScanFrom(t, slots[..i + 1]) == ScanSlot(ScanFrom(t, slots[..i]), slots[i])
  {
    assert slots[..i + 1][..i] == slots[..i];
  }

  lemma ScanKeepsPrefix(t: Scanner, slots: seq<Slot>, i: nat)
    requires i <= |slots|
    ensures ScanFrom(t, slots[..i]).entries <= ScanFrom(t, slots).entries
    ensures ScanFrom(t, slots[..i]).ended ==> ScanFrom(t, slots) == ScanFrom(t, slots[..i])
  {
    assert slots == slots[..i] + slots[i..];
    ScanSplit(t, slots[..i], slots[i..]);
    ScanAdds(ScanFrom(t, slots[..i]), slots[i..]);
    if ScanFrom(t, slots[..i]).ended {
      ScanEnded(ScanFrom(t, slots[..i]), slots[i..]);
    }
  }

  lemma LookupInPrefix(a: seq<DirEntry>, b: seq<DirEntry>, name: Name)
    requires a <= b && Lookup(a, name).Some?
    ensures Lookup(b, name) == Lookup(a, name)
  {
    assert b == a + b[|a|..];
    LookupSplit(a, b[|a|..], name);
  }

  /** The lookup is decided by the next entry if that answers, and goes on if not. */
  lemma LookupNext(known: seq<DirEntry>, e: DirEntry, all: seq<DirEntry>, name: Name)
    requires Lookup(known, name) == None && known + [e] <= all
    ensures if Matches(name, e) then Lookup(all, name) == Some(e) else Lookup(known + [e], name) == None
  {
    LookupSplit(known, [e], name);
    assert [e][1..] == [];
    if Matches(name, e) {
      LookupInPrefix(known + [e], all, name);
    }
  }

  /** One slot of a lookup. */
  method FindAtSlot(s: Slot, name: Name, lfnBuf: array<Byte>, checksum: int, ghost t: Scanner)
    returns (o: Outcome, checksum': int)
    requires lfnBuf.Length == 256 && lfnBuf[..] == t.buf && checksum == t.checksum && !t.ended && Lookup(t.entries, name) == None
    modifies lfnBuf
    ensures o.Found? ==> |o.entry.short| == 11 && Matches(name, o.entry) && ScanSlot(t, s).entries == t.entries + [o.entry]
    ensures o.DirectoryEnd? ==> ScanSlot(t, s) == t.(ended := true)
    ensures o.GoOn? ==> ScanSlot(t, s) == Scanner(ScanSlot(t, s).entries, false, lfnBuf[..], checksum')
                        && Lookup(ScanSlot(t, s).entries, name) == None
  {
    var kind;
    kind, checksum' := ClassifySlot(lfnBuf, checksum, s, t);
    if kind.EndMark? {
      return DirectoryEnd, checksum';
    }
    if kind.Live? {
      LiveSlotIsListed(t, s);
      var e := DecodeEntry(lfnBuf, checksum', s, t);
      var answers := AnswersTo(name, lfnBuf, e);
      if answers {
        return Found(e), checksum';
      }
      LookupNext(t.entries, e, t.entries + [e], name);
      checksum' := -1;
      ClearName(lfnBuf);
    }
    o := GoOn;
  }

  /** The inner loop of fat32_finddir, on the slots of one cluster. */
  method FindInCluster(slots: seq<Slot>, name: Name, lfnBuf: array<Byte>, checksum: int, ghost t: Scanner)
    returns (o: Outcome, checksum': int)
    requires lfnBuf.Length == 256 && lfnBuf[..] == t.buf && checksum == t.checksum && !t.ended && Lookup(t.entries, name) == None
    modifies lfnBuf
    ensures o.Found? ==> |o.entry.short| == 11 && Lookup(ScanFrom(t, slots).entries, name) == Some(o.entry)
    ensures !o.Found? ==> Lookup(ScanFrom(t, slots).entries, name) == None
    ensures o.DirectoryEnd? ==> ScanFrom(t, slots).ended
    ensures o.GoOn? ==> ScanFrom(t, slots) == Scanner(ScanFrom(t, slots).entries, false, lfnBuf[..], checksum')
  {
    checksum' := checksum;
    ghost var u := t;
    var i := 0;
    while i < |slots|
      invariant i <= |slots| && u == ScanFrom(t, slots[..i]) && !u.ended && Lookup(u.entries, name) == None
      invariant lfnBuf[..] == u.buf && checksum' == u.checksum
    {
      ScanNext(t, slots, i);
      ScanKeepsPrefix(t, slots, i + 1);
      o, checksum' := FindAtSlot(slots[i], name, lfnBuf, checksum', u);
      if o.Found? {
        LookupNext(u.entries, o.entry, ScanFrom(t, slots).entries, name);
        return;
      }
      if o.DirectoryEnd? {
        return;
      }
      u := ScanSlot(u, slots[i]);
      i := i + 1;
    }
    assert slots[..|slots|] == slots;
    o := GoOn;
  }

  lemma EntryInPlace(before: seq<DirEntry>, e: DirEntry, all: seq<DirEntry>)
    requires before + [e] <= all
    ensures |before| < |all| && all[|before|] == e
  {
    assert (before + [e])[|before|] == e;
  }

  /** The inner loop of fat32_readdir: `count` entries were passed before this cluster. */
  method ListInCluster(slots: seq<Slot>, index: nat, count: nat, lfnBuf: array<Byte>, checksum: int, ghost t: Scanner)
    returns (o: Outcome, count': nat, checksum': int)
    requires lfnBuf.Length == 256 && lfnBuf[..] == t.buf && checksum == t.checksum && !t.ended && |t.entries| == count <= index
    modifies lfnBuf
    ensures o.Found? ==> |o.entry.short| == 11 && index < |ScanFrom(t, slots).entries| && ScanFrom(t, slots).entries[index] == o.entry
    ensures !o.Found? ==> |ScanFrom(t, slots).entries| <= index
    ensures o.DirectoryEnd? ==> ScanFrom(t, slots).ended
    ensures o.GoOn? ==> ScanFrom(t, slots) == Scanner(ScanFrom(t, slots).entries, false, lfnBuf[..], checksum')
                        && count' == |ScanFrom(t, slots).entries|
  {
    checksum', count' := checksum, count;
    ghost var u := t;
    var i := 0;
    while i < |slots|
      invariant i <= |slots| && u == ScanFrom(t, slots[..i]) && !u.ended && |u.entries| == count' <= index
      invariant lfnBuf[..] == u.buf && checksum' == u.checksum
    {
      ScanNext(t, slots, i);
      ScanKeepsPrefix(t, slots, i + 1);
      var kind;
      kind, checksum' := ClassifySlot(lfnBuf, checksum', slots[i], u);
      if kind.EndMark? {
        return DirectoryEnd, count', checksum';
      }
      if kind.Live? {
        LiveSlotIsListed(u, slots[i]);
        if count' == index {
          var e := DecodeEntry(lfnBuf, checksum', slots[i], u);
          EntryInPlace(u.entries, e, ScanFrom(t, slots).entries);
          return Found(e), count', checksum';
        }
        checksum' := -1;
        ClearName(lfnBuf);
        count' := count' + 1;
      }
      u := ScanSlot(u, slots[i]);
      i := i + 1;
    }
    assert slots[..|slots|] == slots;
    o := GoOn;
  }

  ghost function SlotsOfDir(v: Volume, n: FileNode): seq<Slot>
    reads v`chains, v.data
    requires n in v.chains
  {
    SlotsAlong(v.data[..], v.chains[n])
  }

  /** One more cluster of the walk. */
  lemma ClusterScan(data: seq<seq<Byte>>, cs: seq<nat>, k: nat)
    requires k < |cs| && cs[k] < |data|
    ensures ScanFrom(START, SlotsAlong(data, cs[..k + 1])) == ScanFrom(ScanFrom(START, SlotsAlong(data, cs[..k])), SlotsOf(data[cs[k]]))
  {
    assert cs[..k + 1][..k] == cs[..k] && cs[..k + 1] != [];
    ScanSplit(START, SlotsAlong(data, cs[..k]), SlotsIn(data, cs[k]));
  }

  lemma AlongPrefix(data: seq<seq<Byte>>, cs: seq<nat>, k: nat)
    requires k <= |cs|
    ensures SlotsAlong(data, cs[..k]) <= SlotsAlong(data, cs)
  {
    assert cs[..k] + cs[k..] == cs;
    AlongCut(data, cs, cs[..k], cs[k..]);
  }

  lemma AlongCut(data: seq<seq<Byte>>, cs: seq<nat>, a: seq<nat>, b: seq<nat>)
    requires cs == a + b
    ensures SlotsAlong(data, a) <= SlotsAlong(data, cs)
  {
    SlotsAlongSplit(data, a, b);
  }

  /** The scan has seen the first of these entries, and all of them once it met the end mark. */
  ghost predicate Reaches(t: Scanner, entries: seq<DirEntry>)
  {
    t.entries <= entries && (t.ended ==> t.entries == entries)
  }

  /** The clusters behind the current one only add entries, or none once the end mark was seen. */
  lemma PrefixListing(a: seq<Slot>, all: seq<Slot>)
    requires a <= all
    ensures Reaches(ScanFrom(START, a), Listing(all))
  {
    ScanKeepsPrefix(START, all, |a|);
    assert all[..|a|] == a;
  }

  /** Where a walk along the directory stands before its `k`-th cluster, having scanned the ones before. */
  ghost predicate Walking(v: Volume, n: FileNode, k: nat, cluster: nat, t: Scanner)
    reads v`chains, v.fat, v.data, v.chains.Keys`firstCluster
  {
    && v.Valid() && n in v.chains && k <= |v.chains[n]| && !t.ended
    && (if k < |v.chains[n]| then cluster == v.chains[n][k] < EOC_MIN && cluster < v.data.Length else cluster >= EOC_MIN)
    && t == ScanFrom(START, SlotsAlong(v.data[..], v.chains[n][..k]))
  }

  lemma WalkStarts(v: Volume, n: FileNode)
    requires v.Valid() && n in v.chains && v.chains[n] != []
    ensures Walking(v, n, 0, n.firstCluster, START)
  {
    assert IsChain(v.fat[..], v.total, v.chains[n]);
    assert v.chains[n][..0] == [];
  }

  /** The step from one cluster of the directory to the next. */
  lemma WalkAdvances(v: Volume, n: FileNode, k: nat, cluster: nat, t: Scanner)
    requires Walking(v, n, k, cluster, t) && k < |v.chains[n]| && cluster < v.fat.Length
    requires !ScanFrom(t, SlotsOf(v.data[cluster])).ended
    ensures Walking(v, n, k + 1, Value(v.fat[cluster]), ScanFrom(t, SlotsOf(v.data[cluster])))
  {
    assert IsChain(v.fat[..], v.total, v.chains[n]);
    EntryWithinChain(v.fat[..], v.total, v.chains[n], k);
    ClusterScan(v.data[..], v.chains[n], k);
  }

  /** What the walk has seen up to and including the current cluster is the start of the listing. */
  lemma WalkSees(v: Volume, n: FileNode, k: nat, cluster: nat, t: Scanner)
    requires Walking(v, n, k, cluster, t) && k < |v.chains[n]|
    ensures Reaches(ScanFrom(t, SlotsOf(v.data[cluster])), Listing(SlotsOfDir(v, n)))
  {
    ClusterScan(v.data[..], v.chains[n], k);
    AlongPrefix(v.data[..], v.chains[n], k + 1);
    PrefixListing(SlotsAlong(v.data[..], v.chains[n][..k + 1]), SlotsOfDir(v, n));
  }

  lemma WalkDone(v: Volume, n: FileNode, k: nat, cluster: nat, t: Scanner)
    requires Walking(v, n, k, cluster, t) && k == |v.chains[n]|
    ensures t.entries == Listing(SlotsOfDir(v, n))
  {
    assert v.chains[n][..k] == v.chains[n];
  }

  /** fat32_finddir: the first entry in the listing that answers to `name`; nothing after a disk error. */
  method FindDir(v: Volume, n: FileNode, name: Name, stale: seq<Byte>) returns (r: Option<NodeInfo>)
    requires v.Valid() && n in v.chains && v.chains[n] != [] && |stale| == v.clusterSize
    modifies v`faults
    ensures v.faults >= old(v.faults) && (v.faults != old(v.faults) ==> r == None)
    ensures v.faults == old(v.faults) ==>
              match Lookup(Listing(SlotsOfDir(v, n)), name)
              case None => r == None
              case Some(e) => |e.short| == 11 && r == Some(InfoOf(e))
  {
    var lfnBuf := new Byte[256](_ => 0);
    var checksum := -1;
    var cluster: nat, buf := n.firstCluster, stale;
    ghost var k: nat, t := 0, START;
    assert lfnBuf[..] == Zeros(256);
    WalkStarts(v, n);
    while cluster < EOC_MIN
      invariant Walking(v, n, k, cluster, t) && Lookup(t.entries, name) == None
      invariant |buf| == v.clusterSize && lfnBuf[..] == t.buf && checksum == t.checksum && v.faults == old(v.faults)
      decreases |v.chains[n]| - k
    {
      var ok;
      ok, buf := v.ReadCluster(cluster, buf);
      if !ok {
        return None;
      }
      WalkSees(v, n, k, cluster, t);
      var o;
      o, checksum := FindInCluster(SlotsOf(buf), name, lfnBuf, checksum, t);
      if o.Found? {
        LookupInPrefix(ScanFrom(t, SlotsOf(buf)).entries, Listing(SlotsOfDir(v, n)), name);
        return Some(InfoOf(o.entry));
      }
      if o.DirectoryEnd? {
        return None;
      }
      WalkAdvances(v, n, k, cluster, t);
      t, k := ScanFrom(t, SlotsOf(buf)), k + 1;
      cluster := Value(v.fat[cluster]);
    }
    WalkDone(v, n, k, cluster, t);
    return None;
  }

  /** fat32_readdir: the entry at `index` of the listing; nothing past its end or after a disk error. */
  method ReadDir(v: Volume, n: FileNode, index: nat, stale: seq<Byte>) returns (r: Option<NodeInfo>)
    requires v.Valid() && n in v.chains && v.chains[n] != [] && |stale| == v.clusterSize
    modifies v`faults
    ensures v.faults >= old(v.faults) && (v.faults != old(v.faults) ==> r == None)
    ensures v.faults == old(v.faults) ==>
              if index < |Listing(SlotsOfDir(v, n))|
              then |Listing(SlotsOfDir(v, n))[index].short| == 11 && r == Some(InfoOf(Listing(SlotsOfDir(v, n))[index]))
              else r == None
  {
    var lfnBuf := new Byte[256](_ => 0);
    var checksum, count := -1, 0;
    var cluster: nat, buf := n.firstCluster, stale;
    ghost var k: nat, t := 0, START;
    assert lfnBuf[..] == Zeros(256);
    WalkStarts(v, n);
    while cluster < EOC_MIN
      invariant Walking(v, n, k, cluster, t) && |t.entries| == count <= index
      invariant |buf| == v.clusterSize && lfnBuf[..] == t.buf && checksum == t.checksum && v.faults == old(v.faults)
      decreases |v.chains[n]| - k
    {
      var ok;
      ok, buf := v.ReadCluster(cluster, buf);
      if !ok {
        return None;
      }
      WalkSees(v, n, k, cluster, t);
      var o;
      o, count, checksum := ListInCluster(SlotsOf(buf), index, count, lfnBuf, checksum, t);
      if o.Found? {
        return Some(InfoOf(o.entry));
      }
      if o.DirectoryEnd? {
        return None;
      }
      WalkAdvances(v, n, k, cluster, t);
      t, k := ScanFrom(t, SlotsOf(buf)), k + 1;
      cluster := Value(v.fat[cluster]);
    }
    WalkDone(v, n, k, cluster, t);
    return None;
  }
}
