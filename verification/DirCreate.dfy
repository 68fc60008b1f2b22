/** fat32_vfs.c: fat32_create_entry, from the search for free slots to the write back. */
module DirCreate {
  import opened Wrappers
  import opened FatChains
  import opened FatFiles
  import opened DirSlots
  import opened DirEntries
  import opened Directories
  import opened DirPlacement
  import opened ShortNames

  /** The one-page buffer has room for so many slots. */
  const PAGE_SLOTS: nat := 128
  const DOT_NAME: Name := [DOT, SPACE, SPACE, SPACE, SPACE, SPACE, SPACE, SPACE, SPACE, SPACE, SPACE]
  const DOTDOT_NAME: Name := [DOT, DOT, SPACE, SPACE, SPACE, SPACE, SPACE, SPACE, SPACE, SPACE, SPACE]

  /** The search within one cluster: the least start of a long enough run. */
  method FindRun(slots: seq<Slot>, need: nat) returns (found: bool, start: nat)
    requires need > 0
    ensures found ==> IsRun(slots, start, need)
    ensures forall i: nat :: IsRun(slots, i, need) ==> found && start <= i
  {
    start := 0;
    while start < |slots|
      invariant start <= |slots| && forall i: nat | i < start :: !IsRun(slots, i, need)
    {
      if IsFree(slots[start]) {
        var freeCount := 0;
        while start + freeCount < |slots| && IsFree(slots[start + freeCount])
          invariant start + freeCount <= |slots| && freeCount < need
          invariant forall j | start <= j < start + freeCount :: IsFree(slots[j])
        {
          freeCount := freeCount + 1;
          if freeCount == need {
            return true, start;
          }
        }
      }
      start := start + 1;
    }
    found := false;
  }

  /** Writing one slot into a cluster's bytes. */
  lemma SlotWritten(bytes: seq<Byte>, i: nat, s: Slot)
    requires i < |bytes| / 32
    ensures SlotsOf(Overwrite(bytes, 32 * i, s)) == SlotsOf(bytes)[i := s]
  {
    var after := Overwrite(bytes, 32 * i, s);
    forall j: nat | j < |bytes| / 32
      ensures SlotsOf(after)[j] == SlotsOf(bytes)[i := s][j]
    {
      assert SlotsOf(after)[j] == after[32 * j..32 * j + 32];
      assert SlotsOf(bytes)[j] == bytes[32 * j..32 * j + 32];
    }
  }

  /** The slots when the first `j` of the new ones are in place. */
  ghost predicate Filled(bytes: seq<Byte>, slots: seq<Slot>, start: nat, added: seq<Slot>, j: nat)
  {
    start + |added| <= |slots| && j <= |added| && SlotsOf(bytes) == slots[..start] + added[..j] + slots[start + j..]
  }

  lemma FilledStarts(bytes: seq<Byte>, start: nat, added: seq<Slot>)
    requires start + |added| <= |SlotsOf(bytes)|
    ensures Filled(bytes, SlotsOf(bytes), start, added, 0)
  {
  }

  lemma FilledEnds(bytes: seq<Byte>, slots: seq<Slot>, start: nat, added: seq<Slot>)
    requires Filled(bytes, slots, start, added, |added|)
    ensures SlotsOf(bytes) == Inserted(slots, start, added)
  {
    assert added[..|added|] == added;
  }

  method WriteSlot(bytes: seq<Byte>, s: Slot, start: nat, j: nat, ghost slots: seq<Slot>, ghost added: seq<Slot>)
    returns (out: seq<Byte>)
    requires Filled(bytes, slots, start, added, j) && j < |added| && s == added[j]
    ensures |out| == |bytes| && Filled(out, slots, start, added, j + 1)
  {
    SlotWritten(bytes, start + j, s);
    out := Overwrite(bytes, 32 * (start + j), s);
    assert added[..j + 1] == added[..j] + [s];
  }

  /** Fills in the slots of the new entry: long-name slots in descending order, then the short one. */
  method WriteSlots(bytes: seq<Byte>, start: nat, name: Name, attr: Byte, first: nat) returns (out: seq<Byte>)
    requires start + |Encode(name, attr, first)| <= |bytes| / 32
    ensures |out| == |bytes| && SlotsOf(out) == Inserted(SlotsOf(bytes), start, Encode(name, attr, first))
  {
    out := bytes;
    var long, short := IsLongName(name), FatName(name);
    if long {
      short := ToShortName(name);
    } else {
      short := ToFatName(name);
    }
    var chksum := ComputeChecksum(short);
    var count := if long then SlotCount(name) else 0;
    ghost var slots, added := SlotsOf(bytes), Encode(name, attr, first);
    FilledStarts(bytes, start, added);
    var j := 0;
    while j < count
      invariant j <= count && |out| == |bytes| && Filled(out, slots, start, added, j)
    {
      EncodedAt(name, attr, first, chksum, count, j);
      out := WriteSlot(out, LfnSlot(name, count - j, chksum), start, j, slots, added);
      j := j + 1;
    }
    EncodedAt(name, attr, first, chksum, count, count);
    out := WriteSlot(out, SfnSlot(short, attr, first), start, count, slots, added);
    FilledEnds(out, slots, start, added);
  }

  /** The clusters `cs` hold what they held. */
  ghost predicate SameOn(data: seq<seq<Byte>>, data': seq<seq<Byte>>, cs: seq<nat>)
  {
    |data| == |data'| && forall c | c in cs && c < |data| :: data'[c] == data[c]
  }

  lemma {:induction false} SlotsSame(data: seq<seq<Byte>>, data': seq<seq<Byte>>, cs: seq<nat>)
    requires SameOn(data, data', cs)
    ensures SlotsAlong(data', cs) == SlotsAlong(data, cs)
  {
    if cs != [] {
      assert cs[|cs| - 1] in cs;
      SlotsSame(data, data', cs[..|cs| - 1]);
    }
  }

  lemma ReplacedAlong(data: seq<seq<Byte>>, cs: seq<nat>, k: nat, bytes: seq<Byte>)
    requires Distinct(cs) && k < |cs| && cs[k] < |data|
    ensures SlotsAlong(data[cs[k] := bytes], cs) == SlotsAlong(data, cs[..k]) + SlotsOf(bytes) + SlotsAlong(data, cs[k + 1..])
  {
    var data', before, after := data[cs[k] := bytes], cs[..k], cs[k + 1..];
    OnceInChain(cs, k);
    SlotsSame(data, data', before);
    SlotsSame(data, data', after);
    AroundCluster(data', cs, k);
    assert data'[cs[k]] == bytes;
  }

  lemma OnceInChain(cs: seq<nat>, k: nat)
    requires Distinct(cs) && k < |cs|
    ensures cs[k] !in cs[..k] && cs[k] !in cs[k + 1..]
  {
  }

  /** The run at `p`, a place that ended the directory, now holds the new slots. */
  ghost predicate RunTaken(before: seq<Slot>, after: seq<Slot>, p: nat, added: seq<Slot>)
  {
    p + |added| <= |before| && p < |before| && IsEnd(before[p]) && after == Inserted(before, p, added)
  }

  /** Putting new slots into a free run of one cluster puts them into the directory. */
  lemma RunTakenAlong(data: seq<seq<Byte>>, cs: seq<nat>, k: nat, start: nat, bytes: seq<Byte>, added: seq<Slot>,
                      before: seq<Slot>, after: seq<Slot>, p: nat)
    requires Distinct(cs) && k < |cs| && cs[k] < |data| && RunTaken(SlotsOf(data[cs[k]]), SlotsOf(bytes), start, added)
    requires before == SlotsAlong(data, cs) && after == SlotsAlong(data[cs[k] := bytes], cs)
    requires p == |SlotsAlong(data, cs[..k])| + start
    ensures RunTaken(before, after, p, added)
  {
    AroundCluster(data, cs, k);
    ReplacedAlong(data, cs, k, bytes);
    RunTakenWithin(SlotsAlong(data, cs[..k]), SlotsOf(data[cs[k]]), SlotsAlong(data, cs[k + 1..]), start, added,
                   before, SlotsOf(bytes), after, p);
  }

  lemma RunTakenWithin(a: seq<Slot>, b: seq<Slot>, c: seq<Slot>, start: nat, added: seq<Slot>,
                       all: seq<Slot>, b': seq<Slot>, all': seq<Slot>, p: nat)
    requires RunTaken(b, b', start, added) && p == |a| + start
    requires all == a + b + c && all' == a + b' + c
    ensures RunTaken(all, all', p, added)
  {
    assert all[p] == b[start];
    assert all[..p] == a + b[..start];
    assert all[p + |added|..] == b[start + |added|..] + c;
  }

  lemma AroundCluster(data: seq<seq<Byte>>, cs: seq<nat>, k: nat)
    requires k < |cs| && cs[k] < |data|
    ensures SlotsAlong(data, cs) == SlotsAlong(data, cs[..k]) + SlotsOf(data[cs[k]]) + SlotsAlong(data, cs[k + 1..])
  {
    assert cs == cs[..k + 1] + cs[k + 1..] && cs[..k + 1][..k] == cs[..k];
    SlotsAlongSplit(data, cs[..k + 1], cs[k + 1..]);
  }

  /** The bytes of all files and directories but `n` are what they were. */
  twostate predicate BytesKept(v: Volume, n: FileNode)
    reads v`chains, v.data
  {
    forall m | m in old(v.chains) && m != n :: m in v.chains && v.Bytes(m) == old(v.Bytes(m))
  }

  /** A zeroed cluster at the end only adds end marks. */
  ghost predicate OnlyEndMarksAdded(before: seq<Slot>, after: seq<Slot>)
  {
    before <= after && forall j | |before| <= j < |after| :: IsEnd(after[j])
  }

  /** The entry fits a cluster, and behind the directory's first end mark, if any, it fits the mark's own. */
  ghost predicate HasRoom(v: Volume, n: FileNode, need: nat)
    reads v`chains, v.data
    requires n in v.chains
  {
    need <= v.clusterSize / 32 && FirstEndFits(v, n, need)
  }

  ghost predicate FirstEndFits(v: Volume, n: FileNode, need: nat)
    reads v`chains, v.data
    requires n in v.chains
  {
    EndFits(v.data[..], v.chains[n], need)
  }

  /** The directory has an end mark before slot `start` of its `k`-th cluster. */
  ghost predicate EndsBefore(v: Volume, n: FileNode, k: nat, start: nat)
    reads v`chains, v.data
    requires n in v.chains && k < |v.chains[n]|
  {
    start <= |SlotsIn(v.data[..], v.chains[n][k])| && HasEnd(SlotsBefore(v.data[..], v.chains[n], k, start))
  }

  lemma SameEnds(data: seq<seq<Byte>>, v: Volume, n: FileNode, k: nat, start: nat)
    requires n in v.chains && k < |v.chains[n]| && SameOn(data, v.data[..], v.chains[n])
    ensures EndsBefore(v, n, k, start) <==>
              (start <= |SlotsIn(data, v.chains[n][k])| && HasEnd(SlotsBefore(data, v.chains[n], k, start)))
  {
    assert v.chains[n][k] in v.chains[n];
    SlotsSame(data, v.data[..], v.chains[n][..k]);
  }

  lemma PrefixOfThree(a: seq<Slot>, b: seq<Slot>, c: seq<Slot>, all: seq<Slot>, start: nat, p: nat)
    requires all == a + b + c && start <= |b| && p == |a| + start
    ensures p <= |all| && all[..p] == a + b[..start]
  {
  }

  /** A place in a cluster, seen from the whole directory. */
  lemma BeforePlace(data: seq<seq<Byte>>, cs: seq<nat>, k: nat, start: nat, all: seq<Slot>, p: nat)
    requires k < |cs| && cs[k] < |data| && start <= |SlotsOf(data[cs[k]])| && all == SlotsAlong(data, cs)
    requires p == |SlotsAlong(data, cs[..k])| + start
    ensures p <= |all| && all[..p] == SlotsBefore(data, cs, k, start)
  {
    AroundCluster(data, cs, k);
    PrefixOfThree(SlotsAlong(data, cs[..k]), SlotsOf(data[cs[k]]), SlotsAlong(data, cs[k + 1..]), all, start, p);
  }

  /** How the search along the existing clusters ended. */
  datatype Search = Failed | Full | FoundAt(start: nat)

  /** The search for free slots along the existing clusters of the directory. */
  method SearchSpace(v: Volume, n: FileNode, need: nat, stale: seq<Byte>) returns (r: Search, cluster: nat, ghost k: nat)
    requires v.Valid() && n in v.chains && v.chains[n] != [] && |stale| == v.clusterSize && need > 0
    modifies v`faults
    ensures v.faults >= old(v.faults) && (r.Failed? <==> v.faults > old(v.faults))
    ensures k < |v.chains[n]| && cluster == v.chains[n][k] < v.data.Length
    ensures r.FoundAt? ==> IsFirstRun(v.data[..], v.chains[n], k, r.start, need)
    ensures r.Full? ==> k == |v.chains[n]| - 1 && IsFull(v.data[..], v.chains[n], need)
  {
    cluster, k := n.firstCluster, 0;
    var buf := stale;
    ghost var data := v.data[..];
    WalkStarts(v, n);
    while true
      invariant k < |v.chains[n]| && cluster == v.chains[n][k] && |buf| == v.clusterSize && v.faults == old(v.faults)
      invariant forall m | 0 <= m < k :: NoRun(SlotsIn(data, v.chains[n][m]), need)
      decreases |v.chains[n]| - k
    {
      assert IsChain(v.fat[..], v.total, v.chains[n]);
      var ok, start;
      ok, buf := v.ReadCluster(cluster, buf);
      if !ok {
        return Failed, cluster, k;
      }
      assert SlotsIn(data, cluster) == SlotsOf(buf);
      ok, start := FindRun(SlotsOf(buf), need);
      if ok {
        return FoundAt(start), cluster, k;
      }
      EntryWithinChain(v.fat[..], v.total, v.chains[n], k);
      var next := Value(v.fat[cluster]);
      if next >= EOC_MIN {
        return Full, cluster, k;
      }
      cluster, k := next, k + 1;
    }
  }

  lemma ZeroClusterAdds(data: seq<seq<Byte>>, data': seq<seq<Byte>>, cs: seq<nat>, c: nat, size: nat)
    requires |data| == |data'| && c < |data| && c !in cs && data'[c] == Zeros(size)
    requires forall d: nat | d < |data| && d != c :: data'[d] == data[d]
    ensures OnlyEndMarksAdded(SlotsAlong(data, cs), SlotsAlong(data', cs + [c]))
  {
    SlotsSame(data, data', cs);
    assert (cs + [c])[..|cs|] == cs;
    assert SlotsIn(data', c) == SlotsOf(Zeros(size));
  }

  lemma ZeroRun(size: nat, need: nat)
    requires need <= size / 32
    ensures IsRun(SlotsOf(Zeros(size)), 0, need)
  {
  }

  /** Clears the cluster `c` that was just appended to the clusters `cs` of the directory. */
  method ClearCluster(v: Volume, ghost n: FileNode, ghost cs: seq<nat>, c: nat, ghost need: nat)
    requires need <= v.clusterSize / 32 && v.Valid() && n in v.chains && v.chains[n] == cs + [c] && c < v.data.Length && c !in cs
    modifies v.data, v`faults
    ensures v.Valid() && BytesKept(v, n) && v.faults >= old(v.faults)
    ensures SlotsAlong(v.data[..], cs) == SlotsAlong(old(v.data[..]), cs)
    ensures v.faults == old(v.faults) ==> IsRun(SlotsOf(v.data[c]), 0, need)
    ensures v.faults == old(v.faults) ==> OnlyEndMarksAdded(SlotsAlong(old(v.data[..]), cs), SlotsOfDir(v, n))
  {
    ghost var data := v.data[..];
    var written := v.WriteCluster(c, Zeros(v.clusterSize));
    assert c in v.chains[n];
    OtherFilesKept(v.fat[..], v.total, v.chains, n, data, v.data[..]);
    SlotsSame(data, v.data[..], cs);
    if written {
      ZeroClusterAdds(data, v.data[..], cs, c, v.clusterSize);
      ZeroRun(v.clusterSize, need);
    }
  }

  method GrowDirectory(v: Volume, ghost n: FileNode, last: nat, ghost need: nat) returns (ok: bool, c: nat)
    requires need <= v.clusterSize / 32 && v.Valid() && n in v.chains && v.chains[n] != []
    requires last == v.chains[n][|v.chains[n]| - 1]
    modifies v.fat, v.data, v`chains, v`faults
    ensures v.Valid() && SameReserved(old(v.fat[..]), v.fat[..]) && Grew(old(v.chains), v.chains, n) && BytesKept(v, n)
    ensures v.faults >= old(v.faults) && (!ok && v.faults == old(v.faults) ==> v.DiskFull())
    ensures ok ==> c < v.data.Length && v.chains[n] == old(v.chains[n]) + [c]
    ensures ok ==> SlotsAlong(v.data[..], old(v.chains[n])) == old(SlotsOfDir(v, n))
    ensures ok && v.faults == old(v.faults) ==> IsRun(SlotsOf(v.data[c]), 0, need)
    ensures ok && v.faults == old(v.faults) ==> OnlyEndMarksAdded(old(SlotsOfDir(v, n)), SlotsOfDir(v, n))
  {
    ghost var cs := v.chains[n];
    c := v.ExtendChain(n, last);
    ok := c != 0;
    if ok {
      ClearCluster(v, n, cs, c, need);
    }
  }

  /** A full directory grows; whether an end mark precedes the new cluster depends on the old ones alone. */
  method GrowFull(v: Volume, n: FileNode, last: nat, ghost need: nat) returns (ok: bool, c: nat)
    requires v.Valid() && n in v.chains && v.chains[n] != []
    requires last == v.chains[n][|v.chains[n]| - 1] && IsFull(v.data[..], v.chains[n], need)
    modifies v.fat, v.data, v`chains, v`faults
    ensures v.Valid() && SameReserved(old(v.fat[..]), v.fat[..]) && Grew(old(v.chains), v.chains, n) && BytesKept(v, n)
    ensures v.faults >= old(v.faults) && (!ok && v.faults == old(v.faults) ==> v.DiskFull())
    ensures ok ==> c < v.data.Length && v.chains[n] == old(v.chains[n]) + [c]
    ensures ok && v.faults == old(v.faults) ==> IsRun(SlotsOf(v.data[c]), 0, Fitting(need, v.clusterSize / 32))
    ensures ok && v.faults == old(v.faults) ==> OnlyEndMarksAdded(old(SlotsOfDir(v, n)), SlotsOfDir(v, n))
    ensures ok ==> (EndsBefore(v, n, |old(v.chains[n])|, 0) <==> !old(FirstEndFits(v, n, need)))
  {
    ghost var cs := v.chains[n];
    FullIff(v.data[..], cs, need);
    ok, c := GrowDirectory(v, n, last, Fitting(need, v.clusterSize / 32));
    if ok {
      assert v.chains[n][..|cs|] == cs;
      assert SlotsBefore(v.data[..], v.chains[n], |cs|, 0) == SlotsAlong(v.data[..], cs);
    }
  }

  /** The search for free slots; the directory grows by a zeroed cluster if it has none. The chosen place has no
      end mark before it exactly when the directory had room. */
  method FindSpace(v: Volume, n: FileNode, need: nat, stale: seq<Byte>) returns (ok: bool, cluster: nat, start: nat, ghost k: nat)
    requires v.Valid() && n in v.chains && v.chains[n] != [] && |stale| == v.clusterSize && need > 0 && v.clusterSize >= 32
    modifies v.fat, v.data, v`chains, v`faults
    ensures v.Valid() && SameReserved(old(v.fat[..]), v.fat[..]) && Grew(old(v.chains), v.chains, n) && BytesKept(v, n)
    ensures v.faults >= old(v.faults) && (!ok && v.faults == old(v.faults) ==> v.DiskFull())
    ensures ok ==> k < |v.chains[n]| && cluster == v.chains[n][k] < v.data.Length
    ensures ok ==> if need <= v.clusterSize / 32 then start + need <= v.clusterSize / 32 else start == 0 && k == |v.chains[n]| - 1
    ensures ok && v.faults == old(v.faults) ==> IsRun(SlotsOf(v.data[cluster]), start, Fitting(need, v.clusterSize / 32))
    ensures ok && v.faults == old(v.faults) ==> OnlyEndMarksAdded(old(SlotsOfDir(v, n)), SlotsOfDir(v, n))
    ensures ok && v.faults == old(v.faults) ==> (EndsBefore(v, n, k, start) <==> !old(FirstEndFits(v, n, need)))
  {
    var r;
    r, cluster, k := SearchSpace(v, n, need, stale);
    match r
    case Failed =>
      ok, start := false, 0;
    case FoundAt(s) =>
      ok, start := true, s;
      FirstRunIff(v.data[..], v.chains[n], k, s, need);
    case Full =>
      ok, cluster := GrowFull(v, n, cluster, need);
      start, k := 0, k + 1;
  }

  /** What is left in the first `n` bytes of a buffer when slots were put into it. */
  lemma CutBuffer(cluster: seq<Byte>, spare: seq<Byte>, page: seq<Byte>, start: nat, added: seq<Slot>)
    requires start <= |cluster| / 32 && |page| == |cluster + spare| && start + |added| <= |SlotsOf(cluster + spare)|
    requires SlotsOf(page) == Inserted(SlotsOf(cluster + spare), start, added)
    ensures SlotsOf(page[..|cluster|]) == Inserted(SlotsOf(cluster), start, added[..Fitting(|added|, |cluster| / 32 - start)])
  {
    var kept := Inserted(SlotsOf(cluster), start, added[..Fitting(|added|, |cluster| / 32 - start)]);
    forall j: nat | j < |cluster| / 32
      ensures SlotsOf(page[..|cluster|])[j] == kept[j]
    {
      assert page[..|cluster|][32 * j..32 * j + 32] == page[32 * j..32 * j + 32];
      assert SlotsOf(page)[j] == page[32 * j..32 * j + 32];
      assert SlotsOf(cluster + spare)[j] == (cluster + spare)[32 * j..32 * j + 32] == SlotsOf(cluster)[j];
    }
  }

  /** Reads the chosen cluster again, fills in the new slots and writes it back. The buffer goes on behind the
      cluster; what is filled in there never reaches the disk. */
  method PlaceEntry(v: Volume, cluster: nat, start: nat, name: Name, attr: Byte, first: nat, stale: seq<Byte>, ghost w: nat)
    returns (bytes: seq<Byte>)
    requires cluster < v.data.Length && |v.data[cluster]| == |stale| == v.clusterSize && start <= v.clusterSize / 32
    requires w == Fitting(|Encode(name, attr, first)|, v.clusterSize / 32 - start)
    modifies v.data, v`faults
    ensures |bytes| == |v.data[cluster]| == v.clusterSize && v.faults >= old(v.faults)
    ensures forall c | 0 <= c < v.data.Length && c != cluster :: v.data[c] == old(v.data[c])
    ensures v.faults == old(v.faults) ==>
              && v.data[..] == old(v.data[..])[cluster := bytes]
              && SlotsOf(bytes) == Inserted(SlotsOf(old(v.data[cluster])), start, Encode(name, attr, first)[..w])
  {
    var ok, buf := v.ReadCluster(cluster, stale);
    var spare := Zeros(32 * |Encode(name, attr, first)|);
    var page := WriteSlots(buf + spare, start, name, attr, first);
    CutBuffer(buf, spare, page, start, Encode(name, attr, first));
    bytes := page[..v.clusterSize];
    ok := v.WriteCluster(cluster, bytes);
  }

  /** The cluster that ".." of a new directory names: 0 stands for the root. */
  function ParentOf(firstCluster: nat, rootCluster: nat): nat
  {
    if firstCluster == rootCluster then 0 else firstCluster
  }

  /** The two entries every new directory starts with. */
  function DotSlots(first: nat, parent: nat): (slots: seq<Slot>)
    ensures |slots| == 2
  {
    [SfnSlot(DOT_NAME, ATTR_DIRECTORY, first), SfnSlot(DOTDOT_NAME, ATTR_DIRECTORY, parent)]
  }

  function DotCluster(first: nat, parent: nat, size: nat): (bytes: seq<Byte>)
    requires size >= 64
    ensures |bytes| == size
  {
    var dot: seq<Byte> := DotSlots(first, parent)[0];
    var dotdot: seq<Byte> := DotSlots(first, parent)[1];
    dot + dotdot + Zeros(size - 64)
  }

  lemma DotBytes(first: nat, parent: nat, size: nat)
    requires size >= 64
    ensures OnlyEndMarksAdded(DotSlots(first, parent), SlotsOf(DotCluster(first, parent, size)))
  {
    var dots, bytes := DotSlots(first, parent), DotCluster(first, parent, size);
    assert bytes[0..32] == dots[0] && bytes[32..64] == dots[1];
    forall j: nat | 2 <= j < |SlotsOf(bytes)|
      ensures IsEnd(SlotsOf(bytes)[j])
    {
      assert SlotsOf(bytes)[j] == bytes[32 * j..32 * j + 32];
    }
  }

  lemma NewChain(before: map<FileNode, seq<nat>>, mid: map<FileNode, seq<nat>>, child: FileNode, first: nat)
    requires child !in before && mid == before[child := []]
    ensures mid[child := [first]] == before[child := [first]]
    ensures forall n | n in before :: n in mid && mid[n] == before[n]
  {
  }

  /** A node for a new directory, with one fresh cluster if there is one. */
  method NewChild(v: Volume) returns (first: nat, child: FileNode)
    requires v.Valid()
    modifies v.fat, v`chains, v`faults
    ensures v.Valid() && SameReserved(old(v.fat[..]), v.fat[..])
    ensures v.faults >= old(v.faults) && (first == 0 && v.faults == old(v.faults) ==> v.DiskFull())
    ensures fresh(child) && child !in old(v.chains) && v.chains == old(v.chains)[child := if first == 0 then [] else [first]]
    ensures child.size == 0
    ensures first != 0 ==> 2 <= first < v.total && forall n | n in old(v.chains) :: first !in old(v.chains[n])
  {
    child := v.NewNode();
    ghost var mid := v.chains;
    first := v.FirstCluster(child);
    NewChain(old(v.chains), mid, child, first);
  }

  /** The cluster of a new directory starts out with "." and "..". */
  method WriteDots(v: Volume, first: nat, parent: nat)
    requires v.Valid() && v.clusterSize >= 64 && first < v.total
    modifies v.data, v`faults
    ensures v.Valid() && v.faults >= old(v.faults)
    ensures forall c | 0 <= c < v.data.Length && c != first :: v.data[c] == old(v.data[c])
    ensures v.faults == old(v.faults) ==> OnlyEndMarksAdded(DotSlots(first, parent), SlotsOf(v.data[first]))
  {
    DotBytes(first, parent, v.clusterSize);
    var ok := v.WriteCluster(first, DotCluster(first, parent, v.clusterSize));
  }

  /** The cluster holds "." and ".." and nothing else. */
  ghost predicate IsNewDirectory(v: Volume, first: nat, parent: nat)
    reads v.data
  {
    first < v.data.Length && OnlyEndMarksAdded(DotSlots(first, parent), SlotsOf(v.data[first]))
  }

  /** The cluster number of a new entry: none for a file, one that no chain had for a directory. */
  ghost predicate IsNewFirst(chains: map<FileNode, seq<nat>>, attr: Byte, first: nat)
  {
    if attr == ATTR_DIRECTORY then first >= 2 && forall m | m in chains :: first !in chains[m] else first == 0
  }

  lemma NewFirstBefore(before: map<FileNode, seq<nat>>, after: map<FileNode, seq<nat>>, n: FileNode, attr: Byte, first: nat)
    requires Grew(before, after, n) && IsNewFirst(after, attr, first)
    ensures IsNewFirst(before, attr, first)
  {
  }

  lemma NewFirstElsewhere(chains: map<FileNode, seq<nat>>, n: FileNode, k: nat, attr: Byte, first: nat)
    requires n in chains && k < |chains[n]| && IsNewFirst(chains, attr, first)
    ensures attr == ATTR_DIRECTORY ==> first != chains[n][k]
  {
  }

  /** Preparing the content of the new entry: nothing for a file, a directory cluster for a directory. */
  method PrepareContent(v: Volume, parent: nat, attr: Byte) returns (ok: bool, first: nat, ghost child: FileNode?)
    requires v.Valid() && v.clusterSize >= 64 && (attr == ATTR_DIRECTORY || attr == ATTR_ARCHIVE)
    modifies v.fat, v.data, v`chains, v`faults
    ensures v.Valid() && SameReserved(old(v.fat[..]), v.fat[..]) && v.faults >= old(v.faults) && first < v.total + 2
    ensures !ok && v.faults == old(v.faults) ==> v.DiskFull()
    ensures attr == ATTR_ARCHIVE ==> ok && first == 0 && child == null && v.chains == old(v.chains)
    ensures attr == ATTR_DIRECTORY ==>
              child != null && fresh(child) && child.size == 0 && child !in old(v.chains) && (ok <==> first != 0)
    ensures attr == ATTR_DIRECTORY ==> v.chains == old(v.chains)[child := if ok then [first] else []]
    ensures attr == ATTR_DIRECTORY && ok ==> 2 <= first < v.total && forall n | n in old(v.chains) :: first !in old(v.chains[n])
    ensures forall c | 0 <= c < v.data.Length && (attr == ATTR_ARCHIVE || c != first) :: v.data[c] == old(v.data[c])
    ensures attr == ATTR_DIRECTORY && ok && v.faults == old(v.faults) ==> IsNewDirectory(v, first, parent)
  {
    ok, first, child := true, 0, null;
    if attr == ATTR_DIRECTORY {
      first, child := NewChild(v);
      ok := first != 0;
      if ok {
        WriteDots(v, first, parent);
      }
    }
  }

  /** The chains after an entry was created: the directory's own may have grown, a new directory's was added. */
  ghost predicate OthersKept(before: map<FileNode, seq<nat>>, after: map<FileNode, seq<nat>>, n: FileNode)
  {
    && n in before && before.Keys <= after.Keys && before[n] <= after[n]
    && forall m | m in before && m != n :: after[m] == before[m]
  }

  /** Nodes that were added have no bytes yet. */
  ghost predicate NewAreEmpty(before: map<FileNode, seq<nat>>, after: map<FileNode, seq<nat>>)
    reads after.Keys`size
  {
    forall m | m in after && m !in before :: m.size == 0
  }

  /** What Volume.Backed says, of recorded bytes and chains. */
  ghost predicate AreBacked(data: seq<seq<Byte>>, chains: map<FileNode, seq<nat>>)
    reads chains.Keys`size
  {
    forall m | m in chains :: m.size <= |Flat(data, chains[m])| && m.size < TWO_32
  }

  /** With such changes every file's clusters still cover its size. */
  lemma StillBacked(v: Volume, n: FileNode, fat: seq<nat>, data: seq<seq<Byte>>, chains: map<FileNode, seq<nat>>)
    requires v.Valid() && Sized(data, v.clusterSize) && v.total <= |data| && Shape(fat, v.total, chains) && AreBacked(data, chains)
    requires OthersKept(chains, v.chains, n) && NewAreEmpty(chains, v.chains)
    ensures v.Backed()
  {
    forall m | m in v.chains
      ensures m.size <= |v.Bytes(m)| && m.size < TWO_32
    {
      if m in chains {
        assert chains[m] == [] || IsChain(fat, v.total, chains[m]);
        assert v.chains[m] == [] || IsChain(v.fat[..], v.total, v.chains[m]);
        LongerChain(data, v.data[..], chains[m], v.chains[m], v.clusterSize);
      }
    }
  }

  /** Preparing the content does not disturb the directory that is to name it. */
  method PrepareFor(v: Volume, n: FileNode, parent: nat, attr: Byte) returns (ok: bool, first: nat)
    requires v.Valid() && v.clusterSize >= 64 && n in v.chains && (attr == ATTR_DIRECTORY || attr == ATTR_ARCHIVE)
    modifies v.fat, v.data, v`chains, v`faults
    ensures v.Valid() && SameReserved(old(v.fat[..]), v.fat[..]) && v.faults >= old(v.faults) && first < v.total + 2
    ensures OthersKept(old(v.chains), v.chains, n) && v.chains[n] == old(v.chains[n]) && BytesKept(v, n)
    ensures (ok ==> IsNewFirst(old(v.chains), attr, first)) && (!ok && v.faults == old(v.faults) ==> v.DiskFull())
    ensures attr == ATTR_DIRECTORY && ok && v.faults == old(v.faults) ==> IsNewDirectory(v, first, parent)
    ensures SlotsOfDir(v, n) == old(SlotsOfDir(v, n)) && NewAreEmpty(old(v.chains), v.chains)
    ensures SameOn(old(v.data[..]), v.data[..], v.chains[n])
  {
    ghost var child;
    ok, first, child := PrepareContent(v, parent, attr);
    SlotsSame(old(v.data[..]), v.data[..], v.chains[n]);
    forall m | m in old(v.chains) { FlatSame(old(v.data[..]), v.data[..], v.chains[m]); }
  }

  /** Nor does it disturb the place that was found for its slots. */
  method PreparePlace(v: Volume, n: FileNode, ghost k: nat, ghost start: nat, parent: nat, attr: Byte) returns (ok: bool, first: nat)
    requires v.Valid() && v.clusterSize >= 64 && n in v.chains && k < |v.chains[n]| && (attr == ATTR_DIRECTORY || attr == ATTR_ARCHIVE)
    modifies v.fat, v.data, v`chains, v`faults
    ensures v.Valid() && SameReserved(old(v.fat[..]), v.fat[..]) && v.faults >= old(v.faults) && first < v.total + 2
    ensures OthersKept(old(v.chains), v.chains, n) && v.chains[n] == old(v.chains[n]) && BytesKept(v, n)
    ensures (ok ==> IsNewFirst(old(v.chains), attr, first)) && (!ok && v.faults == old(v.faults) ==> v.DiskFull())
    ensures attr == ATTR_DIRECTORY && ok && v.faults == old(v.faults) ==> IsNewDirectory(v, first, parent)
    ensures SlotsOfDir(v, n) == old(SlotsOfDir(v, n)) && NewAreEmpty(old(v.chains), v.chains)
    ensures EndsBefore(v, n, k, start) == old(EndsBefore(v, n, k, start))
    ensures v.chains[n][k] < v.data.Length ==> v.data[v.chains[n][k]] == old(v.data[v.chains[n][k]])
    ensures attr == ATTR_DIRECTORY && ok ==> first != v.chains[n][k]
  {
    ghost var data := v.data[..];
    ok, first := PrepareFor(v, n, parent, attr);
    if ok {
      NewFirstElsewhere(old(v.chains), n, k, attr, first);
    }
    SameEnds(data, v, n, k, start);
    assert v.chains[n][k] in v.chains[n];
  }

  /** The slots of the new entry are in the directory, at a place with an end mark before it or not. */
  ghost predicate EntryAdded(before: seq<Slot>, after: seq<Slot>, p: nat, added: seq<Slot>, ended: bool, toEnd: bool)
  {
    RunTaken(before, after, p, added) && (HasEnd(before[..p]) <==> ended) && (toEnd ==> p + |added| == |before|)
  }

  /** The slots put into a run of one cluster, seen from the whole directory. */
  lemma EntryAddedAlong(data: seq<seq<Byte>>, cs: seq<nat>, k: nat, start: nat, bytes: seq<Byte>, added: seq<Slot>, p: nat, toEnd: bool)
    requires Distinct(cs) && k < |cs| && cs[k] < |data| && start <= |SlotsIn(data, cs[k])| && added != []
    requires IsRun(SlotsOf(data[cs[k]]), start, |added|) && SlotsOf(bytes) == Inserted(SlotsOf(data[cs[k]]), start, added)
    requires p == |SlotsAlong(data, cs[..k])| + start && (toEnd ==> k == |cs| - 1 && start + |added| == |SlotsOf(data[cs[k]])|)
    ensures EntryAdded(SlotsAlong(data, cs), SlotsAlong(data[cs[k] := bytes], cs), p, added, HasEnd(SlotsBefore(data, cs, k, start)), toEnd)
  {
    var before, after := SlotsAlong(data, cs), SlotsAlong(data[cs[k] := bytes], cs);
    BeforePlace(data, cs, k, start, before, p);
    RunTakenAlong(data, cs, k, start, bytes, added, before, after, p);
    if toEnd {
      LastClusterEnds(data, cs);
    }
  }

  lemma LastClusterEnds(data: seq<seq<Byte>>, cs: seq<nat>)
    requires cs != []
    ensures |SlotsAlong(data, cs)| == |SlotsAlong(data, cs[..|cs| - 1])| + |SlotsIn(data, cs[|cs| - 1])|
  {
  }

  /** Writing into one cluster of a directory leaves the bytes of everything else alone. */
  method PlaceInDirectory(v: Volume, ghost n: FileNode, cluster: nat, start: nat, name: Name, attr: Byte, first: nat, stale: seq<Byte>,
                          ghost w: nat) returns (ghost bytes: seq<Byte>)
    requires v.Valid() && n in v.chains && cluster in v.chains[n] && cluster < v.data.Length && |stale| == v.clusterSize
    requires start <= v.clusterSize / 32 && w == Fitting(|Encode(name, attr, first)|, v.clusterSize / 32 - start)
    modifies v.data, v`faults
    ensures v.Valid() && BytesKept(v, n) && v.fat[..] == old(v.fat[..]) && v.faults >= old(v.faults)
    ensures forall c | 0 <= c < v.data.Length && c != cluster :: v.data[c] == old(v.data[c])
    ensures v.faults == old(v.faults) ==>
              && v.data[..] == old(v.data[..])[cluster := bytes]
              && SlotsOf(bytes) == Inserted(SlotsOf(old(v.data[cluster])), start, Encode(name, attr, first)[..w])
  {
    ghost var data := v.data[..];
    bytes := PlaceEntry(v, cluster, start, name, attr, first, stale, w);
    OtherFilesKept(v.fat[..], v.total, v.chains, n, data, v.data[..]);
  }

  /** The new slots, as far as the cluster has room for them, go into the free run found for them. */
  method FillSpace(v: Volume, ghost n: FileNode, ghost k: nat, cluster: nat, start: nat, name: Name, attr: Byte, first: nat, stale: seq<Byte>,
                   ghost w: nat, ghost toEnd: bool, ghost run: bool, ghost before: seq<Slot>, ghost ended: bool)
    returns (ghost p: nat)
    requires v.Valid() && n in v.chains && k < |v.chains[n]| && cluster == v.chains[n][k] < v.data.Length && |stale| == v.clusterSize
    requires start < v.clusterSize / 32 && w == Fitting(|Encode(name, attr, first)|, v.clusterSize / 32 - start)
    requires toEnd ==> k == |v.chains[n]| - 1 && start + w == v.clusterSize / 32
    requires run ==> IsRun(SlotsOf(v.data[cluster]), start, w)
    requires before == SlotsOfDir(v, n) && ended == EndsBefore(v, n, k, start)
    modifies v.data, v`faults
    ensures v.Valid() && BytesKept(v, n) && v.fat[..] == old(v.fat[..]) && v.faults >= old(v.faults)
    ensures forall c | 0 <= c < v.data.Length && c != cluster :: v.data[c] == old(v.data[c])
    ensures v.faults == old(v.faults) && run ==>
              EntryAdded(before, SlotsOfDir(v, n), p, Encode(name, attr, first)[..w], ended, toEnd)
  {
    ghost var data, cs, added := v.data[..], v.chains[n], Encode(name, attr, first)[..w];
    assert IsChain(v.fat[..], v.total, cs);
    p := |SlotsAlong(data, cs[..k])| + start;
    ghost var bytes := PlaceInDirectory(v, n, cluster, start, name, attr, first, stale, w);
    if v.faults == old(v.faults) && run {
      EntryAddedAlong(data, cs, k, start, bytes, added, p, toEnd);
    }
  }

  /** The second half of fat32_create_entry: the content of the new entry, then its slots. */
  method AddEntry(v: Volume, n: FileNode, ghost k: nat, cluster: nat, start: nat, name: Name, attr: Byte, rootCluster: nat, stale: seq<Byte>,
                  ghost w: nat, ghost toEnd: bool, ghost run: bool, ghost before: seq<Slot>, ghost ended: bool)
    returns (r: int, ghost p: nat, ghost first: nat)
    requires v.Valid() && n in v.chains && k < |v.chains[n]| && cluster == v.chains[n][k] < v.data.Length && |stale| == v.clusterSize
    requires start < v.clusterSize / 32 && v.clusterSize >= 64 && w == Fitting(|Encode(name, attr, 0)|, v.clusterSize / 32 - start)
    requires toEnd ==> k == |v.chains[n]| - 1 && start + w == v.clusterSize / 32
    requires run ==> IsRun(SlotsOf(v.data[cluster]), start, w)
    requires before == SlotsOfDir(v, n) && ended == EndsBefore(v, n, k, start)
    requires attr == ATTR_DIRECTORY || attr == ATTR_ARCHIVE
    modifies v.fat, v.data, v`chains, v`faults
    ensures v.Valid() && SameReserved(old(v.fat[..]), v.fat[..]) && OthersKept(old(v.chains), v.chains, n) && BytesKept(v, n)
    ensures (r == 0 || r == -1) && first < v.total + 2 && v.faults >= old(v.faults) && NewAreEmpty(old(v.chains), v.chains)
    ensures (r == 0 ==> IsNewFirst(old(v.chains), attr, first)) && (r == -1 && v.faults == old(v.faults) ==> v.DiskFull())
    ensures r == 0 && v.faults == old(v.faults) && run ==>
              EntryAdded(before, SlotsOfDir(v, n), p, Encode(name, attr, first)[..w], ended, toEnd)
    ensures r == 0 && v.faults == old(v.faults) && attr == ATTR_DIRECTORY ==>
              IsNewDirectory(v, first, ParentOf(n.firstCluster, rootCluster))
  {
    p := 0;
    var ok, content := PreparePlace(v, n, k, start, ParentOf(n.firstCluster, rootCluster), attr);
    first := content;
    if !ok {
      return -1, p, first;
    }
    p := FillSpace(v, n, k, cluster, start, name, attr, content, stale, w, toEnd, run, before, ended);
    r := 0;
  }

  /** The search for a place, and the new entry put there. */
  method EnterEntry(v: Volume, n: FileNode, name: Name, attr: Byte, rootCluster: nat, stale: seq<Byte>)
    returns (r: int, ghost roomy: seq<Slot>, ghost p: nat, ghost first: nat)
    requires v.Valid() && n in v.chains && v.chains[n] != [] && |stale| == v.clusterSize && v.clusterSize >= 64
    requires |Encode(name, attr, 0)| <= PAGE_SLOTS && (attr == ATTR_DIRECTORY || attr == ATTR_ARCHIVE)
    modifies v.fat, v.data, v`chains, v`faults
    ensures v.Valid() && SameReserved(old(v.fat[..]), v.fat[..]) && OthersKept(old(v.chains), v.chains, n) && BytesKept(v, n)
    ensures NewAreEmpty(old(v.chains), v.chains)
    ensures (r == 0 || r == -1) && first < v.total + 2 && v.faults >= old(v.faults)
    ensures (r == 0 ==> IsNewFirst(old(v.chains), attr, first)) && (r == -1 && v.faults == old(v.faults) ==> v.DiskFull())
    ensures r == 0 && v.faults == old(v.faults) ==>
              && OnlyEndMarksAdded(old(SlotsOfDir(v, n)), roomy)
              && EntryAdded(roomy, SlotsOfDir(v, n), p, Encode(name, attr, first)[..Fitting(|Encode(name, attr, 0)|, v.clusterSize / 32)],
                            !old(FirstEndFits(v, n, |Encode(name, attr, 0)|)), |Encode(name, attr, 0)| > v.clusterSize / 32)
    ensures r == 0 && v.faults == old(v.faults) && attr == ATTR_DIRECTORY ==>
              IsNewDirectory(v, first, ParentOf(n.firstCluster, rootCluster))
  {
    var ok, cluster, start;
    ghost var k;
    ok, cluster, start, k := FindSpace(v, n, |Encode(name, attr, 0)|, stale);
    roomy := SlotsOfDir(v, n);
    if !ok {
      return -1, roomy, 0, 0;
    }
    ghost var chains := v.chains;
    r, p, first := AddEntry(v, n, k, cluster, start, name, attr, rootCluster, stale,
                             Fitting(|Encode(name, attr, 0)|, v.clusterSize / 32), |Encode(name, attr, 0)| > v.clusterSize / 32,
                             v.faults == old(v.faults), roomy, EndsBefore(v, n, k, start));
    if r == 0 {
      NewFirstBefore(old(v.chains), chains, n, attr, first);
    }
  }

  /** fat32_create_entry. Without disk errors the directory is the old one (plus a zeroed cluster if it was
      full) with the slots of the new entry in the first run of free ones, or in the new cluster, cut at its end, if
      they are more than a cluster has; the chains of all others are kept. */
  method CreateEntry(v: Volume, n: FileNode, name: Name, attr: Byte, rootCluster: nat, stale: seq<Byte>)
    returns (r: int, ghost roomy: seq<Slot>, ghost p: nat, ghost first: nat)
    requires v.Valid() && v.Backed() && n in v.chains && v.chains[n] != [] && |stale| == v.clusterSize && v.clusterSize >= 64
    requires |Encode(name, attr, 0)| <= PAGE_SLOTS && (attr == ATTR_DIRECTORY || attr == ATTR_ARCHIVE)
    modifies v.fat, v.data, v`chains, v`faults
    ensures v.Valid() && SameReserved(old(v.fat[..]), v.fat[..]) && OthersKept(old(v.chains), v.chains, n) && BytesKept(v, n)
    ensures v.Backed() && NewAreEmpty(old(v.chains), v.chains)
    ensures (r == 0 || r == -1) && first < v.total + 2 && v.faults >= old(v.faults)
    ensures (r == 0 ==> IsNewFirst(old(v.chains), attr, first)) && (r == -1 && v.faults == old(v.faults) ==> v.DiskFull())
    ensures r == 0 && v.faults == old(v.faults) ==>
              && OnlyEndMarksAdded(old(SlotsOfDir(v, n)), roomy)
              && EntryAdded(roomy, SlotsOfDir(v, n), p, Encode(name, attr, first)[..Fitting(|Encode(name, attr, 0)|, v.clusterSize / 32)],
                            !old(FirstEndFits(v, n, |Encode(name, attr, 0)|)), |Encode(name, attr, 0)| > v.clusterSize / 32)
    ensures r == 0 && v.faults == old(v.faults) && attr == ATTR_DIRECTORY ==>
              IsNewDirectory(v, first, ParentOf(n.firstCluster, rootCluster))
  {
    ghost var fat, data, chains := v.fat[..], v.data[..], v.chains;
    assert AreBacked(data, chains);
    r, roomy, p, first := EnterEntry(v, n, name, attr, rootCluster, stale);
    StillBacked(v, n, fat, data, chains);
  }

  /** A new directory has room for every entry that fits its cluster behind "." and "..". */
  lemma NewDirectoryHasRoom(data: seq<seq<Byte>>, first: nat, parent: nat, need: nat)
    requires first < |data| && OnlyEndMarksAdded(DotSlots(first, parent), SlotsOf(data[first]))
    requires need + 2 <= |SlotsOf(data[first])|
    ensures EndFits(data, [first], need)
  {
    var slots, dots := SlotsOf(data[first]), DotSlots(first, parent);
    assert slots[0] == dots[0] && slots[1] == dots[1];
    assert dots[0][0] == DOT && dots[1][0] == DOT && (|slots| > 2 ==> IsEnd(slots[2]));
    forall k: nat, i: nat | IsFirstEnd(data, [first], k, i)
      ensures IsRun(SlotsIn(data, [first][k]), i, need)
    {
      assert SlotsIn(data, [first][k]) == slots;
      assert i == 2;
    }
  }

  /** A new directory is tidy and has no stray long-name slots at its end, so a run of creations can start in it. */
  lemma NewDirectoryIsTidy(slots: seq<Slot>, first: nat, parent: nat)
    requires OnlyEndMarksAdded(DotSlots(first, parent), slots)
    ensures IsTidy(slots) && ScanFrom(START, slots).checksum == -1
  {
    var dots := DotSlots(first, parent);
    assert slots == dots + slots[2..] && slots[0] == dots[0] && slots[1] == dots[1];
    assert dots[0][0] == DOT && dots[1][0] == DOT && dots[1][11] == ATTR_DIRECTORY;
    ScanSplit(START, dots, slots[2..]);
    EndHidesRest(ScanFrom(START, dots), slots[2..]);
    ScanSnoc(START, [dots[0]], dots[1], dots);
    ScanOne(START, dots[0]);
  }

  lemma DotListed(t: Scanner, short: Name, first: nat)
    requires !t.ended && t.checksum == -1 && (short == DOT_NAME || short == DOTDOT_NAME) && first < 0x1_0000_0000
    ensures var u := ScanSlot(t, SfnSlot(short, ATTR_DIRECTORY, first));
            !u.ended && u.checksum == -1 && u.entries == t.entries + [DirEntry(None, short, 0x10, first, 0)]
  {
    var s := SfnSlot(short, ATTR_DIRECTORY, first);
    assert s[0] == short[0] == DOT && s[11] == ATTR_DIRECTORY;
    LiveSlotIsListed(t, s);
    SfnSlotFields(t, short, ATTR_DIRECTORY, first);
  }

  lemma DotNames()
    ensures NormalName(DOT_NAME) == [0x2E] && NormalName(DOTDOT_NAME) == [0x2E, 0x2E]
  {
    BeforeUnique(DOT_NAME[..8], SPACE, [DOT]);
    BeforeUnique(DOTDOT_NAME[..8], SPACE, [DOT, DOT]);
    BeforeAbsent([DOT], 0);
    BeforeAbsent([DOT, DOT], 0);
    assert ShownBytes(DOT_NAME) == [DOT] && ShownBytes(DOTDOT_NAME) == [DOT, DOT];
  }

  function DotEntry(short: Name, first: nat): DirEntry
  {
    DirEntry(None, short, 0x10, first, 0)
  }

  lemma DotsListed(dots: seq<Slot>, first: nat, parent: nat)
    requires dots == DotSlots(first, parent) && first < 0x1_0000_0000 && parent < 0x1_0000_0000
    ensures ScanFrom(START, dots).entries == [DotEntry(DOT_NAME, first), DotEntry(DOTDOT_NAME, parent)]
  {
    ScanSnoc(START, [dots[0]], dots[1], dots);
    ScanOne(START, dots[0]);
    DotListed(START, DOT_NAME, first);
    DotListed(ScanSlot(START, dots[0]), DOTDOT_NAME, parent);
  }

  lemma DotShown(short: Name, first: nat)
    requires |short| == 11
    ensures InfoOf(DotEntry(short, first)) == NodeInfo(NormalName(short), 0, true, first)
  {
  }

  /** A new directory lists "." with its own cluster and ".." with its parent's, which is 0 if the parent is the root. */
  lemma NewDirectoryLists(slots: seq<Slot>, first: nat, parentCluster: nat, rootCluster: nat)
    requires OnlyEndMarksAdded(DotSlots(first, ParentOf(parentCluster, rootCluster)), slots)
    requires first < 0x1_0000_0000 && parentCluster < 0x1_0000_0000
    ensures |Listing(slots)| == 2 && |Listing(slots)[0].short| == |Listing(slots)[1].short| == 11
    ensures InfoOf(Listing(slots)[0]) == NodeInfo([0x2E], 0, true, first)
    ensures parentCluster == rootCluster ==> InfoOf(Listing(slots)[1]) == NodeInfo([0x2E, 0x2E], 0, true, 0)
    ensures parentCluster != rootCluster ==> InfoOf(Listing(slots)[1]) == NodeInfo([0x2E, 0x2E], 0, true, parentCluster)
  {
    var parent := ParentOf(parentCluster, rootCluster);
    var dots := DotSlots(first, parent);
    assert slots == dots + slots[2..];
    ScanSplit(START, dots, slots[2..]);
    EndHidesRest(ScanFrom(START, dots), slots[2..]);
    DotsListed(dots, first, parent);
    DotShown(DOT_NAME, first);
    DotShown(DOTDOT_NAME, parent);
    DotNames();
  }

  /** What the written slots make of the listing: they fitted if they were few enough and no end mark precedes them. */
  lemma CreationSeen(before: seq<Slot>, roomy: seq<Slot>, after: seq<Slot>, p: nat, name: Name, attr: Byte, first: nat, room: nat, ended: bool)
    requires OnlyEndMarksAdded(before, roomy) && EntryAdded(roomy, after, p, Encode(name, attr, first)[..Fitting(|Encode(name, attr, 0)|, room)], ended,
                                                               |Encode(name, attr, 0)| > room)
    requires IsAscii(name) && 1 <= |name| <= 255 && first < 0x1_0000_0000 && (attr == ATTR_DIRECTORY || attr == ATTR_ARCHIVE)
    requires room > 0
    ensures CreatedIn(before, after, |Encode(name, attr, first)| <= room && !ended, name, attr, first)
  {
    if |Encode(name, attr, first)| <= room {
      assert Encode(name, attr, first)[..|Encode(name, attr, first)|] == Encode(name, attr, first);
      CreationListed(before, roomy, p, name, attr, first, !ended);
    } else {
      CutEntryListed(before, roomy, p, name, attr, first, room);
    }
  }

  /** How a creation shows in later lookups. A findable name is found exactly when its entry fitted; in a tidy directory
      that does not end in stray long-name slots a name is found exactly when besides it is findable. */
  ghost predicate CreationShows(before: seq<Slot>, after: seq<Slot>, fits: bool, name: Name, attr: Byte, first: nat)
    requires first < 0x1_0000_0000
  {
    var found := Lookup(Listing(after), name).Some?;
    && CreatedIn(before, after, fits, name, attr, first)
    && (IsFindable(name) ==> (found <==> fits))
    && (IsTidy(before) && NoStrayName(before, name) ==> (found <==> fits && IsFindable(name)))
  }

  lemma CreationFound(before: seq<Slot>, roomy: seq<Slot>, after: seq<Slot>, p: nat, name: Name, attr: Byte, first: nat, room: nat, ended: bool,
                      fits: bool)
    requires OnlyEndMarksAdded(before, roomy) && EntryAdded(roomy, after, p, Encode(name, attr, first)[..Fitting(|Encode(name, attr, 0)|, room)], ended,
                                                               |Encode(name, attr, 0)| > room)
    requires first < 0x1_0000_0000 && (attr == ATTR_DIRECTORY || attr == ATTR_ARCHIVE)
    requires room > 0 && fits == (|Encode(name, attr, first)| <= room && !ended)
    requires Lookup(Listing(before), name).None?
    ensures IsAscii(name) && 1 <= |name| <= 255 ==> CreationShows(before, after, fits, name, attr, first)
  {
    if IsAscii(name) && 1 <= |name| <= 255 {
      CreationSeen(before, roomy, after, p, name, attr, first, room, ended);
      CreatedLookups(before, after, fits, name, attr, first, name);
    }
  }

  /** fat32_create: refuses a name that is already there. A created name shows exactly when the directory had room: the
      slots fit a cluster, and there is no end mark or the first one has enough of them behind it in its own cluster.
      Without disk errors the creation of a new name fails only on a full disk. */
  method Create(v: Volume, n: FileNode, name: Name, attr: Byte, rootCluster: nat, stale: seq<Byte>)
    returns (r: int, ghost first: nat)
    requires v.Valid() && v.Backed() && n in v.chains && v.chains[n] != [] && |stale| == v.clusterSize && v.clusterSize >= 64
    requires |Encode(name, attr, 0)| <= PAGE_SLOTS && (attr == ATTR_DIRECTORY || attr == ATTR_ARCHIVE)
    modifies v.fat, v.data, v`chains, v`faults
    ensures v.Valid() && SameReserved(old(v.fat[..]), v.fat[..]) && OthersKept(old(v.chains), v.chains, n) && BytesKept(v, n)
    ensures v.Backed() && NewAreEmpty(old(v.chains), v.chains) && (r == 0 || r == -1) && first < 0x1_0000_0000
    ensures r == 0 ==> IsNewFirst(old(v.chains), attr, first)
    ensures r == 0 && v.faults == old(v.faults) && IsAscii(name) && 1 <= |name| <= 255 ==>
              CreationShows(old(SlotsOfDir(v, n)), SlotsOfDir(v, n), old(HasRoom(v, n, |Encode(name, attr, 0)|)), name, attr, first)
    ensures r == 0 && v.faults == old(v.faults) && attr == ATTR_DIRECTORY ==>
              IsNewDirectory(v, first, ParentOf(n.firstCluster, rootCluster))
    ensures v.faults == old(v.faults) && Lookup(Listing(old(SlotsOfDir(v, n))), name).Some? ==> r == -1 && v.data[..] == old(v.data[..])
    ensures v.faults == old(v.faults) && Lookup(Listing(old(SlotsOfDir(v, n))), name).None? && r == -1 ==> v.DiskFull()
    ensures v.faults >= old(v.faults)
  {
    first := 0;
    var existing := FindDir(v, n, name, stale);
    if existing.Some? {
      return -1, first;
    }
    ghost var before, fits := SlotsOfDir(v, n), HasRoom(v, n, |Encode(name, attr, 0)|);
    ghost var ends := !FirstEndFits(v, n, |Encode(name, attr, 0)|);
    ghost var roomy, p;
    r, roomy, p, first := CreateEntry(v, n, name, attr, rootCluster, stale);
    ghost var after := SlotsOfDir(v, n);
    if r == 0 && v.faults == old(v.faults) {
      CreationFound(before, roomy, after, p, name, attr, first, v.clusterSize / 32, ends, fits);
    }
  }

  /** What a lookup of a created name reports. */
  ghost predicate ReportsNew(before: seq<Slot>, node: NodeInfo, name: Name, attr: Byte, first: nat)
  {
    && node.isDirectory == (attr == 0x10) && node.firstCluster == first && node.size == 0
    && (|name| > 8 || HasLower(name) ==> node.name == if |name| <= 127 then name else name[..127])
    && (|name| <= 8 && !HasLower(name) && NoStrayName(before, name) ==> node.name == Lowers(name))
  }

  lemma CreatedReported(before: seq<Slot>, after: seq<Slot>, fits: bool, name: Name, attr: Byte, first: nat)
    requires first < 0x1_0000_0000 && CreationShows(before, after, fits, name, attr, first) && fits
    requires attr == ATTR_DIRECTORY || attr == ATTR_ARCHIVE
    requires IsAscii(name) && 1 <= |name| <= 255 && IsFindable(name) && Lookup(Listing(before), name).None?
    ensures var found := Lookup(Listing(after), name);
            found.Some? && |found.value.short| == 11 && ReportsNew(before, InfoOf(found.value), name, attr, first)
  {
    CreatedNode(before, after, name, attr, first);
  }

  /** The new name was absent, and its creation shows. */
  ghost predicate WasCreated(before: seq<Slot>, after: seq<Slot>, fits: bool, name: Name, attr: Byte, first: nat)
  {
    && first < 0x1_0000_0000 && (attr == ATTR_DIRECTORY || attr == ATTR_ARCHIVE)
    && IsAscii(name) && 1 <= |name| <= 255 && IsFindable(name)
    && Lookup(Listing(before), name).None? && CreationShows(before, after, fits, name, attr, first)
  }

  /** The lookup of a name that was just created. */
  method FindCreated(v: Volume, n: FileNode, name: Name, stale: seq<Byte>, ghost before: seq<Slot>, ghost fits: bool, ghost attr: Byte,
                     ghost first: nat) returns (node: Option<NodeInfo>)
    requires v.Valid() && n in v.chains && v.chains[n] != [] && |stale| == v.clusterSize
    modifies v`faults
    ensures v.faults >= old(v.faults)
    ensures v.faults == old(v.faults) && old(WasCreated(before, SlotsOfDir(v, n), fits, name, attr, first)) ==>
              (node.Some? <==> fits) && (fits ==> ReportsNew(before, node.value, name, attr, first))
  {
    node := FindDir(v, n, name, stale);
    if WasCreated(before, SlotsOfDir(v, n), fits, name, attr, first) && fits {
      CreatedReported(before, SlotsOfDir(v, n), fits, name, attr, first);
    }
  }

  /** Names of nine to 247 characters and shorter ones with a lower-case letter. */
  predicate IsOrdinary(name: Name)
  {
    IsAscii(name) && (9 <= |name| <= 247 || (|name| <= 247 && HasLower(name)))
  }

  lemma OrdinaryName(name: Name, attr: Byte)
    requires IsOrdinary(name)
    ensures 1 <= |name| <= 255 && IsFindable(name) && |Encode(name, attr, 0)| == 1 + (|name| + 12) / 13
  {
    FindableNames(name);
    LongNames(name);
  }

  /** fat32_create, and then fat32_finddir of the same name: if there was room, a directory comes back as a directory
      with its new cluster, and a file as a file without any. An ordinary name of n characters comes back exactly when
      there was room for one slot and one more for every 13 characters begun. */
  method CreateThenFind(v: Volume, n: FileNode, name: Name, attr: Byte, rootCluster: nat, stale: seq<Byte>)
    returns (r: int, node: Option<NodeInfo>, ghost first: nat)
    requires v.Valid() && v.Backed() && n in v.chains && v.chains[n] != [] && |stale| == v.clusterSize && v.clusterSize >= 64
    requires |Encode(name, attr, 0)| <= PAGE_SLOTS && (attr == ATTR_DIRECTORY || attr == ATTR_ARCHIVE)
    modifies v.fat, v.data, v`chains, v`faults
    ensures r == 0 ==> IsNewFirst(old(v.chains), attr, first)
    ensures r == 0 && v.faults == old(v.faults) && IsAscii(name) && 1 <= |name| <= 255 && IsFindable(name) ==>
              && (node.Some? <==> old(HasRoom(v, n, |Encode(name, attr, 0)|)))
              && (node.Some? ==> ReportsNew(old(SlotsOfDir(v, n)), node.value, name, attr, first))
    ensures r == 0 && v.faults == old(v.faults) && IsOrdinary(name) ==>
              (node.Some? <==> old(HasRoom(v, n, 1 + (|name| + 12) / 13)))
  {
    ghost var before, fits := SlotsOfDir(v, n), HasRoom(v, n, |Encode(name, attr, 0)|);
    node := None;
    r, first := Create(v, n, name, attr, rootCluster, stale);
    if r == 0 {
      node := FindCreated(v, n, name, stale, before, fits, attr, first);
    }
    if IsOrdinary(name) {
      OrdinaryName(name, attr);
    }
  }
}
