/** fat32_vfs.c: cluster allocation and byte-granular file access on a mounted volume. */
module FatFiles {
  import opened FatChains

  const TWO_64: nat := 0x1_0000_0000_0000_0000

  /** The fields of a file's vfs_node and its fat32_node_data that reading and writing use. */
  class FileNode {
    var firstCluster: nat
    var size: nat

    constructor (firstCluster: nat, size: nat)
      ensures this.firstCluster == firstCluster && this.size == size
    {
      this.firstCluster, this.size := firstCluster, size;
    }
  }

  ghost predicate StartsAt(first: nat, cs: seq<nat>)
  {
    if cs == [] then first == 0 || first >= EOC_MIN else first == cs[0]
  }

  /** Every FAT word keeps its four reserved bits. */
  ghost predicate SameReserved(fat: seq<nat>, fat': seq<nat>)
  {
    |fat| == |fat'| && forall i | 0 <= i < |fat| :: fat'[i] / TWO_28 == fat[i] / TWO_28
  }

  /** `after` has `bytes` at `from`, and every byte of `before` outside that range. */
  ghost predicate Patched(before: seq<Byte>, after: seq<Byte>, from: nat, bytes: seq<Byte>)
  {
    && |before| <= |after| && from + |bytes| <= |after|
    && after[from..from + |bytes|] == bytes
    && forall i | 0 <= i < |before| && !(from <= i < from + |bytes|) :: after[i] == before[i]
  }

  lemma PatchMore(before: seq<Byte>, after: seq<Byte>, from: nat, bytes: seq<Byte>, more: seq<Byte>, next: seq<Byte>)
    requires Patched(before, after, from, bytes) && from + |bytes| + |more| <= |after|
    requires next == Overwrite(after, from + |bytes|, more)
    ensures Patched(before, next, from, bytes + more)
  {
    assert next[from..from + |bytes|] == after[from..from + |bytes|];
  }

  lemma PatchGrow(before: seq<Byte>, after: seq<Byte>, longer: seq<Byte>, from: nat, bytes: seq<Byte>)
    requires Patched(before, after, from, bytes) && after <= longer
    ensures Patched(before, longer, from, bytes)
  {
  }

  /** A patch of the clusters, cut at the new size, is the same patch of the file. */
  lemma PatchCut(before: seq<Byte>, after: seq<Byte>, from: nat, bytes: seq<Byte>, size: nat, newSize: nat)
    requires Patched(before, after, from, bytes) && size <= |before|
    requires newSize == if from + |bytes| > size then from + |bytes| else size
    ensures newSize <= |after| && Patched(before[..size], after[..newSize], from, bytes)
  {
    var cut := after[..newSize];
    assert forall i | from <= i < from + |bytes| :: cut[i] == after[i];
    assert cut[from..from + |bytes|] == after[from..from + |bytes|];
  }

  /** Where the walk to `offset` stops, its cluster count being a 32-bit variable. */
  function SeekTarget(offset: nat, size: nat): nat
    requires size > 0
  {
    Start(offset / size % TWO_32, size) + offset % size
  }

  /** The walk stops at `offset` exactly when the cluster count fits its 32-bit variable. */
  lemma SeekExact(offset: nat, size: nat)
    requires size > 0
    ensures SeekTarget(offset, size) == offset <==> offset / size < TWO_32
    ensures offset < TWO_32 ==> offset / size < TWO_32
  {
    var q := offset / size;
    StartSplit(offset, size);
    StartAtLeast(q, size);
    if q < TWO_32 {
      BelowWord(q);
    } else {
      assert q % TWO_32 < q;
      StartLess(q % TWO_32, q, size);
    }
  }

  lemma SizeCovered(offset: nat, size: nat, fileSize: nat, written: nat, length: nat)
    requires size > 0 && fileSize <= length && fileSize < TWO_32 && SeekTarget(offset, size) + written <= length
    ensures SizeAfter(fileSize, offset, written) <= length && SizeAfter(fileSize, offset, written) < TWO_32
  {
    TruncatedEnd(offset, size, written);
  }

  /** The size field follows a write that went past it; both sums are truncated as the fields are. */
  function SizeAfter(size: nat, offset: nat, written: nat): nat
  {
    if (offset + written) % TWO_64 > size then (offset + written) % TWO_32 else size
  }

  /** The size field is right exactly when the write ends below 4 GB. */
  lemma SizeExact(size: nat, offset: nat, written: nat)
    requires size < TWO_32
    ensures SizeAfter(size, offset, written) == (if offset + written > size then offset + written else size)
       <==> offset + written < TWO_32
  {
    if offset + written < TWO_32 {
      BelowWord(offset + written);
      assert (offset + written) % TWO_64 == offset + written;
    }
  }

  /** Below 4 GB nothing is truncated: the patch of the clusters is the patch of the file at `offset`. */
  lemma ExactPatch(before: seq<Byte>, after: seq<Byte>, offset: nat, clusterSize: nat, bytes: seq<Byte>, size: nat)
    requires clusterSize > 0 && Patched(before, after, SeekTarget(offset, clusterSize), bytes)
    requires size <= |before| && offset + |bytes| < TWO_32
    ensures SizeAfter(size, offset, |bytes|) == (if offset + |bytes| > size then offset + |bytes| else size) <= |after|
    ensures Patched(before[..size], after[..SizeAfter(size, offset, |bytes|)], offset, bytes)
  {
    SeekExact(offset, clusterSize);
    PatchCut(before, after, offset, bytes, size, SizeAfter(size, offset, |bytes|));
  }

  /** Only the chain of `n` changed, and only by clusters added at its end. */
  ghost predicate Grew(before: map<FileNode, seq<nat>>, after: map<FileNode, seq<nat>>, n: FileNode)
  {
    && n in before && before.Keys == after.Keys && before[n] <= after[n]
    && forall m | m in before && m != n :: after[m] == before[m]
  }

  /** The bytes a read of `size` bytes at `offset` asks for: cut at the end of the file. */
  ghost function Slice(contents: seq<Byte>, offset: nat, size: nat): seq<Byte>
  {
    if offset >= |contents| then []
    else if offset + size > |contents| then contents[offset..]
    else contents[offset..offset + size]
  }

  /** What was written is what is read back, and a read that misses the written range reads the old bytes. */
  lemma ReadBack(before: seq<Byte>, after: seq<Byte>, offset: nat, bytes: seq<Byte>, from: nat, size: nat)
    requires Patched(before, after, offset, bytes)
    ensures Slice(after, offset, |bytes|) == bytes
    ensures from + size <= offset || offset + |bytes| <= from ==> from + size <= |before| ==>
              Slice(after, from, size) == Slice(before, from, size)
  {
    if (from + size <= offset || offset + |bytes| <= from) && from + size <= |before| && size > 0 {
      assert after[from..from + size] == before[from..from + size];
    }
  }

  lemma SliceWithin(bytes: seq<Byte>, n: nat, offset: nat, size: nat, want: nat)
    requires offset < n <= |bytes| && want == if offset + size > n then n - offset else size
    ensures Slice(bytes[..n], offset, size) == bytes[offset..offset + want]
  {
    var cut := bytes[..n];
    assert forall i | offset <= i < offset + want :: cut[i] == bytes[i];
    assert cut[offset..offset + want] == bytes[offset..offset + want];
    if offset + size > n {
      assert cut[offset..] == cut[offset..n];
    }
  }

  lemma SliceExtends(bytes: seq<Byte>, offset: nat, out: seq<Byte>, piece: seq<Byte>)
    requires offset + |out| + |piece| <= |bytes| && out == bytes[offset..offset + |out|]
    requires piece == bytes[offset + |out|..offset + |out| + |piece|]
    ensures out + piece == bytes[offset..offset + |out + piece|]
  {
  }

  class Volume {
    const total: nat
    const clusterSize: nat
    const fat: array<nat>
    const data: array<seq<Byte>>
    ghost var chains: map<FileNode, seq<nat>>
    ghost var faults: nat

    /** In every reachable state the live chains are finite, acyclic, in range and pairwise disjoint. */
    ghost predicate Valid()
      reads this`chains, fat, data, chains.Keys`firstCluster
    {
      && clusterSize > 0 && InBounds(fat[..], total) && total <= data.Length
      && Sized(data[..], clusterSize)
      && Shape(fat[..], total, chains)
      && forall n | n in chains :: StartsAt(n.firstCluster, chains[n])
    }

    /** A mounted volume whose live chains are well formed. */
    constructor (total: nat, clusterSize: nat, fat: array<nat>, data: array<seq<Byte>>, ghost chains: map<FileNode, seq<nat>>)
      requires clusterSize > 0 && InBounds(fat[..], total) && total <= data.Length && Sized(data[..], clusterSize)
      requires Shape(fat[..], total, chains) && forall n | n in chains :: StartsAt(n.firstCluster, chains[n])
      ensures Valid() && this.chains == chains && this.fat == fat && this.data == data
    {
      this.total, this.clusterSize, this.fat, this.data := total, clusterSize, fat, data;
      this.chains, faults := chains, 0;
    }

    ghost function Bytes(n: FileNode): seq<Byte>
      reads this`chains, data
      requires n in chains
    {
      Flat(data[..], chains[n])
    }

    ghost predicate DiskFull()
      reads fat
    {
      forall j | 2 <= j < total && j < fat.Length :: Value(fat[j]) != 0
    }

    /** A node for a new, still empty file. */
    method NewNode() returns (n: FileNode)
      requires Valid()
      modifies this`chains
      ensures Valid() && fresh(n) && n !in old(chains) && chains == old(chains)[n := []]
      ensures n.firstCluster == 0 && n.size == 0
    {
      n := new FileNode(0, 0);
      chains := chains[n := []];
    }

    /** First fit. When the FAT cannot be written back the cluster stays marked but belongs to nobody. */
    method AllocCluster() returns (c: nat)
      requires Valid()
      modifies fat, this`faults
      ensures faults >= old(faults) && (c != 0 ==> faults == old(faults)) && (c == 0 && faults == old(faults) ==> DiskFull())
      ensures SameReserved(old(fat[..]), fat[..])
      ensures c != 0 ==> 2 <= c < total && Value(old(fat[c])) == 0 && (forall j | 2 <= j < c :: Value(old(fat[j])) != 0)
      ensures c != 0 ==> fat[..] == old(fat[..])[c := Put(old(fat[c]), EOC)]
      ensures c == 0 ==> Valid()
    {
      var i := 2;
      while i < total
        invariant i >= 2 && fat[..] == old(fat[..]) && faults == old(faults)
        invariant forall j | 2 <= j < i && j < total :: Value(fat[j]) != 0
      {
        if Value(fat[i]) == 0 {
          MarkedShape(fat[..], total, chains, i);
          fat[i] := Put(fat[i], EOC);
          assert fat[..] == old(fat[..])[i := Put(old(fat[i]), EOC)];
          var written: bool := *;
          if !written {
            faults := faults + 1;
            return 0;
          }
          return i;
        }
        i := i + 1;
      }
      return 0;
    }

    /** A file without clusters gets its first one. */
    method FirstCluster(n: FileNode) returns (c: nat)
      requires Valid() && n in chains && chains[n] == []
      modifies fat, n, this`chains, this`faults
      ensures faults >= old(faults) && (c == 0 && faults == old(faults) ==> DiskFull())
      ensures Valid() && n.size == old(n.size) && SameReserved(old(fat[..]), fat[..])
      ensures c == 0 ==> chains == old(chains)
      ensures c != 0 ==> 2 <= c < total && chains == old(chains)[n := [c]]
      ensures c != 0 ==> forall m | m in old(chains) :: c !in old(chains[m])
    {
      c := AllocCluster();
      if c == 0 {
        return;
      }
      AppendedShape(old(fat[..]), total, chains, n, c);
      FreeIsUnowned(old(fat[..]), total, chains, c);
      n.firstCluster := c;
      assert chains[n] + [c] == [c];
      chains := chains[n := [c]];
    }

    /** Appends exactly one fresh cluster to one chain. */
    method ExtendChain(ghost n: FileNode, last: nat) returns (c: nat)
      requires Valid() && n in chains && chains[n] != [] && last == chains[n][|chains[n]| - 1]
      modifies fat, this`chains, this`faults
      ensures faults >= old(faults) && (c == 0 && faults == old(faults) ==> DiskFull())
      ensures Valid() && SameReserved(old(fat[..]), fat[..])
      ensures c == 0 ==> chains == old(chains)
      ensures c != 0 ==> 2 <= c < total && chains == old(chains)[n := old(chains[n]) + [c]]
      ensures c != 0 ==> forall m | m in old(chains) :: c !in old(chains[m])
    {
      c := AllocCluster();
      if c == 0 {
        return;
      }
      AppendedShape(old(fat[..]), total, chains, n, c);
      FreeIsUnowned(old(fat[..]), total, chains, c);
      assert last in chains[n];
      fat[last] := Put(fat[last], c);
      assert fat[..] == Appended(old(fat[..]), chains[n], c);
      chains := chains[n := chains[n] + [c]];
    }

    /** A read either delivers the cluster or leaves the buffer with whatever it held. */
    method ReadCluster(c: nat, stale: seq<Byte>) returns (ok: bool, buf: seq<Byte>)
      requires c < data.Length && |data[c]| == |stale| == clusterSize
      modifies this`faults
      ensures |buf| == clusterSize
      ensures ok ==> buf == data[c] && faults == old(faults)
      ensures !ok ==> faults == old(faults) + 1
    {
      ok := *;
      if ok {
        buf := data[c];
      } else {
        buf := stale;
        faults := faults + 1;
      }
    }

    /** A failed write leaves that one cluster with unknown contents. */
    method WriteCluster(c: nat, buf: seq<Byte>) returns (ok: bool)
      requires c < data.Length && |buf| == |data[c]| == clusterSize
      modifies data, this`faults
      ensures ok ==> data[..] == old(data[..])[c := buf] && faults == old(faults)
      ensures !ok ==> faults == old(faults) + 1
      ensures |data[c]| == clusterSize && forall j | 0 <= j < data.Length && j != c :: data[j] == old(data[j])
    {
      ok := *;
      if ok {
        data[c] := buf;
      } else {
        var torn: seq<Byte> := *;
        if |torn| == clusterSize {
          data[c] := torn;
        }
        faults := faults + 1;
      }
    }

    /** Clusters outside this file's chain keep their contents. */
    twostate predicate OnlyTouches(n: FileNode)
      reads this`chains, data
      requires n in chains
    {
      forall c | 0 <= c < data.Length && c !in chains[n] :: data[c] == old(data[c])
    }

    /** The cluster after the `k`-th one, appended first when the chain ends there. */
    method NextCluster(ghost n: FileNode, current: nat, ghost k: nat) returns (next: nat)
      requires Valid() && n in chains && k < |chains[n]| && chains[n][k] == current
      modifies fat, this`chains, this`faults
      ensures faults >= old(faults) && (next == 0 && faults == old(faults) ==> DiskFull())
      ensures Valid() && SameReserved(old(fat[..]), fat[..]) && Grew(old(chains), chains, n)
      ensures next != 0 ==> k + 1 < |chains[n]| && chains[n][k + 1] == next
    {
      EntryWithinChain(fat[..], total, chains[n], k);
      next := Value(fat[current]);
      if next >= EOC_MIN {
        next := ExtendChain(n, current);
      } else {
        assert next == chains[n][k + 1] && next != 0;
      }
    }

    /** Walks `skip` clusters from the first one, lengthening the chain where it ends. */
    method SkipClusters(ghost n: FileNode, first: nat, skip: nat) returns (current: nat)
      requires Valid() && n in chains && chains[n] != [] && chains[n][0] == first
      modifies fat, this`chains, this`faults
      ensures faults >= old(faults) && (current == 0 && faults == old(faults) ==> DiskFull())
      ensures Valid() && SameReserved(old(fat[..]), fat[..]) && Grew(old(chains), chains, n)
      ensures current != 0 ==> skip < |chains[n]| && chains[n][skip] == current
    {
      current := first;
      var i := 0;
      while i < skip
        invariant i <= skip && Valid() && SameReserved(old(fat[..]), fat[..]) && Grew(old(chains), chains, n)
        invariant i < |chains[n]| && chains[n][i] == current && current != 0 && faults >= old(faults)
      {
        current := NextCluster(n, current, i);
        if current == 0 {
          return;
        }
        i := i + 1;
      }
    }

    /** The buffer a write puts back: the cluster with `piece` laid over it. The cluster is read first
        unless it is replaced whole; the code ignores a failure of that read. */
    method FillBuffer(current: nat, at: nat, piece: seq<Byte>, stale: seq<Byte>) returns (buf: seq<Byte>)
      requires current < data.Length && at + |piece| <= clusterSize == |stale| == |data[current]|
      modifies this`faults
      ensures |buf| == clusterSize && faults >= old(faults)
      ensures faults == old(faults) ==> buf == Overwrite(data[current], at, piece)
    {
      buf := stale;
      if at != 0 || |piece| < clusterSize {
        var ok;
        ok, buf := ReadCluster(current, stale);
      }
      buf := Overwrite(buf, at, piece);
    }

    /** One turn of the write loop: part of one cluster. */
    method WriteChunk(ghost n: FileNode, ghost k: nat, current: nat, at: nat, piece: seq<Byte>, stale: seq<Byte>, ghost pos: nat)
      returns (ok: bool, buf: seq<Byte>)
      requires Valid() && n in chains && k < |chains[n]| && chains[n][k] == current
      requires at + |piece| <= clusterSize == |stale| && pos == Start(k, clusterSize) + at && pos + |piece| <= |Bytes(n)|
      modifies data, this`faults
      ensures Valid() && OnlyTouches(n) && |buf| == clusterSize && faults >= old(faults) && (!ok ==> faults > old(faults))
      ensures ok && faults == old(faults) ==> Bytes(n) == Overwrite(old(Bytes(n)), pos, piece)
    {
      ghost var was := data[..];
      assert current in chains[n] && IsChain(fat[..], total, chains[n]);
      buf := FillBuffer(current, at, piece, stale);
      ok := WriteCluster(current, buf);
      if ok && faults == old(faults) {
        ChunkWritten(was, data[..], chains[n], k, at, piece, pos);
      }
    }

    lemma ChunkWritten(was: seq<seq<Byte>>, now: seq<seq<Byte>>, cs: seq<nat>, k: nat, at: nat, piece: seq<Byte>, pos: nat)
      requires Sized(was, clusterSize) && OnDisk(was, cs) && Distinct(cs) && k < |cs| && at + |piece| <= clusterSize
      requires now == was[cs[k] := Overwrite(was[cs[k]], at, piece)]
      requires pos == Start(k, clusterSize) + at && pos + |piece| <= |Flat(was, cs)|
      ensures Flat(now, cs) == Overwrite(Flat(was, cs), pos, piece)
    {
      FlatOverwrite(was, cs, clusterSize, k, at, piece);
    }

    lemma StartFits(n: FileNode, k: nat)
      requires Valid() && n in chains && k < |chains[n]|
      ensures Start(k, clusterSize) + clusterSize <= |Bytes(n)|
    {
      FlatLength(data[..], chains[n], clusterSize);
      StartLess(k, |chains[n]|, clusterSize);
    }

    /** A chunk written behind the bytes `done`, seen from the file `before` the whole write. */
    method WriteNextChunk(ghost n: FileNode, ghost k: nat, current: nat, at: nat, piece: seq<Byte>, stale: seq<Byte>,
                          ghost before: seq<Byte>, ghost from: nat, ghost done: seq<Byte>)
      returns (ok: bool, buf: seq<Byte>)
      requires Valid() && n in chains && k < |chains[n]| && chains[n][k] == current
      requires at + |piece| <= clusterSize == |stale| && Start(k, clusterSize) + at == from + |done|
      modifies data, this`faults
      ensures Valid() && OnlyTouches(n) && |buf| == clusterSize && faults >= old(faults) && (!ok ==> faults > old(faults))
      ensures ok && faults == old(faults) && Patched(before, old(Bytes(n)), from, done) ==>
                Patched(before, Bytes(n), from, done + piece)
    {
      ghost var was := Bytes(n);
      StartFits(n, k);
      ok, buf := WriteChunk(n, k, current, at, piece, stale, from + |done|);
      if ok && faults == old(faults) && Patched(before, was, from, done) {
        PatchMore(before, was, from, done, piece, Bytes(n));
      }
    }

    /** Moving on to the next cluster only adds bytes at the end of the file. */
    method Advance(ghost n: FileNode, current: nat, ghost k: nat,
                   ghost before: seq<Byte>, ghost from: nat, ghost done: seq<Byte>)
      returns (next: nat)
      requires Valid() && n in chains && k < |chains[n]| && chains[n][k] == current
      modifies fat, this`chains, this`faults
      ensures faults >= old(faults) && (next == 0 && faults == old(faults) ==> DiskFull())
      ensures Valid() && SameReserved(old(fat[..]), fat[..]) && Grew(old(chains), chains, n)
      ensures next != 0 ==> k + 1 < |chains[n]| && chains[n][k + 1] == next
      ensures Patched(before, old(Bytes(n)), from, done) ==> Patched(before, Bytes(n), from, done)
    {
      next := NextCluster(n, current, k);
      FlatPrefix(data[..], old(chains)[n], chains[n]);
      if Patched(before, old(Bytes(n)), from, done) {
        PatchGrow(before, old(Bytes(n)), Bytes(n), from, done);
      }
    }

    /** Where the write loop stands: byte `at` of the `k`-th cluster is byte `written` of the buffer, which
        goes to byte `from + written` of the file. */
    ghost predicate Positioned(n: FileNode, current: nat, k: nat, at: nat, from: nat, written: nat)
      reads this`chains
    {
      && n in chains && k < |chains[n]| && chains[n][k] == current && at < clusterSize
      && Start(k, clusterSize) + at == from + written
    }

    /** One whole turn of the write loop: as many bytes as fit the cluster and, if there are more, the step
        to the next cluster. `next` is 0 when that step found no free cluster. */
    method WriteTurn(ghost n: FileNode, ghost k: nat, current: nat, at: nat, buf: seq<Byte>, written: nat,
                     stale: seq<Byte>, ghost before: seq<Byte>, ghost from: nat, ghost clean: bool)
      returns (ok: bool, next: nat, upTo: nat, scratch: seq<Byte>, ghost stillClean: bool)
      requires Valid() && Positioned(n, current, k, at, from, written) && written < |buf| && |stale| == clusterSize
      requires clean ==> Patched(before, Bytes(n), from, buf[..written])
      modifies fat, data, this`chains, this`faults
      ensures Valid() && SameReserved(old(fat[..]), fat[..]) && Grew(old(chains), chains, n) && OnlyTouches(n)
      ensures written < upTo <= |buf| && |scratch| == clusterSize && faults >= old(faults)
      ensures from + upTo <= |Bytes(n)| && (!ok ==> faults > old(faults))
      ensures upTo < |buf| && next == 0 && faults == old(faults) ==> DiskFull()
      ensures ok && upTo < |buf| && next != 0 ==> Positioned(n, next, k + 1, 0, from, upTo)
      ensures stillClean ==> Patched(before, Bytes(n), from, buf[..upTo])
      ensures ok && clean && faults == old(faults) ==> stillClean
    {
      next := current;
      StartFits(n, k);
      upTo := if clusterSize - at > |buf| - written then |buf| else written + clusterSize - at;
      StartStep(k, clusterSize);
      var piece := buf[written..upTo];
      assert buf[..written] + piece == buf[..upTo];
      ok, scratch := WriteNextChunk(n, k, current, at, piece, stale, before, from, buf[..written]);
      if ok && upTo < |buf| {
        next := Advance(n, current, k, before, from, buf[..upTo]);
      }
      stillClean := ok && clean && faults == old(faults);
      StartFits(n, k);
    }

    /** The write loop, from byte `offset` of the `skip`-th cluster on. */
    method WriteLoop(ghost n: FileNode, first: nat, ghost skip: nat, offset: nat, buf: seq<Byte>, stale: seq<Byte>,
                     ghost before: seq<Byte>)
      returns (written: nat)
      requires Valid() && Positioned(n, first, skip, offset, Start(skip, clusterSize) + offset, 0) && |stale| == clusterSize
      requires before <= Bytes(n)
      modifies fat, data, this`chains, this`faults
      ensures Valid() && SameReserved(old(fat[..]), fat[..]) && Grew(old(chains), chains, n) && OnlyTouches(n)
      ensures written <= |buf| && faults >= old(faults) && (written < |buf| && faults == old(faults) ==> DiskFull())
      ensures Start(skip, clusterSize) + offset + written <= |Bytes(n)|
      ensures faults == old(faults) && written == |buf| ==>
                Patched(before, Bytes(n), Start(skip, clusterSize) + offset, buf)
    {
      written := 0;
      var current: nat, at: nat, scratch := first, offset, stale;
      ghost var k: nat, from: nat := skip, Start(skip, clusterSize) + offset;
      ghost var clean := true;
      StartFits(n, k);
      assert buf[..|buf|] == buf;
      while written < |buf|
        invariant written <= |buf| && |scratch| == clusterSize && faults >= old(faults)
        invariant Valid() && SameReserved(old(fat[..]), fat[..]) && Grew(old(chains), chains, n) && OnlyTouches(n)
        invariant written < |buf| ==> Positioned(n, current, k, at, from, written)
        invariant from + written <= |Bytes(n)| && (faults == old(faults) ==> clean)
        invariant clean ==> Patched(before, Bytes(n), from, buf[..written])
      {
        var ok, upTo;
        ok, current, upTo, scratch, clean := WriteTurn(n, k, current, at, buf, written, scratch, before, from, clean);
        if !ok {
          return;
        }
        written := upTo;
        if current == 0 && written < |buf| {
          return;
        }
        at, k := 0, k + 1;
      }
    }

    /** Every file's clusters cover its size, which is a 32-bit field. */
    ghost predicate Backed()
      reads this`chains, data, chains.Keys`size
    {
      forall n | n in chains :: n.size <= |Bytes(n)| && n.size < TWO_32
    }

    /** The abstract file: the bytes of its clusters, cut at its size. */
    ghost function Contents(n: FileNode): seq<Byte>
      reads this`chains, data, n`size
      requires n in chains && n.size <= |Bytes(n)|
    {
      Bytes(n)[..n.size]
    }

    /** The first cluster of a file, allocated if it has none. */
    method EnsureFirst(n: FileNode) returns (c: nat)
      requires Valid() && n in chains
      modifies fat, n, this`chains, this`faults
      ensures faults >= old(faults) && (c == 0 && faults == old(faults) ==> DiskFull())
      ensures Valid() && SameReserved(old(fat[..]), fat[..]) && Grew(old(chains), chains, n) && n.size == old(n.size)
      ensures c != 0 ==> chains[n] != [] && chains[n][0] == c
    {
      c := n.firstCluster;
      if c == 0 || c >= EOC_MIN {
        c := FirstCluster(n);
      }
    }

    /** Up to the write loop: the first cluster if there is none, then `skip` clusters on. `started` is
        false when no first cluster could be had; `current` is 0 when the chain could not be lengthened. */
    method Seek(n: FileNode, skip: nat) returns (started: bool, current: nat)
      requires Valid() && n in chains
      modifies fat, n, this`chains, this`faults
      ensures faults >= old(faults) && (current == 0 && faults == old(faults) ==> DiskFull())
      ensures Valid() && SameReserved(old(fat[..]), fat[..]) && Grew(old(chains), chains, n) && n.size == old(n.size)
      ensures old(Bytes(n)) <= Bytes(n) && (current != 0 ==> started && skip < |chains[n]| && chains[n][skip] == current)
    {
      current := EnsureFirst(n);
      started := current != 0;
      if started {
        current := SkipClusters(n, current, skip);
      }
      FlatPrefix(data[..], old(chains)[n], chains[n]);
    }

    /** fat32_write up to the size update, for byte `at` of the `skip`-th cluster; `sought` tells whether
        that cluster was reached. */
    method WriteData(n: FileNode, skip: nat, at: nat, buf: seq<Byte>, stale: seq<Byte>)
      returns (started: bool, sought: bool, written: nat)
      requires Valid() && n in chains && at < clusterSize == |stale|
      modifies fat, data, n, this`chains, this`faults
      ensures Valid() && SameReserved(old(fat[..]), fat[..]) && Grew(old(chains), chains, n) && OnlyTouches(n)
      ensures n.size == old(n.size) && written <= |buf| && faults >= old(faults) && (sought ==> started)
      ensures !sought ==> written == 0
      ensures (!sought || written < |buf|) && faults == old(faults) ==> DiskFull()
      ensures sought ==> Start(skip, clusterSize) + at + written <= |Bytes(n)|
      ensures sought && faults == old(faults) && written == |buf| ==>
                Patched(old(Bytes(n)), Bytes(n), Start(skip, clusterSize) + at, buf)
    {
      ghost var before := Bytes(n);
      var current;
      started, current := Seek(n, skip);
      if current == 0 {
        return started, false, 0;
      }
      written := WriteLoop(n, current, skip, at, buf, stale, before);
      sought := true;
    }

    /** The data of a write, and what it means for this file and for all others. */
    method WriteAt(n: FileNode, offset: nat, buf: seq<Byte>, stale: seq<Byte>)
      returns (started: bool, complete: bool, written: nat)
      requires Valid() && Backed() && n in chains && |stale| == clusterSize
      modifies fat, data, n, this`chains, this`faults
      ensures Valid() && SameReserved(old(fat[..]), fat[..]) && Grew(old(chains), chains, n)
      ensures Backed() && forall m | m in chains && m != n :: Bytes(m) == old(Bytes(m)) && m.size == old(m.size)
      ensures faults >= old(faults) && (!complete && faults == old(faults) ==> DiskFull())
      ensures |old(Bytes(n))| <= |Bytes(n)| && n.size == old(n.size)
      ensures written <= |buf| && (complete ==> written == |buf|) && (|buf| > 0 && started && written == |buf| ==> complete)
      ensures complete ==> started && SeekTarget(offset, clusterSize) + |buf| <= |Bytes(n)|
      ensures complete && faults == old(faults) ==>
                Patched(old(Bytes(n)), Bytes(n), SeekTarget(offset, clusterSize), buf)
    {
      var sought;
      StartSplit(offset, clusterSize);
      started, sought, written := WriteData(n, offset / clusterSize % TWO_32, offset % clusterSize, buf, stale);
      complete := sought && written == |buf|;
      OtherFilesKept(fat[..], total, chains, n, old(data[..]), data[..]);
      LongerChain(old(data[..]), data[..], old(chains[n]), chains[n], clusterSize);
    }

    /** The size field after a write; the clusters are already there. */
    method UpdateSize(n: FileNode, offset: nat, written: nat)
      requires Valid() && n in chains && SizeAfter(n.size, offset, written) <= |Bytes(n)|
      requires SizeAfter(n.size, offset, written) < TWO_32 && Backed()
      modifies n`size
      ensures Backed() && n.size == SizeAfter(old(n.size), offset, written)
    {
      if (offset + written) % TWO_64 > n.size {
        n.size := (offset + written) % TWO_32;
      }
    }

    /** The end of fat32_write: the new size makes the patch of the clusters a patch of the file. */
    method FinishWrite(n: FileNode, offset: nat, buf: seq<Byte>, ghost before: seq<Byte>, ghost clean: bool)
      requires Valid() && Backed() && n in chains && |buf| < TWO_32 && n.size <= |before|
      requires SeekTarget(offset, clusterSize) + |buf| <= |Bytes(n)|
      requires clean ==> Patched(before, Bytes(n), SeekTarget(offset, clusterSize), buf)
      modifies n`size
      ensures Backed() && n.size == SizeAfter(old(n.size), offset, |buf|)
      ensures clean && offset + |buf| < TWO_32 ==>
                && n.size == (if offset + |buf| > old(n.size) then offset + |buf| else old(n.size))
                && Patched(before[..old(n.size)], Contents(n), offset, buf)
    {
      SizeCovered(offset, clusterSize, n.size, |buf|, |Bytes(n)|);
      if clean && offset + |buf| < TWO_32 {
        ExactPatch(before, Bytes(n), offset, clusterSize, buf, n.size);
      }
      UpdateSize(n, offset, |buf|);
    }

    /** fat32_write. After a fully successful write of a non-empty buffer, ending below 4 GB, the file has
        the buffer at `offset` and every old byte outside it; no other file is touched, ever. Without disk
        errors it is cut short only by a full disk. */
    method Write(n: FileNode, offset: nat, buf: seq<Byte>, stale: seq<Byte>) returns (r: int)
      requires Valid() && Backed() && n in chains && |stale| == clusterSize && offset < TWO_64 && |buf| < TWO_32
      modifies fat, data, n, this`chains, this`faults
      ensures Valid() && Backed() && SameReserved(old(fat[..]), fat[..]) && Grew(old(chains), chains, n)
      ensures forall m | m in chains && m != n :: Bytes(m) == old(Bytes(m)) && m.size == old(m.size)
      ensures -1 <= r <= |buf| && (r < |buf| ==> n.size == old(n.size))
      ensures r < |buf| && faults == old(faults) ==> DiskFull()
      ensures r == |buf| > 0 ==> n.size == SizeAfter(old(n.size), offset, |buf|)
      ensures r == |buf| > 0 && faults == old(faults) && offset + |buf| < TWO_32 ==>
                && n.size == (if offset + |buf| > old(n.size) then offset + |buf| else old(n.size))
                && Patched(old(Contents(n)), Contents(n), offset, buf)
    {
      var started, complete, written := WriteAt(n, offset, buf, stale);
      if !started {
        return -1;
      }
      if !complete {
        return written;
      }
      FinishWrite(n, offset, buf, old(Bytes(n)), faults == old(faults));
      return written;
    }

    /** fat32_read's walk to the first cluster it needs; 0 stands for the end of the chain. */
    method SkipRead(ghost n: FileNode, first: nat, skip: nat) returns (current: nat)
      requires Valid() && n in chains && chains[n] != [] && chains[n][0] == first
      ensures current == if skip < |chains[n]| then chains[n][skip] else 0
    {
      current := first;
      var i := 0;
      while i < skip
        invariant i <= skip && i < |chains[n]| && chains[n][i] == current
      {
        EntryWithinChain(fat[..], total, chains[n], i);
        current := Value(fat[current]);
        if current >= EOC_MIN {
          return 0;
        }
        i := i + 1;
      }
    }

    lemma PieceOfFile(n: FileNode, k: nat, at: nat, to: nat, from: nat)
      requires Valid() && n in chains && k < |chains[n]| && at <= to <= clusterSize && from == Start(k, clusterSize) + at
      ensures chains[n][k] < data.Length && |data[chains[n][k]]| == clusterSize
      ensures from + to - at <= |Bytes(n)| && data[chains[n][k]][at..to] == Bytes(n)[from..from + to - at]
    {
      assert IsChain(fat[..], total, chains[n]);
      FlatSlice(data[..], chains[n], clusterSize, k, at, to);
    }

    /** One turn of the read loop: bytes `at` to `to` of the current cluster. */
    method ReadChunk(ghost n: FileNode, ghost k: nat, current: nat, at: nat, to: nat, stale: seq<Byte>, ghost from: nat)
      returns (ok: bool, piece: seq<Byte>, buf: seq<Byte>)
      requires Valid() && n in chains && k < |chains[n]| && current == chains[n][k] && |stale| == clusterSize
      requires at <= to <= clusterSize && from == Start(k, clusterSize) + at
      modifies this`faults
      ensures |buf| == clusterSize && faults >= old(faults) && (ok <==> faults == old(faults))
      ensures from + to - at <= |Bytes(n)| && (ok ==> piece == Bytes(n)[from..from + to - at])
    {
      PieceOfFile(n, k, at, to, from);
      ok, buf := ReadCluster(current, stale);
      piece := buf[at..to];
    }

    lemma MoreClusters(n: FileNode, k: nat, pos: nat)
      requires Valid() && n in chains && Start(k, clusterSize) <= pos < |Bytes(n)|
      ensures k < |chains[n]|
    {
      assert chains[n] != [] ==> IsChain(fat[..], total, chains[n]);
      FlatLength(data[..], chains[n], clusterSize);
      StartAtMost(k, |chains[n]|, clusterSize);
    }

    /** One whole turn of the read loop: a chunk and the step along the chain. */
    method ReadTurn(ghost n: FileNode, ghost k: nat, current: nat, at: nat, out: seq<Byte>, want: nat, stale: seq<Byte>, ghost offset: nat)
      returns (ok: bool, more: seq<Byte>, next: nat, buf: seq<Byte>)
      requires Valid() && Positioned(n, current, k, at, offset, |out|) && |stale| == clusterSize
      requires |out| < want && offset + want <= |Bytes(n)| && out == Bytes(n)[offset..offset + |out|]
      modifies this`faults
      ensures |buf| == clusterSize && faults >= old(faults) && (ok <==> faults == old(faults))
      ensures ok ==> |out| < |more| <= want && more == Bytes(n)[offset..offset + |more|]
      ensures ok && |more| < want ==> next < EOC_MIN && Positioned(n, next, k + 1, 0, offset, |more|)
    {
      var to := if clusterSize - at > want - |out| then at + want - |out| else clusterSize;
      var piece;
      ok, piece, buf := ReadChunk(n, k, current, at, to, stale, offset + |out|);
      more := out + piece;
      EntryWithinChain(fat[..], total, chains[n], k);
      next := Value(fat[current]);
      if ok {
        SliceExtends(Bytes(n), offset, out, piece);
        if |more| < want {
          NextPosition(n, k, current, at, offset, |out|, |more|);
        }
      }
    }

    /** A cluster read to its end, with more of the file to come. */
    lemma NextPosition(n: FileNode, k: nat, current: nat, at: nat, from: nat, done: nat, more: nat)
      requires Valid() && Positioned(n, current, k, at, from, done)
      requires more == done + clusterSize - at && from + more < |Bytes(n)|
      ensures current < fat.Length && Value(fat[current]) < EOC_MIN
      ensures Positioned(n, Value(fat[current]), k + 1, 0, from, more)
    {
      StartStep(k, clusterSize);
      MoreClusters(n, k + 1, from + more);
      EntryWithinChain(fat[..], total, chains[n], k);
    }

    method ReadLoop(ghost n: FileNode, ghost skip: nat, first: nat, start: nat, want: nat, stale: seq<Byte>, ghost offset: nat)
      returns (out: seq<Byte>)
      requires Valid() && Positioned(n, first, skip, start, offset, 0) && |stale| == clusterSize
      requires first < EOC_MIN && offset + want <= |Bytes(n)|
      modifies this`faults
      ensures |out| <= want && out == Bytes(n)[offset..offset + |out|] && faults >= old(faults)
      ensures faults == old(faults) ==> |out| == want
    {
      out := [];
      var current: nat, at: nat, scratch := first, start, stale;
      ghost var k: nat := skip;
      while |out| < want && current < EOC_MIN
        invariant |out| <= want && |scratch| == clusterSize && faults == old(faults)
        invariant out == Bytes(n)[offset..offset + |out|]
        invariant |out| < want ==> current < EOC_MIN && Positioned(n, current, k, at, offset, |out|)
        decreases want - |out|
      {
        var ok, more, next;
        ok, more, next, scratch := ReadTurn(n, k, current, at, out, want, scratch, offset);
        if !ok {
          return;
        }
        out, current, at, k := more, next, 0, k + 1;
      }
    }

    /** fat32_read's walk to the cluster that holds byte `offset` of the file. */
    method SeekRead(n: FileNode, offset: nat) returns (current: nat, skip: nat, at: nat)
      requires Valid() && n in chains && offset < |Bytes(n)|
      ensures current < EOC_MIN && Positioned(n, current, skip, at, offset, 0)
    {
      skip, at := offset / clusterSize, offset % clusterSize;
      StartSplit(offset, clusterSize);
      MoreClusters(n, 0, offset);
      MoreClusters(n, skip, offset);
      current := SkipRead(n, n.firstCluster, skip);
      assert IsChain(fat[..], total, chains[n]);
    }

    /** fat32_read: the requested bytes, cut at the size; after a disk error the bytes before it. */
    method Read(n: FileNode, offset: nat, size: nat, stale: seq<Byte>) returns (out: seq<Byte>)
      requires Valid() && Backed() && n in chains && |stale| == clusterSize && offset < TWO_64 && size < TWO_32
      modifies this`faults
      ensures out <= Slice(Contents(n), offset, size)
      ensures faults == old(faults) ==> out == Slice(Contents(n), offset, size)
    {
      out := [];
      if offset >= n.size {
        return;
      }
      var want: nat := if offset + size > n.size then n.size - offset else size;
      ghost var bytes := Bytes(n);
      var current, skip, at := SeekRead(n, offset);
      out := ReadLoop(n, skip, current, at, want, stale, offset);
      assert Bytes(n) == bytes && Contents(n) == bytes[..n.size];
      SliceWithin(bytes, n.size, offset, size, want);
    }
  }
}
