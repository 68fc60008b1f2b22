/** The FAT as a heap of singly linked cluster chains, and files as the bytes along a chain. */
module FatChains {

  const EOC: nat := 0x0FFF_FFFF
  const EOC_MIN: nat := 0x0FFF_FFF8
  const TWO_28: nat := 0x1000_0000
  const TWO_32: nat := 0x1_0000_0000

  type Byte = x: int | 0 <= x < 256

  /** A FAT word keeps its value in the low 28 bits; the top 4 bits are reserved. */
  function Value(word: nat): (v: nat)
    ensures v < TWO_28
  {
    word % TWO_28
  }

  function Put(word: nat, value: nat): (w: nat)
    ensures Value(w) == value % TWO_28 && w / TWO_28 == word / TWO_28
  {
    word / TWO_28 * TWO_28 + value % TWO_28
  }

  ghost predicate Distinct(cs: seq<nat>)
  {
    forall i, j | 0 <= i < j < |cs| :: cs[i] != cs[j]
  }

  /** `cs` is a whole chain: distinct clusters in range, each entry naming the next, the last one ending it. */
  ghost predicate IsChain(fat: seq<nat>, total: nat, cs: seq<nat>)
  {
    && |cs| > 0 && Distinct(cs)
    && (forall i | 0 <= i < |cs| :: 2 <= cs[i] < total && cs[i] < |fat|)
    && (forall i | 0 <= i < |cs| - 1 :: Value(fat[cs[i]]) == cs[i + 1])
    && Value(fat[cs[|cs| - 1]]) >= EOC_MIN
  }

  /** The live chains, by owner: pairwise disjoint; an owner without clusters has the empty sequence. */
  ghost predicate Shape<K>(fat: seq<nat>, total: nat, chains: map<K, seq<nat>>)
  {
    && (forall k | k in chains :: chains[k] == [] || IsChain(fat, total, chains[k]))
    && (forall j, k, c | j in chains && k in chains && c in chains[j] && c in chains[k] :: j == k)
  }

  /** Cluster numbers stay below the end marks. */
  ghost predicate InBounds(fat: seq<nat>, total: nat)
  {
    total <= |fat| && total <= EOC_MIN
  }

  /** The FAT after cluster `c` is marked as an end and hung behind `cs`. */
  function Appended(fat: seq<nat>, cs: seq<nat>, c: nat): (f: seq<nat>)
    requires c < |fat| && (cs != [] ==> cs[|cs| - 1] < |fat|)
    ensures |f| == |fat|
  {
    var marked := fat[c := Put(fat[c], EOC)];
    if cs == [] then marked else marked[cs[|cs| - 1] := Put(marked[cs[|cs| - 1]], c)]
  }

  lemma EntryIsUsed(fat: seq<nat>, total: nat, cs: seq<nat>, i: nat)
    requires IsChain(fat, total, cs) && i < |cs|
    ensures Value(fat[cs[i]]) >= 2
  {
    assert i < |cs| - 1 ==> Value(fat[cs[i]]) == cs[i + 1];
  }

  /** A free entry lies in no chain. */
  lemma FreeIsUnowned<K>(fat: seq<nat>, total: nat, chains: map<K, seq<nat>>, c: nat)
    requires Shape(fat, total, chains) && c < |fat| && Value(fat[c]) == 0
    ensures forall k | k in chains :: c !in chains[k]
  {
    forall k | k in chains
      ensures c !in chains[k]
    {
      if c in chains[k] {
        var i :| 0 <= i < |chains[k]| && chains[k][i] == c;
        EntryIsUsed(fat, total, chains[k], i);
        assert false;
      }
    }
  }

  lemma OtherChain(fat: seq<nat>, fat': seq<nat>, total: nat, cs: seq<nat>)
    requires IsChain(fat, total, cs) && |fat'| == |fat|
    requires forall c | c in cs :: fat'[c] == fat[c]
    ensures IsChain(fat', total, cs)
  {
    assert forall i | 0 <= i < |cs| :: cs[i] in cs;
  }

  /** Appending a free cluster lengthens one chain by it. */
  lemma AppendedIsChain(fat: seq<nat>, total: nat, cs: seq<nat>, c: nat)
    requires InBounds(fat, total) && (cs == [] || IsChain(fat, total, cs)) && c !in cs
    requires 2 <= c < total
    ensures IsChain(Appended(fat, cs, c), total, cs + [c])
  {
    var fat' := Appended(fat, cs, c);
    var ds := cs + [c];
    forall i | 0 <= i < |ds| - 1
      ensures Value(fat'[ds[i]]) == ds[i + 1]
    {
      assert cs[i] in cs;
    }
  }

  lemma AppendedShape<K>(fat: seq<nat>, total: nat, chains: map<K, seq<nat>>, k: K, c: nat)
    requires InBounds(fat, total) && Shape(fat, total, chains) && k in chains
    requires 2 <= c < total && Value(fat[c]) == 0
    ensures Shape(Appended(fat, chains[k], c), total, chains[k := chains[k] + [c]])
  {
    FreeIsUnowned(fat, total, chains, c);
    AppendedIsChain(fat, total, chains[k], c);
    var fat' := Appended(fat, chains[k], c);
    forall j | j in chains && j != k && chains[j] != []
      ensures IsChain(fat', total, chains[j])
    {
      forall d | d in chains[j]
        ensures fat'[d] == fat[d]
      {
        if chains[k] != [] {
          assert chains[k][|chains[k]| - 1] in chains[k];
        }
      }
      OtherChain(fat, fat', total, chains[j]);
    }
  }

  /** Marking a free cluster as used leaves all chains alone. */
  lemma MarkedShape<K>(fat: seq<nat>, total: nat, chains: map<K, seq<nat>>, c: nat)
    requires Shape(fat, total, chains) && c < |fat| && Value(fat[c]) == 0
    ensures Shape(fat[c := Put(fat[c], EOC)], total, chains)
  {
    FreeIsUnowned(fat, total, chains, c);
    forall j | j in chains && chains[j] != []
      ensures IsChain(fat[c := Put(fat[c], EOC)], total, chains[j])
    {
      OtherChain(fat, fat[c := Put(fat[c], EOC)], total, chains[j]);
    }
  }

  /** Following the FAT for `i` steps from the first cluster of a chain leads to its `i`-th cluster. */
  function Follow(fat: seq<nat>, c: nat, i: nat): nat
    decreases i
  {
    if i == 0 then c
    else if c < |fat| then Follow(fat, Value(fat[c]), i - 1) else c
  }

  lemma {:induction false} FollowChain(fat: seq<nat>, total: nat, cs: seq<nat>, j: nat, i: nat)
    requires IsChain(fat, total, cs) && j + i < |cs|
    ensures Follow(fat, cs[j], i) == cs[j + i]
    decreases i
  {
    if i > 0 {
      FollowChain(fat, total, cs, j + 1, i - 1);
    }
  }

  /** The first cluster determines the chain. */
  lemma ChainIsUnique(fat: seq<nat>, total: nat, cs: seq<nat>, ds: seq<nat>)
    requires InBounds(fat, total) && IsChain(fat, total, cs) && IsChain(fat, total, ds) && cs[0] == ds[0]
    ensures cs == ds
  {
    if |cs| <= |ds| {
      PrefixIsWhole(fat, total, cs, ds);
    } else {
      PrefixIsWhole(fat, total, ds, cs);
    }
  }

  /** Only the last entry of a chain is an end mark. */
  lemma EntryWithinChain(fat: seq<nat>, total: nat, cs: seq<nat>, i: nat)
    requires InBounds(fat, total) && IsChain(fat, total, cs) && i < |cs|
    ensures Value(fat[cs[i]]) >= EOC_MIN <==> i == |cs| - 1
  {
    assert i < |cs| - 1 ==> Value(fat[cs[i]]) == cs[i + 1] < total;
  }

  lemma PrefixIsWhole(fat: seq<nat>, total: nat, cs: seq<nat>, ds: seq<nat>)
    requires InBounds(fat, total) && IsChain(fat, total, cs) && IsChain(fat, total, ds)
    requires cs[0] == ds[0] && |cs| <= |ds|
    ensures cs == ds
  {
    forall i: nat | i < |cs|
      ensures cs[i] == ds[i]
    {
      FollowChain(fat, total, cs, 0, i);
      FollowChain(fat, total, ds, 0, i);
    }
    var last := |cs| - 1;
    EntryWithinChain(fat, total, ds, last);
    assert cs[last] == ds[last];
  }

  /** The bytes of the clusters `cs`, in order. */
  ghost function Flat(data: seq<seq<Byte>>, cs: seq<nat>): seq<Byte>
  {
    if cs == [] then [] else
      var n := |cs| - 1;
      Flat(data, cs[..n]) + if cs[n] < |data| then data[cs[n]] else []
  }

  ghost predicate Sized(data: seq<seq<Byte>>, size: nat)
  {
    forall c | 0 <= c < |data| :: |data[c]| == size
  }

  ghost predicate OnDisk(data: seq<seq<Byte>>, cs: seq<nat>)
  {
    forall i | 0 <= i < |cs| :: cs[i] < |data|
  }

  /** Where the `k`-th cluster of a file starts. */
  function Start(k: nat, size: nat): nat
  {
    k * size
  }

  lemma StartStep(k: nat, size: nat)
    ensures Start(k + 1, size) == Start(k, size) + size
  {
  }

  lemma StartLess(k: nat, n: nat, size: nat)
    requires k < n
    ensures Start(k, size) + size <= Start(n, size)
  {
    StartStep(n - 1, size);
    if k < n - 1 {
      StartLess(k, n - 1, size);
    }
  }

  lemma StartSplit(offset: nat, size: nat)
    requires size > 0
    ensures Start(offset / size, size) + offset % size == offset && offset % size < size
  {
  }

  lemma StartAtLeast(k: nat, size: nat)
    requires size > 0
    ensures k <= Start(k, size)
  {
  }

  lemma BelowWord(x: nat)
    requires x < TWO_32
    ensures x % TWO_32 == x
  {
  }

  lemma StartAtMost(k: nat, n: nat, size: nat)
    requires Start(k, size) < Start(n, size)
    ensures k < n
  {
  }

  lemma {:induction false} FlatLength(data: seq<seq<Byte>>, cs: seq<nat>, size: nat)
    requires Sized(data, size) && OnDisk(data, cs)
    ensures |Flat(data, cs)| == Start(|cs|, size)
  {
    if cs != [] {
      FlatLength(data, cs[..|cs| - 1], size);
      StartStep(|cs| - 1, size);
    }
  }

  lemma {:induction false} FlatSame(data: seq<seq<Byte>>, data': seq<seq<Byte>>, cs: seq<nat>)
    requires |data| == |data'| && forall c | c in cs && c < |data| :: data[c] == data'[c]
    ensures Flat(data, cs) == Flat(data', cs)
  {
    if cs != [] {
      assert cs[|cs| - 1] in cs;
      FlatSame(data, data', cs[..|cs| - 1]);
    }
  }

  lemma {:induction false} FlatPrefix(data: seq<seq<Byte>>, cs: seq<nat>, ds: seq<nat>)
    requires cs <= ds
    ensures Flat(data, cs) <= Flat(data, ds)
    decreases |ds|
  {
    if cs != ds {
      assert cs <= ds[..|ds| - 1];
      FlatPrefix(data, cs, ds[..|ds| - 1]);
    }
  }

  /** `bytes` written over `s` from position `at` on. */
  function Overwrite(s: seq<Byte>, at: nat, bytes: seq<Byte>): seq<Byte>
    requires at + |bytes| <= |s|
  {
    s[..at] + bytes + s[at + |bytes|..]
  }

  lemma OverwriteRight(s: seq<Byte>, t: seq<Byte>, at: nat, bytes: seq<Byte>)
    requires at + |bytes| <= |t|
    ensures s + Overwrite(t, at, bytes) == Overwrite(s + t, |s| + at, bytes)
  {
  }

  lemma OverwriteLeft(s: seq<Byte>, t: seq<Byte>, at: nat, bytes: seq<Byte>)
    requires at + |bytes| <= |s|
    ensures Overwrite(s, at, bytes) + t == Overwrite(s + t, at, bytes)
  {
  }

  /** Overwriting a piece of the `k`-th cluster overwrites the same piece of the file. */
  lemma {:induction false} FlatOverwrite(data: seq<seq<Byte>>, cs: seq<nat>, size: nat, k: nat, at: nat, bytes: seq<Byte>)
    requires Sized(data, size) && OnDisk(data, cs) && Distinct(cs) && k < |cs| && at + |bytes| <= size
    ensures Start(k, size) + size <= |Flat(data, cs)|
    ensures Flat(data[cs[k] := Overwrite(data[cs[k]], at, bytes)], cs) == Overwrite(Flat(data, cs), Start(k, size) + at, bytes)
  {
    var n := |cs| - 1;
    var data' := data[cs[k] := Overwrite(data[cs[k]], at, bytes)];
    FlatLength(data, cs[..n], size);
    var init, last := Flat(data, cs[..n]), data[cs[n]];
    assert Flat(data, cs) == init + last;
    assert Flat(data', cs) == Flat(data', cs[..n]) + data'[cs[n]];
    if k == n {
      FlatSame(data, data', cs[..n]);
      OverwriteRight(init, last, at, bytes);
    } else {
      StartLess(k, n, size);
      FlatOverwrite(data, cs[..n], size, k, at, bytes);
      OverwriteLeft(init, last, Start(k, size) + at, bytes);
    }
  }

  /** A piece of the `k`-th cluster is a piece of the file. */
  lemma {:induction false} FlatSlice(data: seq<seq<Byte>>, cs: seq<nat>, size: nat, k: nat, from: nat, to: nat)
    requires Sized(data, size) && OnDisk(data, cs) && k < |cs| && from <= to <= size
    ensures Start(k, size) + size <= |Flat(data, cs)|
    ensures Flat(data, cs)[Start(k, size) + from..Start(k, size) + to] == data[cs[k]][from..to]
  {
    var n := |cs| - 1;
    FlatLength(data, cs[..n], size);
    if k < n {
      FlatSlice(data, cs[..n], size, k, from, to);
    }
  }

  /** A change confined to the clusters of one chain leaves the bytes of all other chains alone. */
  lemma OtherFilesKept<K>(fat: seq<nat>, total: nat, chains: map<K, seq<nat>>, k: K, data: seq<seq<Byte>>, data': seq<seq<Byte>>)
    requires Shape(fat, total, chains) && k in chains && |data| == |data'|
    requires forall c: nat | c < |data| && c !in chains[k] :: data'[c] == data[c]
    ensures forall j | j in chains && j != k :: Flat(data', chains[j]) == Flat(data, chains[j])
  {
    forall j | j in chains && j != k
      ensures Flat(data', chains[j]) == Flat(data, chains[j])
    {
      FlatSame(data, data', chains[j]);
    }
  }

  lemma LongerChain(data: seq<seq<Byte>>, data': seq<seq<Byte>>, cs: seq<nat>, ds: seq<nat>, size: nat)
    requires Sized(data, size) && Sized(data', size) && OnDisk(data, cs) && OnDisk(data', ds) && |cs| <= |ds|
    ensures |Flat(data, cs)| <= |Flat(data', ds)|
  {
    FlatLength(data, cs, size);
    FlatLength(data', ds, size);
    if |cs| < |ds| {
      StartLess(|cs|, |ds|, size);
    }
  }

  /** The truncated end of a write never lies past the clusters that the truncated cluster count reached. */
  lemma TruncatedEnd(offset: nat, size: nat, written: nat)
    requires size > 0
    ensures (offset + written) % TWO_32 <= Start(offset / size % TWO_32, size) + offset % size + written
  {
    var q := offset / size;
    var t, skip := q / TWO_32, q % TWO_32;
    StartSplit(offset, size);
    assert Start(q, size) == t * size * TWO_32 + Start(skip, size) by {
      StartScaled(t, skip, size);
    }
    ModAtMost(t * size, Start(skip, size) + offset % size + written);
  }

  lemma StartScaled(t: nat, skip: nat, size: nat)
    ensures Start(t * TWO_32 + skip, size) == t * size * TWO_32 + Start(skip, size)
  {
  }

  lemma ModAtMost(x: nat, y: nat)
    ensures (x * TWO_32 + y) % TWO_32 <= y
  {
  }
}
