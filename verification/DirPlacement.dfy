/** Where fat32_create_entry puts a new entry, as a property of the directory before the call. */
module DirPlacement {
  import opened Wrappers
  import opened FatChains
  import opened DirSlots
  import opened DirEntries
  import opened Directories

  /** Slots that the search takes for free; the second test never holds. */
  predicate IsFree(s: Slot)
  {
    IsEnd(s) || LooksDeleted(s)
  }

  /** `need` free slots in a row from `i` on. */
  ghost predicate IsRun(slots: seq<Slot>, i: nat, need: nat)
  {
    i + need <= |slots| && forall j | i <= j < i + need :: IsFree(slots[j])
  }

  ghost predicate NoRun(slots: seq<Slot>, need: nat)
  {
    forall i: nat :: !IsRun(slots, i, need)
  }

  /** The first run in chain order: none in an earlier cluster, none before it in its own. */
  ghost predicate IsFirstRun(data: seq<seq<Byte>>, cs: seq<nat>, k: nat, start: nat, need: nat)
  {
    && k < |cs| && IsRun(SlotsIn(data, cs[k]), start, need)
    && (forall i: nat | i < start :: !IsRun(SlotsIn(data, cs[k]), i, need))
    && forall m | 0 <= m < k :: NoRun(SlotsIn(data, cs[m]), need)
  }

  ghost predicate IsFull(data: seq<seq<Byte>>, cs: seq<nat>, need: nat)
  {
    forall m | 0 <= m < |cs| :: NoRun(SlotsIn(data, cs[m]), need)
  }

  predicate HasEnd(slots: seq<Slot>)
  {
    exists i :: 0 <= i < |slots| && IsEnd(slots[i])
  }

  /** Slot `i` of cluster `k` is the first end mark of the directory. */
  ghost predicate IsFirstEnd(data: seq<seq<Byte>>, cs: seq<nat>, k: nat, i: nat)
  {
    && k < |cs| && i < |SlotsIn(data, cs[k])| && IsEnd(SlotsIn(data, cs[k])[i])
    && (forall j | 0 <= j < i :: !IsEnd(SlotsIn(data, cs[k])[j]))
    && forall m | 0 <= m < k :: !HasEnd(SlotsIn(data, cs[m]))
  }

  /** The directory has no end mark, or its first one starts a run of `need` of them inside its own cluster. */
  ghost predicate EndFits(data: seq<seq<Byte>>, cs: seq<nat>, need: nat)
  {
    forall k: nat, i: nat :: IsFirstEnd(data, cs, k, i) ==> IsRun(SlotsIn(data, cs[k]), i, need)
  }

  /** The slots of the directory before slot `start` of cluster `k`. */
  ghost function SlotsBefore(data: seq<seq<Byte>>, cs: seq<nat>, k: nat, start: nat): seq<Slot>
    requires k < |cs| && start <= |SlotsIn(data, cs[k])|
  {
    SlotsAlong(data, cs[..k]) + SlotsIn(data, cs[k])[..start]
  }

  lemma {:induction false} EndedIff(t: Scanner, slots: seq<Slot>)
    requires !t.ended
    ensures ScanFrom(t, slots).ended <==> HasEnd(slots)
  {
    if slots != [] {
      var init, last := slots[..|slots| - 1], slots[|slots| - 1];
      EndedIff(t, init);
      HasEndJoin(init, [last]);
      assert slots == init + [last] && [last][0] == last;
    }
  }

  lemma HasEndJoin(a: seq<Slot>, b: seq<Slot>)
    ensures HasEnd(a + b) <==> HasEnd(a) || HasEnd(b)
  {
    var s := a + b;
    if HasEnd(s) {
      var i :| 0 <= i < |s| && IsEnd(s[i]);
      assert if i < |a| then IsEnd(a[i]) else IsEnd(b[i - |a|]);
    }
    if HasEnd(a) {
      var i :| 0 <= i < |a| && IsEnd(a[i]);
      assert IsEnd(s[i]);
    }
    if HasEnd(b) {
      var i :| 0 <= i < |b| && IsEnd(b[i]);
      assert IsEnd(s[|a| + i]);
    }
  }

  /** Some cluster of the chain has an end mark. */
  ghost predicate SomeEnds(data: seq<seq<Byte>>, cs: seq<nat>)
  {
    exists m :: 0 <= m < |cs| && HasEnd(SlotsIn(data, cs[m]))
  }

  lemma SomeEndsSnoc(data: seq<seq<Byte>>, cs: seq<nat>, init: seq<nat>, c: nat)
    requires cs == init + [c]
    ensures SomeEnds(data, cs) <==> SomeEnds(data, init) || HasEnd(SlotsIn(data, c))
  {
    assert cs[|init|] == c;
    assert forall m | 0 <= m < |init| :: cs[m] == init[m];
  }

  lemma {:induction false} HasEndAlong(data: seq<seq<Byte>>, cs: seq<nat>)
    ensures HasEnd(SlotsAlong(data, cs)) <==> SomeEnds(data, cs)
  {
    if cs != [] {
      var init, c := cs[..|cs| - 1], cs[|cs| - 1];
      var a, b := SlotsAlong(data, init), SlotsIn(data, c);
      HasEndAlong(data, init);
      SomeEndsSnoc(data, cs, init, c);
      assert SlotsAlong(data, cs) == a + b;
      HasEndJoin(a, b);
    }
  }

  lemma FirstEndIn(slots: seq<Slot>, end: nat) returns (i: nat)
    requires end < |slots| && IsEnd(slots[end])
    ensures i <= end && IsEnd(slots[i]) && forall j | 0 <= j < i :: !IsEnd(slots[j])
  {
    i := 0;
    while !IsEnd(slots[i])
      invariant i <= end && forall j | 0 <= j < i :: !IsEnd(slots[j])
      decreases end - i
    {
      i := i + 1;
    }
  }

  lemma FirstEndCluster(data: seq<seq<Byte>>, cs: seq<nat>, m: nat) returns (k: nat)
    requires m < |cs| && HasEnd(SlotsIn(data, cs[m]))
    ensures k <= m && HasEnd(SlotsIn(data, cs[k])) && forall l | 0 <= l < k :: !HasEnd(SlotsIn(data, cs[l]))
  {
    if l :| 0 <= l < m && HasEnd(SlotsIn(data, cs[l])) {
      k := FirstEndCluster(data, cs, l);
    } else {
      k := m;
    }
  }

  /** If there is an end mark at or before a place, there is a first one at or before it. */
  lemma FirstEndExists(data: seq<seq<Byte>>, cs: seq<nat>, m: nat, j: nat) returns (k: nat, i: nat)
    requires m < |cs| && j < |SlotsIn(data, cs[m])| && IsEnd(SlotsIn(data, cs[m])[j])
    ensures IsFirstEnd(data, cs, k, i) && k <= m && (k == m ==> i <= j)
  {
    k := FirstEndCluster(data, cs, m);
    var slots := SlotsIn(data, cs[k]);
    var end := j;
    if k != m {
      end :| 0 <= end < |slots| && IsEnd(slots[end]);
    }
    i := FirstEndIn(slots, end);
  }

  lemma OneFirstEnd(data: seq<seq<Byte>>, cs: seq<nat>, k: nat, i: nat, k': nat, i': nat)
    requires IsFirstEnd(data, cs, k, i) && IsFirstEnd(data, cs, k', i')
    ensures k == k' && i == i'
  {
    assert HasEnd(SlotsIn(data, cs[k])) && HasEnd(SlotsIn(data, cs[k']));
  }

  /** The first run has no end mark before it exactly when the directory's first end mark fits. */
  lemma FirstRunIff(data: seq<seq<Byte>>, cs: seq<nat>, k: nat, start: nat, need: nat)
    requires IsFirstRun(data, cs, k, start, need) && need > 0
    ensures HasEnd(SlotsBefore(data, cs, k, start)) <==> !EndFits(data, cs, need)
  {
    var slots := SlotsIn(data, cs[k]);
    HasEndJoin(SlotsAlong(data, cs[..k]), slots[..start]);
    HasEndAlong(data, cs[..k]);
    if HasEnd(SlotsBefore(data, cs, k, start)) {
      var m, j := EndBefore(data, cs, k, start);
      var k', i' := FirstEndExists(data, cs, m, j);
      assert IsFirstEnd(data, cs, k', i') && !IsRun(SlotsIn(data, cs[k']), i', need);
    } else {
      assert IsFirstEnd(data, cs, k, start) by {
        assert forall j | 0 <= j < start :: slots[j] == slots[..start][j];
        assert forall m | 0 <= m < k :: cs[..k][m] == cs[m];
      }
      forall k': nat, i': nat | IsFirstEnd(data, cs, k', i')
        ensures IsRun(SlotsIn(data, cs[k']), i', need)
      {
        OneFirstEnd(data, cs, k, start, k', i');
      }
    }
  }

  lemma EndBefore(data: seq<seq<Byte>>, cs: seq<nat>, k: nat, start: nat) returns (m: nat, j: nat)
    requires k < |cs| && start <= |SlotsIn(data, cs[k])| && HasEnd(SlotsBefore(data, cs, k, start))
    ensures m <= k && j < |SlotsIn(data, cs[m])| && IsEnd(SlotsIn(data, cs[m])[j]) && (m == k ==> j < start)
  {
    var here := SlotsIn(data, cs[k])[..start];
    HasEndJoin(SlotsAlong(data, cs[..k]), here);
    HasEndAlong(data, cs[..k]);
    if HasEnd(here) {
      m := k;
      j :| 0 <= j < |here| && IsEnd(here[j]);
    } else {
      m :| 0 <= m < k && HasEnd(SlotsIn(data, cs[..k][m]));
      var slots := SlotsIn(data, cs[m]);
      j :| 0 <= j < |slots| && IsEnd(slots[j]);
    }
  }

  /** A directory without any run grows; the new cluster has no end mark before it exactly when the old ones had none. */
  lemma FullIff(data: seq<seq<Byte>>, cs: seq<nat>, need: nat)
    requires IsFull(data, cs, need)
    ensures HasEnd(SlotsAlong(data, cs)) <==> !EndFits(data, cs, need)
  {
    HasEndAlong(data, cs);
    forall k: nat, i: nat | IsFirstEnd(data, cs, k, i)
      ensures HasEnd(SlotsIn(data, cs[k]))
    {
    }
    if HasEnd(SlotsAlong(data, cs)) {
      var m :| 0 <= m < |cs| && HasEnd(SlotsIn(data, cs[m]));
      var slots := SlotsIn(data, cs[m]);
      var j :| 0 <= j < |slots| && IsEnd(slots[j]);
      var k, i := FirstEndExists(data, cs, m, j);
      assert IsFirstEnd(data, cs, k, i) && !IsRun(SlotsIn(data, cs[k]), i, need);
    }
  }

  /** Nothing but end marks follows an end mark. */
  ghost predicate IsTidy(slots: seq<Slot>)
  {
    forall i, j | 0 <= i < j < |slots| :: IsEnd(slots[i]) ==> IsEnd(slots[j])
  }

  /** What a creation does to the listing: one more entry at its end if the entry fitted (and nothing else comes to
      light if the directory was tidy, which it stays), no change at all if it did not. */
  ghost predicate CreatedIn(before: seq<Slot>, after: seq<Slot>, fits: bool, name: Name, attr: Byte, first: nat)
    requires first < 0x1_0000_0000
  {
    var entry := NewEntry(ScanFrom(START, before), name, attr, first);
    && (fits ==> Listing(before) + [entry] <= Listing(after))
    && (fits && IsTidy(before) ==>
          Listing(after) == Listing(before) + [entry] && IsTidy(after) && ScanFrom(START, after).checksum == -1)
    && (!fits ==> Listing(after) == Listing(before))
  }

  /** The directory does not end in stray long-name slots, or the new entry brings its own. */
  predicate NoStrayName(before: seq<Slot>, name: Name)
  {
    IsLongName(name) || ScanFrom(START, before).checksum == -1
  }

  /** A scan up to an end mark leaves the same buffer and checksum as a scan of everything. */
  lemma ScanToEnd(slots: seq<Slot>, before: seq<Slot>, behind: seq<Slot>)
    requires slots == before + behind && (behind == [] || IsEnd(behind[0]))
    ensures ScanFrom(START, slots).buf == ScanFrom(START, before).buf
    ensures ScanFrom(START, slots).checksum == ScanFrom(START, before).checksum
  {
    ScanSplit(START, before, behind);
    EndHidesRest(ScanFrom(START, before), behind);
  }

  lemma SameNewEntry(t: Scanner, u: Scanner, name: Name, attr: Byte, first: nat)
    requires t.buf == u.buf && t.checksum == u.checksum && first < 0x1_0000_0000
    ensures NewEntry(t, name, attr, first) == NewEntry(u, name, attr, first)
  {
  }

  lemma EndBehind(slots: seq<Slot>, i: nat, p: nat)
    requires i < p <= |slots| && IsEnd(slots[i])
    ensures HasEnd(slots[..p])
  {
    assert slots[..p][i] == slots[i];
  }

  lemma LfnNotEnd(name: Name, i: nat, chksum: Byte)
    requires 1 <= i <= SlotCount(name) <= 20
    ensures !IsEnd(LfnSlot(name, i, chksum))
  {
    assert LfnSlot(name, i, chksum)[0] == OrderByte(i, SlotCount(name));
  }

  lemma {:induction false} RunNotEnd(name: Name, chksum: Byte, i: nat)
    requires i <= SlotCount(name) <= 20
    ensures !HasEnd(LfnRun(name, chksum, i))
  {
    if i > 0 {
      RunNotEnd(name, chksum, i - 1);
      LfnNotEnd(name, i, chksum);
      HasEndJoin([LfnSlot(name, i, chksum)], LfnRun(name, chksum, i - 1));
    }
  }

  /** No slot of a new entry looks like an end mark. */
  lemma EncodedNotEnd(name: Name, attr: Byte, first: nat)
    requires IsAscii(name) && 1 <= |name| <= 255 && (attr == ATTR_DIRECTORY || attr == ATTR_ARCHIVE)
    ensures !HasEnd(Encode(name, attr, first))
  {
    var run := if IsLongName(name) then LfnRun(name, Checksum(ShortFor(name)), SlotCount(name)) else [];
    RunNotEnd(name, Checksum(ShortFor(name)), SlotCount(name));
    SfnIsLive(name, attr, first);
    HasEndJoin(run, [SfnSlot(ShortFor(name), attr, first)]);
  }

  /** Slots put at the first end mark of a tidy directory leave it tidy. */
  lemma InsertedIsTidy(before: seq<Slot>, roomy: seq<Slot>, p: nat, added: seq<Slot>)
    requires IsTidy(before) && before <= roomy && forall j | |before| <= j < |roomy| :: IsEnd(roomy[j])
    requires p + |added| <= |roomy| && p < |roomy| && IsEnd(roomy[p]) && !HasEnd(roomy[..p]) && !HasEnd(added)
    ensures IsTidy(Inserted(roomy, p, added))
  {
    var after := Inserted(roomy, p, added);
    assert forall j | p <= j < |roomy| :: IsEnd(roomy[j]) by {
      assert p < |before| ==> before[p] == roomy[p];
      assert forall j | p < j < |before| :: before[j] == roomy[j];
    }
    forall i | 0 <= i < p
      ensures !IsEnd(after[i])
    {
      assert after[i] == roomy[..p][i];
    }
    forall i | p <= i < p + |added|
      ensures !IsEnd(after[i])
    {
      assert after[i] == added[i - p];
    }
    forall i | p + |added| <= i < |after|
      ensures IsEnd(after[i])
    {
      assert after[i] == roomy[i];
    }
  }

  /** The slots of a new entry at `p`, in a directory `roomy` that is `before` with end marks added behind. */
  lemma CreationListed(before: seq<Slot>, roomy: seq<Slot>, p: nat, name: Name, attr: Byte, first: nat, fits: bool)
    requires before <= roomy && forall j | |before| <= j < |roomy| :: IsEnd(roomy[j])
    requires IsAscii(name) && 1 <= |name| <= 255 && first < 0x1_0000_0000 && (attr == ATTR_DIRECTORY || attr == ATTR_ARCHIVE)
    requires p + |Encode(name, attr, first)| <= |roomy| && IsEnd(roomy[p])
    requires HasEnd(roomy[..p]) <==> !fits
    ensures CreatedIn(before, Inserted(roomy, p, Encode(name, attr, first)), fits, name, attr, first)
  {
    EndedIff(START, roomy[..p]);
    CreatedListing(roomy, p, name, attr, first);
    RoomyListing(before, roomy);
    if fits {
      FittingPlace(before, roomy, p, |Encode(name, attr, first)|);
      if IsTidy(before) {
        EncodedNotEnd(name, attr, first);
        InsertedIsTidy(before, roomy, p, Encode(name, attr, first));
      }
      SameNewEntry(ScanFrom(START, roomy[..p]), ScanFrom(START, before), name, attr, first);
    }
  }

  /** How many of the slots there is room for. */
  function Fitting(need: nat, room: nat): (n: nat)
    ensures n <= need && n <= room
  {
    if need <= room then need else room
  }

  lemma {:induction false} LfnAddsNothing(t: Scanner, slots: seq<Slot>)
    requires forall s | s in slots :: IsLfn(s)
    ensures ScanFrom(t, slots).entries == t.entries
  {
    if slots != [] {
      assert slots[|slots| - 1] in slots;
      LfnAddsNothing(t, slots[..|slots| - 1]);
    }
  }

  lemma {:induction false} RunIsLfn(name: Name, chksum: Byte, i: nat)
    ensures forall s | s in LfnRun(name, chksum, i) :: IsLfn(s)
  {
    if i > 0 {
      RunIsLfn(name, chksum, i - 1);
      assert LfnSlot(name, i, chksum)[11] == ATTR_LFN;
    }
  }

  /** A name that needs more slots than a cluster has is cut before its short entry: nothing new is listed. */
  lemma CutEntryListed(before: seq<Slot>, roomy: seq<Slot>, p: nat, name: Name, attr: Byte, first: nat, room: nat)
    requires before <= roomy && forall j | |before| <= j < |roomy| :: IsEnd(roomy[j])
    requires room < |Encode(name, attr, first)| && p + room == |roomy| && room > 0 && IsEnd(roomy[p])
    ensures Listing(Inserted(roomy, p, Encode(name, attr, first)[..room])) == Listing(before)
  {
    var cut := Encode(name, attr, first)[..room];
    CutIsLfn(name, attr, first, room);
    CutScanned(roomy, p, cut);
    ListedBeforeEnd(roomy, p);
    RoomyListing(before, roomy);
  }

  lemma CutScanned(roomy: seq<Slot>, p: nat, cut: seq<Slot>)
    requires p + |cut| == |roomy| && forall s | s in cut :: IsLfn(s)
    ensures Listing(Inserted(roomy, p, cut)) == ScanFrom(START, roomy[..p]).entries
  {
    ScanInserted(roomy, p, cut);
    LfnAddsNothing(ScanFrom(START, roomy[..p]), cut);
    assert roomy[p + |cut|..] == [];
  }

  /** End marks added behind a directory list nothing. */
  lemma RoomyListing(before: seq<Slot>, roomy: seq<Slot>)
    requires before <= roomy && forall j | |before| <= j < |roomy| :: IsEnd(roomy[j])
    ensures Listing(roomy) == Listing(before)
  {
    assert roomy == before + roomy[|before|..];
    ScanSplit(START, before, roomy[|before|..]);
    EndHidesRest(ScanFrom(START, before), roomy[|before|..]);
  }

  lemma CutIsLfn(name: Name, attr: Byte, first: nat, room: nat)
    requires room < |Encode(name, attr, first)|
    ensures forall s | s in Encode(name, attr, first)[..room] :: IsLfn(s)
  {
    if IsLongName(name) {
      var run := LfnRun(name, Checksum(ShortFor(name)), SlotCount(name));
      RunIsLfn(name, Checksum(ShortFor(name)), SlotCount(name));
      assert Encode(name, attr, first)[..room] == run[..room];
    }
  }

  lemma PrefixParts(before: seq<Slot>, roomy: seq<Slot>, p: nat) returns (a: seq<Slot>, b: seq<Slot>)
    requires before <= roomy && p <= |before| && p < |roomy|
    ensures a == roomy[..p] && before == a + b && (b == [] || b[0] == roomy[p])
  {
    a, b := before[..p], before[p..];
    assert roomy[..p] == a;
  }

  /** A free run with no end mark before it stands at the first end mark, or behind a directory that has none. */
  lemma FittingPlace(before: seq<Slot>, roomy: seq<Slot>, p: nat, need: nat)
    requires before <= roomy && forall j | |before| <= j < |roomy| :: IsEnd(roomy[j])
    requires p + need <= |roomy| && p < |roomy| && IsEnd(roomy[p]) && !HasEnd(roomy[..p]) && need > 0
    ensures ScanFrom(START, roomy[..p]).buf == ScanFrom(START, before).buf
    ensures ScanFrom(START, roomy[..p]).checksum == ScanFrom(START, before).checksum
    ensures IsTidy(before) ==> EndsAt(roomy, p + need)
  {
    if p > |before| {
      EndBehind(roomy, |before|, p);
      assert false;
    }
    var a, b := PrefixParts(before, roomy, p);
    ScanToEnd(before, a, b);
    if IsTidy(before) && p + need < |before| {
      assert IsEnd(before[p]) && IsEnd(before[p + need]);
    }
  }

  /** Create, then find. An absent, findable name is found afterwards exactly when its entry fitted. In a tidy directory
      any name is found exactly when besides its new entry answers to it, which is when the name is findable (unless
      stray long-name slots stood at the end); and no lookup changes but of names the new entry answers to. */
  lemma CreatedLookups(before: seq<Slot>, after: seq<Slot>, fits: bool, name: Name, attr: Byte, first: nat, other: Name)
    requires first < 0x1_0000_0000 && CreatedIn(before, after, fits, name, attr, first)
    requires IsAscii(name) && 1 <= |name| <= 255 && Lookup(Listing(before), name) == None
    ensures var entry, found := NewEntry(ScanFrom(START, before), name, attr, first), Lookup(Listing(after), name);
            && (IsFindable(name) ==> found == if fits then Some(entry) else None)
            && (IsTidy(before) ==> (found.Some? <==> fits && Matches(name, entry)))
            && (IsTidy(before) && NoStrayName(before, name) ==> (found.Some? <==> fits && IsFindable(name)))
            && (IsTidy(before) && !Matches(other, entry) ==> Lookup(Listing(after), other) == Lookup(Listing(before), other))
  {
    var entry := NewEntry(ScanFrom(START, before), name, attr, first);
    NewEntryMatches(ScanFrom(START, before), name, attr, first);
    if fits {
      if Matches(name, entry) {
        FoundBehind(Listing(before), entry, Listing(after), name);
      } else {
        NotFoundBehind(Listing(before), entry, name);
      }
      if IsTidy(before) && !Matches(other, entry) {
        NotFoundBehind(Listing(before), entry, other);
      }
    }
  }

  lemma NewEntryFields(t: Scanner, name: Name, attr: Byte, first: nat, e: DirEntry)
    requires first < 0x1_0000_0000 && e == NewEntry(t, name, attr, first)
    ensures e.short == ShortFor(name) && e.attr == attr && e.firstCluster == first && e.size == 0
    ensures IsLongName(name) ==> e.longName == Some(First(name, LFN_LIMIT))
    ensures !IsLongName(name) && t.checksum == -1 ==> e.longName == None
  {
    SfnSlotFields(t, ShortFor(name), attr, first);
  }

  /** In a directory that had room for it, every name of nine to 247 characters, and every shorter one with a
      lower-case letter, is found after its creation, in full. */
  lemma OrdinaryNamesFound(before: seq<Slot>, after: seq<Slot>, name: Name, attr: Byte, first: nat)
    requires first < 0x1_0000_0000 && CreatedIn(before, after, true, name, attr, first)
    requires IsAscii(name) && Lookup(Listing(before), name) == None
    requires 9 <= |name| <= 247 || (|name| <= 247 && HasLower(name))
    ensures Lookup(Listing(after), name).Some? && Lookup(Listing(after), name).value.longName == Some(name)
  {
    CreatedLookups(before, after, true, name, attr, first, name);
    FindableNames(name);
    LongNames(name);
  }

  /** What a lookup of the created name reports: the kind asked for, the first cluster and no bytes yet. The name is
      the created one cut at 127 characters if long-name slots were stored, and else its lower-case form. */
  lemma CreatedNode(before: seq<Slot>, after: seq<Slot>, name: Name, attr: Byte, first: nat)
    requires first < 0x1_0000_0000 && CreatedIn(before, after, true, name, attr, first)
    requires IsAscii(name) && 1 <= |name| <= 255 && IsFindable(name) && Lookup(Listing(before), name) == None
    ensures var found := Lookup(Listing(after), name);
            && found.Some? && |found.value.short| == 11
            && InfoOf(found.value).firstCluster == first && InfoOf(found.value).size == 0
            && (attr == 0x10 ==> InfoOf(found.value).isDirectory) && (attr == 0x20 ==> !InfoOf(found.value).isDirectory)
            && (|name| > 8 || HasLower(name) ==> InfoOf(found.value).name == if |name| <= 127 then name else name[..127])
            && (|name| <= 8 && !HasLower(name) && NoStrayName(before, name) ==> InfoOf(found.value).name == Lowers(name))
  {
    var t := ScanFrom(START, before);
    var e := NewEntry(t, name, attr, first);
    CreatedLookups(before, after, true, name, attr, first, name);
    NewEntryFields(t, name, attr, first, e);
    KindShown(e);
    LongNames(name);
    if IsLongName(name) {
      LongShown(e, name);
    } else if t.checksum == -1 {
      ShortShown(e, name);
    }
  }

  /** A creation in a directory that had room for it. */
  datatype Creation = Creation(name: Name, attr: Byte, first: nat)

  ghost predicate IsCreation(before: seq<Slot>, after: seq<Slot>, c: Creation)
  {
    && c.first < 0x1_0000_0000 && IsAscii(c.name) && 1 <= |c.name| <= 255 && Lookup(Listing(before), c.name) == None
    && CreatedIn(before, after, true, c.name, c.attr, c.first)
  }

  /** The slots of a directory over a run of such creations. */
  ghost predicate CreationRun(states: seq<seq<Slot>>, created: seq<Creation>)
  {
    |states| == |created| + 1 && forall i | 0 <= i < |created| :: IsCreation(states[i], states[i + 1], created[i])
  }

  /** The entry that creation `j` of the run made. */
  ghost function MadeBy(states: seq<seq<Slot>>, created: seq<Creation>, j: nat): DirEntry
    requires CreationRun(states, created) && j < |created|
  {
    assert IsCreation(states[j], states[j + 1], created[j]);
    NewEntry(ScanFrom(START, states[j]), created[j].name, created[j].attr, created[j].first)
  }

  /** The entries of the creations, in order. */
  ghost function Made(states: seq<seq<Slot>>, created: seq<Creation>, k: nat): (made: seq<DirEntry>)
    requires CreationRun(states, created) && k <= |created|
    ensures |made| == k && forall j: nat | j < k :: made[j] == MadeBy(states, created, j)
  {
    if k == 0 then [] else Made(states, created, k - 1) + [MadeBy(states, created, k - 1)]
  }

  /** What one creation does, in terms of the listing alone. */
  ghost predicate Appends(before: seq<Slot>, after: seq<Slot>, e: DirEntry)
  {
    && Listing(before) <= Listing(after)
    && (IsTidy(before) ==> IsTidy(after) && ScanFrom(START, after).checksum == -1 && Listing(after) == Listing(before) + [e])
  }

  ghost predicate AppendRun(states: seq<seq<Slot>>, made: seq<DirEntry>)
  {
    |states| == |made| + 1 && forall i | 0 <= i < |made| :: Appends(states[i], states[i + 1], made[i])
  }

  lemma CreationAppends(before: seq<Slot>, after: seq<Slot>, c: Creation)
    requires IsCreation(before, after, c)
    ensures Appends(before, after, NewEntry(ScanFrom(START, before), c.name, c.attr, c.first))
  {
    var entry := NewEntry(ScanFrom(START, before), c.name, c.attr, c.first);
    assert Listing(before) <= Listing(before) + [entry] <= Listing(after);
  }

  lemma RunAppends(states: seq<seq<Slot>>, created: seq<Creation>)
    requires CreationRun(states, created)
    ensures AppendRun(states, Made(states, created, |created|))
  {
    forall i | 0 <= i < |created|
      ensures Appends(states[i], states[i + 1], Made(states, created, |created|)[i])
    {
      CreationAppends(states[i], states[i + 1], created[i]);
    }
  }

  lemma {:induction false} AppendedLists(states: seq<seq<Slot>>, made: seq<DirEntry>, k: nat)
    requires AppendRun(states, made) && IsTidy(states[0]) && k <= |made|
    ensures IsTidy(states[k]) && (k > 0 ==> ScanFrom(START, states[k]).checksum == -1)
    ensures Listing(states[k]) == Listing(states[0]) + made[..k]
  {
    if k > 0 {
      AppendedLists(states, made, k - 1);
      assert Appends(states[k - 1], states[k - 1 + 1], made[k - 1]);
      Regroup(Listing(states[0]), made[..k - 1], [made[k - 1]]);
      assert made[..k] == made[..k - 1] + [made[k - 1]];
    }
  }

  lemma {:induction false} ListingGrows(states: seq<seq<Slot>>, made: seq<DirEntry>, i: nat, k: nat)
    requires AppendRun(states, made) && i <= k <= |made|
    ensures Listing(states[i]) <= Listing(states[k])
    decreases k
  {
    if i < k {
      ListingGrows(states, made, i, k - 1);
      assert Appends(states[k - 1], states[k - 1 + 1], made[k - 1]);
    }
  }

  /** Over a run of creations that each had room, a directory that was tidy stays tidy, and its listing is what it was
      with the new entries behind, in the order of their creation. */
  lemma RunLists(states: seq<seq<Slot>>, created: seq<Creation>)
    requires CreationRun(states, created) && IsTidy(states[0])
    ensures var n := |created|;
            && IsTidy(states[n]) && (n > 0 ==> ScanFrom(START, states[n]).checksum == -1)
            && Listing(states[n]) == Listing(states[0]) + Made(states, created, n)
  {
    var made := Made(states, created, |created|);
    RunAppends(states, created);
    AppendedLists(states, made, |created|);
    assert made[..|created|] == made;
  }

  /** A name that is found at one point of the run is found from then on, as the same entry. */
  lemma NamesKept(states: seq<seq<Slot>>, created: seq<Creation>, i: nat, k: nat, name: Name)
    requires CreationRun(states, created) && i <= k <= |created| && Lookup(Listing(states[i]), name).Some?
    ensures Lookup(Listing(states[k]), name) == Lookup(Listing(states[i]), name)
  {
    RunAppends(states, created);
    ListingGrows(states, Made(states, created, |created|), i, k);
    LookupInPrefix(Listing(states[i]), Listing(states[k]), name);
  }

  lemma CreationIsFound(before: seq<Slot>, after: seq<Slot>, c: Creation)
    requires IsCreation(before, after, c) && IsFindable(c.name)
    ensures Lookup(Listing(after), c.name) == Some(NewEntry(ScanFrom(START, before), c.name, c.attr, c.first))
  {
    CreatedLookups(before, after, true, c.name, c.attr, c.first, c.name);
  }

  /** So every findable name that was created is found to the end of the run, as the entry that was made for it. */
  lemma RunKeepsNames(states: seq<seq<Slot>>, created: seq<Creation>, j: nat, k: nat)
    requires CreationRun(states, created) && j < k <= |created| && IsFindable(created[j].name)
    ensures Lookup(Listing(states[k]), created[j].name) == Some(MadeBy(states, created, j))
  {
    CreationIsFound(states[j], states[j + 1], created[j]);
    NamesKept(states, created, j + 1, k, created[j].name);
  }

  /** One-letter names, "A" to "O". */
  function Letter(j: nat): (name: Name)
    requires j < 15
    ensures |name| == 1 && IsAscii(name) && !IsLongName(name)
  {
    [0x41 + j]
  }

  function LetterSlot(j: nat): Slot
    requires j < 15
  {
    SfnSlot(FatName(Letter(j)), ATTR_ARCHIVE, 0)
  }

  /** A cluster of 512 bytes, the smallest there is: 15 slots are taken, one is left. */
  function CrampedCluster(): (bytes: seq<Byte>)
    ensures |bytes| == 512
  {
    seq(512, i requires 0 <= i < 512 => if i < 480 then LetterSlot(i / 32)[i % 32] else 0)
  }

  lemma CrampedSlots()
    ensures var slots := SlotsOf(CrampedCluster());
            |slots| == 16 && IsEnd(slots[15]) && forall j: nat | j < 15 :: slots[j] == LetterSlot(j)
  {
    var bytes := CrampedCluster();
    forall j: nat | j < 15
      ensures SlotsOf(bytes)[j] == LetterSlot(j)
    {
      assert SlotsOf(bytes)[j] == bytes[32 * j..32 * j + 32];
      forall i: nat | i < 32
        ensures bytes[32 * j + i] == LetterSlot(j)[i]
      {
        assert (32 * j + i) / 32 == j && (32 * j + i) % 32 == i;
      }
    }
  }

  /** The new name, "z". */
  const LAST_LETTER: Name := [0x7A]

  /** The taken slots list the letters, and none of them answers to "z". */
  lemma {:induction false} LettersHideName(slots: seq<Slot>)
    requires |slots| <= 15 && forall j: nat | j < |slots| :: slots[j] == LetterSlot(j)
    ensures var t := ScanFrom(START, slots);
            !t.ended && |t.buf| == 256 && t.checksum == -1 && Lookup(t.entries, LAST_LETTER) == None
  {
    if slots != [] {
      var j: nat := |slots| - 1;
      var t, entry := ScanFrom(START, slots[..j]), NewEntry(ScanFrom(START, slots[..j]), Letter(j), ATTR_ARCHIVE, 0);
      LettersHideName(slots[..j]);
      EncodeThenScan(t, Letter(j), ATTR_ARCHIVE, 0);
      assert Encode(Letter(j), ATTR_ARCHIVE, 0) == [LetterSlot(j)];
      ScanOne(t, LetterSlot(j));
      LetterDiffers(t, j);
      NotFoundBehind(t.entries, entry, LAST_LETTER);
    }
  }

  lemma LetterDiffers(t: Scanner, j: nat)
    requires j < 15 && t.checksum == -1
    ensures !Matches(LAST_LETTER, NewEntry(t, Letter(j), ATTR_ARCHIVE, 0))
  {
    SfnSlotFields(t, FatName(Letter(j)), ATTR_ARCHIVE, 0);
    BeforeAbsent(Letter(j), DOT);
    assert IsProperShortName(Letter(j));
    ShortNameRoundTrip(Letter(j));
    assert Uppers(LAST_LETTER)[0] == 0x5A && Uppers(Letter(j))[0] == 0x41 + j;
  }

  /** What the silent failure does: the slots lie in a new cluster behind the end mark. */
  lemma CrampedCreation(before: seq<Slot>, roomy: seq<Slot>)
    requires before == SlotsOf(CrampedCluster()) && roomy == before + SlotsOf(Zeros(512))
    ensures IsFindable(LAST_LETTER) && |Encode(LAST_LETTER, ATTR_ARCHIVE, 0)| == 2 && Lookup(Listing(before), LAST_LETTER) == None
    ensures Listing(Inserted(roomy, 16, Encode(LAST_LETTER, ATTR_ARCHIVE, 0))) == Listing(before)
  {
    CrampedSlots();
    assert 0x61 <= LAST_LETTER[0] <= 0x7A && IsLongName(LAST_LETTER) && SlotCount(LAST_LETTER) == 1;
    assert roomy[..16] == before && IsEnd(roomy[..16][15]);
    LettersHideName(before[..15]);
    ListedBeforeEnd(before, 15);
    CreationListed(before, roomy, 16, LAST_LETTER, ATTR_ARCHIVE, 0, false);
  }

  /** A directory where creation fails silently: one end mark is left in its cluster of 512 bytes, and the name "z"
      needs two slots. The entry goes into a new cluster behind the end mark, and no lookup finds it. */
  lemma CrampedDirectoryLosesNames()
    ensures var data := [[], [], CrampedCluster()];
            var before := SlotsAlong(data, [2]);
            var roomy, added := before + SlotsOf(Zeros(512)), Encode(LAST_LETTER, ATTR_ARCHIVE, 0);
            && |added| == 2 && |before| == 16 && |roomy| == 32 && IsTidy(before) && IsFindable(LAST_LETTER)
            && IsFull(data, [2], 2) && !EndFits(data, [2], 2)
            && Lookup(Listing(before), LAST_LETTER) == None && Lookup(Listing(Inserted(roomy, 16, added)), LAST_LETTER) == None
  {
    var data := [[], [], CrampedCluster()];
    assert [2][..0] == [] && SlotsAlong(data, [2]) == SlotsIn(data, 2) == SlotsOf(CrampedCluster());
    CrampedIsFull(data);
    CrampedCreation(SlotsOf(CrampedCluster()), SlotsOf(CrampedCluster()) + SlotsOf(Zeros(512)));
  }

  lemma CrampedIsFull(data: seq<seq<Byte>>)
    requires |data| == 3 && data[2] == CrampedCluster()
    ensures IsTidy(SlotsOf(data[2])) && IsFull(data, [2], 2) && !EndFits(data, [2], 2)
  {
    var slots := SlotsIn(data, 2);
    CrampedSlots();
    forall j: nat | j < 15
      ensures !IsFree(slots[j])
    {
      ShortNameStarts(Letter(j));
      assert LetterSlot(j)[0] == ShortFor(Letter(j))[0];
    }
    forall i: nat
      ensures !IsRun(slots, i, 2)
    {
      assert i + 2 <= 16 ==> !IsFree(slots[i]);
    }
    assert [2][0] == 2 && IsFirstEnd(data, [2], 0, 15);
  }
}
