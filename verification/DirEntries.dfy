/** fat32_create_entry's slots for a new name, and what a later scan makes of them. */
module DirEntries {
  import opened Wrappers
  import opened FatChains
  import opened DirSlots

  /** Names that get long-name slots: longer than 8 characters or with a lower-case letter. */
  predicate IsLongName(name: Name)
  {
    |name| > 8 || exists i :: 0 <= i < |name| && 0x61 <= name[i] <= 0x7A
  }

  predicate HasLower(name: Name)
  {
    exists c | c in name :: 'a' as int <= c <= 'z' as int
  }

  predicate IsAscii(name: Name)
  {
    forall i | 0 <= i < |name| :: 0 < name[i] < 0x80
  }

  function SlotCount(name: Name): nat
  {
    (|name| + 12) / CHARS_PER_SLOT
  }

  /** The 16-bit unit for character `p` of the name: a terminator right behind it, 0xFFFF padding after that. */
  function Unit(name: Name, p: nat): nat
  {
    if p < |name| then (if name[p] < 0x80 then name[p] else 0xFF00 + name[p] as int)
    else if p == |name| then 0
    else 0xFFFF
  }

  /** The order byte of slot `i` of `count`: its number, with bit 6 set on the last one. */
  function OrderByte(i: nat, count: nat): Byte
  {
    var o := i % 256;
    if i == count && o / 64 % 2 == 0 then o + 64 else o
  }

  /** Byte `j` of long-name slot `i`; the 13 units fill bytes 1-10, 14-25 and 28-31, low byte first. */
  function LfnByte(name: Name, i: nat, chksum: Byte, j: nat): Byte
    requires i > 0 && j < 32
  {
    var start := (i - 1) * CHARS_PER_SLOT;
    if j == 0 then OrderByte(i, SlotCount(name))
    else if j == 11 then ATTR_LFN
    else if j == 13 then chksum
    else if j == 12 || j == 26 || j == 27 then 0
    else
      var k := if j < 11 then (j - 1) / 2 else if j < 26 then 5 + (j - 14) / 2 else 11 + (j - 28) / 2;
      var low := if j < 11 then j % 2 == 1 else j % 2 == 0;
      if low then Unit(name, start + k) % 256 else Unit(name, start + k) / 256
  }

  function LfnSlot(name: Name, i: nat, chksum: Byte): (s: Slot)
    requires i > 0
    ensures forall j: nat | j < 32 :: s[j] == LfnByte(name, i, chksum, j)
  {
    seq(32, j requires 0 <= j < 32 => LfnByte(name, i, chksum, j))
  }

  /** The long-name slots from number `i` down to 1. */
  function LfnRun(name: Name, chksum: Byte, i: nat): (run: seq<Slot>)
    ensures |run| == i
  {
    if i == 0 then [] else [LfnSlot(name, i, chksum)] + LfnRun(name, chksum, i - 1)
  }

  function SfnByte(short: Name, attr: Byte, first: nat, j: nat): Byte
    requires |short| == 11 && j < 32
  {
    if j < 11 then short[j]
    else if j == 11 then attr
    else if j == 20 then first / 65536 % 256
    else if j == 21 then first / 16777216 % 256
    else if j == 26 then first % 256
    else if j == 27 then first / 256 % 256
    else 0
  }

  function SfnSlot(short: Name, attr: Byte, first: nat): (s: Slot)
    requires |short| == 11
    ensures forall j: nat | j < 32 :: s[j] == SfnByte(short, attr, first, j)
  {
    seq(32, j requires 0 <= j < 32 => SfnByte(short, attr, first, j))
  }

  function ShortFor(name: Name): (f: Name)
    ensures |f| == 11
  {
    if IsLongName(name) then MakeShortName(name) else FatName(name)
  }

  /** All the slots of a new entry, in directory order. */
  function Encode(name: Name, attr: Byte, first: nat): (slots: seq<Slot>)
    ensures |slots| == 1 + if IsLongName(name) then SlotCount(name) else 0
  {
    (if IsLongName(name) then LfnRun(name, Checksum(ShortFor(name)), SlotCount(name)) else [])
      + [SfnSlot(ShortFor(name), attr, first)]
  }

  /** Where the format keeps the 13 characters of a long-name slot. */
  const UNIT_OFFSETS: seq<nat> := [1, 3, 5, 7, 9, 14, 16, 18, 20, 22, 24, 28, 30]

  lemma UnitOffsets(k: nat)
    requires k < CHARS_PER_SLOT
    ensures UnitOffset(k) == UNIT_OFFSETS[k]
  {
  }

  /** The fixed fields of a long-name slot as the format asks for them: its number (with 0x40 for the one that comes
      first on disk), the attribute 0x0F and the checksum of the short name. */
  lemma LfnHeader(name: Name, i: nat, chksum: Byte)
    requires 1 <= i <= SlotCount(name) <= 20
    ensures var s := LfnSlot(name, i, chksum);
            && s[0] == (if |name| <= 13 * i then 0x40 + i else i)
            && s[11] == 0x0F && s[12] == 0 && s[13] == chksum && s[26] == 0 && s[27] == 0
  {
    var s := LfnSlot(name, i, chksum);
    assert s[0] == LfnByte(name, i, chksum, 0);
    assert s[11] == LfnByte(name, i, chksum, 11) && s[12] == LfnByte(name, i, chksum, 12) && s[13] == LfnByte(name, i, chksum, 13);
    assert s[26] == LfnByte(name, i, chksum, 26) && s[27] == LfnByte(name, i, chksum, 27);
  }

  /** Its 13 characters, each with the low byte first. Behind the name comes one zero, and 0xFFFF fills the rest. */
  lemma LfnUnits(name: Name, i: nat, chksum: Byte, k: nat, p: nat)
    requires IsAscii(name) && 1 <= i <= SlotCount(name) <= 20 && k < CHARS_PER_SLOT && p == 13 * (i - 1) + k
    ensures var s, at := LfnSlot(name, i, chksum), UNIT_OFFSETS[k];
            LittleEndian([s[at], s[at + 1]]) == if p < |name| then name[p] else if p == |name| then 0 else 0xFFFF
  {
    var s, at := LfnSlot(name, i, chksum), UNIT_OFFSETS[k];
    UnitOffsets(k);
    UnitBytes(name, i, chksum, k, p);
    TwoDigits([s[at], s[at + 1]]);
  }

  lemma UnitBytes(name: Name, i: nat, chksum: Byte, k: nat, p: nat)
    requires i > 0 && k < CHARS_PER_SLOT && p == (i - 1) * CHARS_PER_SLOT + k
    ensures var s, at := LfnSlot(name, i, chksum), UnitOffset(k);
            s[at] == Unit(name, p) % 256 && s[at + 1] == Unit(name, p) / 256
  {
    var s, at := LfnSlot(name, i, chksum), UnitOffset(k);
    assert s[at] == LfnByte(name, i, chksum, at);
    assert s[at + 1] == LfnByte(name, i, chksum, at + 1);
  }

  /** A short-name slot: the 11 characters, the attribute, the first cluster in two halves, and zero elsewhere. */
  lemma SfnLayout(short: Name, attr: Byte, first: nat, j: nat)
    requires |short| == 11 && first < 0x1_0000_0000 && 12 <= j < 32
    ensures var s := SfnSlot(short, attr, first);
            && s[..11] == short && s[11] == attr
            && LittleEndian(s[26..28] + s[20..22]) == first
            && (j != 20 && j != 21 && j != 26 && j != 27 ==> s[j] == 0)
  {
    SfnSlotFields(START, short, attr, first);
    EntryFields(START, SfnSlot(short, attr, first));
  }

  /** What is stored under a name: one slot, and before it a long-name slot for every 13 characters begun if the name
      has more than eight characters or a lower-case letter. */
  lemma SlotsTaken(name: Name, attr: Byte, first: nat)
    ensures |name| > 8 || HasLower(name) ==>
              var n := |Encode(name, attr, first)| - 1; n >= 0 && 13 * (n - 1) < |name| <= 13 * n
    ensures |name| <= 8 && !HasLower(name) ==> |Encode(name, attr, first)| == 1
  {
    LongNames(name);
  }

  lemma LongNames(name: Name)
    ensures IsLongName(name) <==> |name| > 8 || HasLower(name)
  {
    assert forall i | 0 <= i < |name| :: name[i] in name;
  }

  lemma {:induction false} LfnRunAt(name: Name, chksum: Byte, count: nat, j: nat)
    requires j < count
    ensures LfnRun(name, chksum, count)[j] == LfnSlot(name, count - j, chksum)
  {
    if j > 0 {
      LfnRunAt(name, chksum, count - 1, j - 1);
    }
  }

  lemma EncodedAt(name: Name, attr: Byte, first: nat, chksum: Byte, count: nat, j: nat)
    requires count == (if IsLongName(name) then SlotCount(name) else 0) && chksum == Checksum(ShortFor(name)) && j <= count
    ensures |Encode(name, attr, first)| == count + 1
    ensures Encode(name, attr, first)[j] ==
            if j < count then LfnSlot(name, count - j, chksum) else SfnSlot(ShortFor(name), attr, first)
  {
    if j < count {
      LfnRunAt(name, chksum, count, j);
    }
  }

  /** The name buffer once the slots from the last one down to number `i` have been read. */
  function Decoded(name: Name, i: nat): (buf: seq<Byte>)
    requires i > 0
    ensures |buf| == 256
  {
    seq(256, p requires 0 <= p < 256 => DecodedByte(name, i, p))
  }

  function DecodedByte(name: Name, i: nat, p: nat): Byte
    requires i > 0
  {
    if p < (i - 1) * CHARS_PER_SLOT || p >= LFN_LIMIT || p >= SlotCount(name) * CHARS_PER_SLOT then 0
    else Shown(name, p)
  }

  /** What a stored character `p` of the name is decoded to. */
  function Shown(name: Name, p: nat): Byte
  {
    if p < |name| then (if name[p] < 0x80 then name[p] else QUESTION)
    else if p == |name| then 0
    else QUESTION
  }

  lemma LfnCharDecodes(name: Name, i: nat, chksum: Byte, k: nat)
    requires i > 0 && k < CHARS_PER_SLOT
    ensures LfnChar(LfnSlot(name, i, chksum), k) == Shown(name, (i - 1) * CHARS_PER_SLOT + k)
  {
    UnitBytes(name, i, chksum, k, (i - 1) * CHARS_PER_SLOT + k);
  }

  /** Place `p` of the buffer is one that slot `i` fills in. */
  predicate InSlot(i: nat, p: nat)
  {
    i <= 19 && (i - 1) * CHARS_PER_SLOT <= p < i * CHARS_PER_SLOT
  }

  lemma DecodedByteStep(name: Name, i: nat, p: nat)
    requires 1 <= i <= SlotCount(name) <= 20
    ensures DecodedByte(name, i, p) ==
            if InSlot(i, p) then Shown(name, p) else if i == SlotCount(name) then 0 else DecodedByte(name, i + 1, p)
  {
  }

  lemma DecodedStepAt(name: Name, chksum: Byte, i: nat, before: seq<Byte>, after: seq<Byte>, p: nat)
    requires 1 <= i <= SlotCount(name) <= 20 && p < 256
    requires before == if i == SlotCount(name) then Zeros(256) else Decoded(name, i + 1)
    requires after == if i <= 19 then Overwrite(before, (i - 1) * CHARS_PER_SLOT, Chars(LfnSlot(name, i, chksum))) else before
    ensures Decoded(name, i)[p] == after[p]
  {
    DecodedByteStep(name, i, p);
    assert before[p] == if i == SlotCount(name) then 0 else DecodedByte(name, i + 1, p);
    if InSlot(i, p) {
      LfnCharDecodes(name, i, chksum, p - (i - 1) * CHARS_PER_SLOT);
      assert after[p] == Chars(LfnSlot(name, i, chksum))[p - (i - 1) * CHARS_PER_SLOT];
    } else {
      assert after[p] == before[p];
    }
  }

  /** The buffer before slot `i`, with that slot's characters laid over it, is the buffer after it. */
  lemma DecodedStep(name: Name, chksum: Byte, i: nat)
    requires 1 <= i <= SlotCount(name) <= 20
    ensures var before := if i == SlotCount(name) then Zeros(256) else Decoded(name, i + 1);
            Decoded(name, i) == if i <= 19 then Overwrite(before, (i - 1) * CHARS_PER_SLOT, Chars(LfnSlot(name, i, chksum))) else before
  {
    var before := if i == SlotCount(name) then Zeros(256) else Decoded(name, i + 1);
    var after := if i <= 19 then Overwrite(before, (i - 1) * CHARS_PER_SLOT, Chars(LfnSlot(name, i, chksum))) else before;
    forall p: nat | p < 256
      ensures Decoded(name, i)[p] == after[p]
    {
      DecodedStepAt(name, chksum, i, before, after, p);
    }
  }

  /** Reading slot `i` after the slots above it adds its 13 characters, unless it lies past the buffer's limit. */
  lemma LfnSlotDecodes(name: Name, chksum: Byte, i: nat, t: Scanner)
    requires 1 <= i <= SlotCount(name) <= 20 && !t.ended && |t.buf| == 256
    requires i < SlotCount(name) ==> t.buf == Decoded(name, i + 1) && t.checksum == chksum
    ensures ScanSlot(t, LfnSlot(name, i, chksum)) == t.(buf := Decoded(name, i), checksum := chksum)
  {
    var s := LfnSlot(name, i, chksum);
    assert s[0] == OrderByte(i, SlotCount(name)) && s[11] == ATTR_LFN && s[13] == chksum;
    OrderFields(i, SlotCount(name));
    LfnSlotIsTaken(t, s);
    DecodedStep(name, chksum, i);
  }

  lemma OrderFields(i: nat, count: nat)
    requires 1 <= i <= count <= 20
    ensures var o := OrderByte(i, count); o != 0 && o % 64 == i && (o / 64 % 2 == 1 <==> i == count)
  {
  }

  lemma LfnSlotIsTaken(t: Scanner, s: Slot)
    requires !t.ended && s[0] != 0 && s[11] == ATTR_LFN
    ensures ScanSlot(t, s) == TakeLfn(t, s)
  {
  }

  lemma {:induction false} LfnRunDecodes(name: Name, chksum: Byte, i: nat, t: Scanner)
    requires 1 <= i <= SlotCount(name) <= 20 && !t.ended && |t.buf| == 256
    requires i < SlotCount(name) ==> t.buf == Decoded(name, i + 1) && t.checksum == chksum
    ensures ScanFrom(t, LfnRun(name, chksum, i)) == t.(buf := Decoded(name, 1), checksum := chksum)
  {
    LfnSlotDecodes(name, chksum, i, t);
    var next := ScanSlot(t, LfnSlot(name, i, chksum));
    ScanOne(t, LfnSlot(name, i, chksum));
    ScanSplit(t, [LfnSlot(name, i, chksum)], LfnRun(name, chksum, i - 1));
    if i > 1 {
      LfnRunDecodes(name, chksum, i - 1, next);
    }
  }

  lemma ScanOne(t: Scanner, s: Slot)
    ensures ScanFrom(t, [s]) == ScanSlot(t, s)
  {
    assert [s][..0] == [];
  }

  lemma {:induction false} CStringStops(buf: seq<Byte>, name: Name)
    requires |name| < |buf| && buf[..|name|] == name && buf[|name|] == 0 && 0 !in name
    ensures CString(buf) == name
  {
    if name != [] {
      assert buf[0] == name[0] && name[0] in name;
      CStringStops(buf[1..], name[1..]);
    }
  }

  /** The buffer then holds the name, cut at 247 characters. */
  lemma DecodedName(name: Name)
    requires IsAscii(name) && 1 <= |name| <= 255
    ensures CString(Decoded(name, 1)) == First(name, LFN_LIMIT) && Decoded(name, 1)[0] != 0
  {
    CStringStops(Decoded(name, 1), First(name, LFN_LIMIT));
  }

  /** A 32-bit number is the sum of its four bytes. */
  lemma FourBytes(n: nat)
    requires n < 0x1_0000_0000
    ensures (n / 65536 % 256 + 256 * (n / 16777216 % 256)) * 65536 + (n % 256 + 256 * (n / 256 % 256)) == n
  {
    var n1 := n / 256;
    var n2 := n1 / 256;
    var n3 := n2 / 256;
    assert n / 65536 == n2 && n / 16777216 == n3 && n3 < 256;
  }

  lemma SfnSlotFields(t: Scanner, short: Name, attr: Byte, first: nat)
    requires |short| == 11 && first < 0x1_0000_0000
    ensures SfnSlot(short, attr, first)[..11] == short && SfnSlot(short, attr, first)[11] == attr
    ensures EntryOf(t, SfnSlot(short, attr, first))
         == EntryOf(t, SfnSlot(short, attr, first)).(short := short, attr := attr, firstCluster := first, size := 0)
  {
    var s := SfnSlot(short, attr, first);
    assert s[..11] == short;
    assert U16(s, 20) == SfnByte(short, attr, first, 20) as int + 256 * (SfnByte(short, attr, first, 21) as int);
    assert U16(s, 26) == SfnByte(short, attr, first, 26) as int + 256 * (SfnByte(short, attr, first, 27) as int);
    assert U16(s, 28) == 0 && U16(s, 30) == 0;
    FourBytes(first);
  }

  lemma NoSpacesMembers(s: Name)
    ensures forall c | c in NoSpaces(s) :: c in s
  {
  }

  /** The short name never starts with the end mark. */
  lemma ShortNameStarts(name: Name)
    requires IsAscii(name)
    ensures ShortFor(name)[0] != 0
  {
    NoSpacesMembers(Before(name, DOT));
    var made := NoSpaces(Before(name, DOT));
    assert made != [] ==> made[0] in made;
    assert forall c | c in name :: c != 0;
  }

  /** The entry that a scan standing at `t` finds in the slots of a new name. */
  function NewEntry(t: Scanner, name: Name, attr: Byte, first: nat): DirEntry
    requires first < 0x1_0000_0000
  {
    if IsLongName(name) then DirEntry(Some(First(name, LFN_LIMIT)), ShortFor(name), attr, first, 0)
    else EntryOf(t, SfnSlot(ShortFor(name), attr, first))
  }

  lemma SfnIsLive(name: Name, attr: Byte, first: nat)
    requires IsAscii(name) && (attr == ATTR_DIRECTORY || attr == ATTR_ARCHIVE)
    ensures IsLive(SfnSlot(ShortFor(name), attr, first))
  {
    ShortNameStarts(name);
    var short := ShortFor(name);
    SlotIsLive(SfnSlot(short, attr, first), SfnByte(short, attr, first, 0), SfnByte(short, attr, first, 11));
  }

  lemma SlotIsLive(s: Slot, start: Byte, attr: Byte)
    requires s[0] == start && s[11] == attr && start != 0 && (attr == ATTR_DIRECTORY || attr == ATTR_ARCHIVE)
    ensures IsLive(s)
  {
  }

  lemma LongEntry(t: Scanner, u: Scanner, name: Name, attr: Byte, first: nat)
    requires IsLongName(name) && IsAscii(name) && 1 <= |name| <= 255 && first < 0x1_0000_0000
    requires u.buf == Decoded(name, 1) && u.checksum == Checksum(ShortFor(name)) as int
    ensures EntryOf(u, SfnSlot(ShortFor(name), attr, first)) == NewEntry(t, name, attr, first)
  {
    SfnSlotFields(u, ShortFor(name), attr, first);
    DecodedName(name);
  }

  /** Encoding, then scanning: one new entry with the long name (up to 247 characters), the short name and
      the fields, whatever stood before it. */
  lemma EncodeThenScan(t: Scanner, name: Name, attr: Byte, first: nat)
    requires IsAscii(name) && 1 <= |name| <= 255 && first < 0x1_0000_0000
    requires attr == ATTR_DIRECTORY || attr == ATTR_ARCHIVE
    requires !t.ended && |t.buf| == 256
    ensures ScanFrom(t, Encode(name, attr, first)) == Cleared(t.(entries := t.entries + [NewEntry(t, name, attr, first)]))
  {
    var sfn := SfnSlot(ShortFor(name), attr, first);
    if IsLongName(name) {
      var chksum := Checksum(ShortFor(name));
      LfnRunDecodes(name, chksum, SlotCount(name), t);
      var u := ScanFrom(t, LfnRun(name, chksum, SlotCount(name)));
      ScanSplit(t, LfnRun(name, chksum, SlotCount(name)), [sfn]);
      ScanOne(u, sfn);
      SfnIsLive(name, attr, first);
      LiveSlotIsListed(u, sfn);
      LongEntry(t, u, name, attr, first);
    } else {
      assert Encode(name, attr, first) == [sfn];
      ScanOne(t, sfn);
      SfnIsLive(name, attr, first);
      LiveSlotIsListed(t, sfn);
    }
  }

  /** The names that a lookup can find again. */
  predicate IsFindable(name: Name)
  {
    if IsLongName(name) then |name| <= LFN_LIMIT else IsProperShortName(name)
  }

  /** The new entry answers to its name if, and (when no stray long name precedes it) only if, the name is findable. */
  lemma NewEntryMatches(t: Scanner, name: Name, attr: Byte, first: nat)
    requires IsAscii(name) && 1 <= |name| <= 255 && first < 0x1_0000_0000
    ensures IsFindable(name) ==> Matches(name, NewEntry(t, name, attr, first))
    ensures (IsLongName(name) || t.checksum == -1) && Matches(name, NewEntry(t, name, attr, first)) ==> IsFindable(name)
    ensures Matches(NormalName(ShortFor(name)), NewEntry(t, name, attr, first))
  {
    SfnSlotFields(t, ShortFor(name), attr, first);
    ShortNameRoundTrip(name);
  }

  /** Which names those are: up to 247 characters if there are more than eight or one is a lower-case letter;
      otherwise no space, and behind the first dot, if there is one, between one and three characters. */
  lemma FindableNames(name: Name)
    requires IsAscii(name)
    ensures |name| > 8 || HasLower(name) ==> (IsFindable(name) <==> |name| <= 247)
    ensures |name| <= 8 && !HasLower(name) ==>
              (IsFindable(name) <==>
                ' ' as int !in name && (forall d | 0 <= d < |name| && '.' as int !in name[..d] :: name[d] == '.' as int ==> 1 <= |name| - d - 1 <= 3))
  {
    LongNames(name);
    assert forall c | c in name :: c != 0;
    if |name| <= 8 {
      FirstDot(name);
    }
  }

  /** The first dot ends the part before it, and what is behind it is the extension. */
  lemma FirstDot(name: Name)
    ensures DOT in name ==> var d := |Before(name, DOT)|; d < |name| && DOT !in name[..d] && name[d] == DOT
    ensures forall d | 0 <= d < |name| && DOT !in name[..d] && name[d] == DOT :: DOT in name && |Extension(name)| == |name| - d - 1
  {
    if DOT in name {
      BeforePresent(name, DOT);
      assert name[..|Before(name, DOT)|] == Before(name, DOT);
    }
    forall d | 0 <= d < |name| && DOT !in name[..d] && name[d] == DOT
      ensures DOT in name && |Extension(name)| == |name| - d - 1
    {
      BeforeUnique(name, DOT, name[..d]);
    }
  }

  /** The directory after the slots of a new entry are put at position `p`. */
  function Inserted(slots: seq<Slot>, p: nat, added: seq<Slot>): seq<Slot>
    requires p + |added| <= |slots|
  {
    slots[..p] + added + slots[p + |added|..]
  }

  /** Nothing behind the new slots comes to light: they end the directory or an end mark follows. */
  predicate EndsAt(slots: seq<Slot>, p: nat)
  {
    p == |slots| || (p < |slots| && IsEnd(slots[p]))
  }

  lemma EndHidesRest(t: Scanner, slots: seq<Slot>)
    requires EndsAt(slots, 0)
    ensures ScanFrom(t, slots).entries == t.entries
    ensures ScanFrom(t, slots).buf == t.buf && ScanFrom(t, slots).checksum == t.checksum
  {
    if slots != [] {
      assert slots == [slots[0]] + slots[1..];
      ScanSplit(t, [slots[0]], slots[1..]);
      ScanOne(t, slots[0]);
      ScanEnded(ScanSlot(t, slots[0]), slots[1..]);
    }
  }

  lemma {:induction false} ScanBuffer(t: Scanner, slots: seq<Slot>)
    requires |t.buf| == 256
    ensures |ScanFrom(t, slots).buf| == 256
  {
    if slots != [] {
      ScanBuffer(t, slots[..|slots| - 1]);
    }
  }

  lemma ListedBeforeEnd(slots: seq<Slot>, p: nat)
    requires p < |slots| && IsEnd(slots[p])
    ensures Listing(slots) == ScanFrom(START, slots[..p]).entries
  {
    assert slots == slots[..p] + slots[p..];
    ScanSplit(START, slots[..p], slots[p..]);
    EndHidesRest(ScanFrom(START, slots[..p]), slots[p..]);
  }

  lemma ScanInserted(slots: seq<Slot>, p: nat, added: seq<Slot>)
    requires p + |added| <= |slots|
    ensures ScanFrom(START, Inserted(slots, p, added))
         == ScanFrom(ScanFrom(ScanFrom(START, slots[..p]), added), slots[p + |added|..])
  {
    var rest := slots[p + |added|..];
    assert Inserted(slots, p, added) == slots[..p] + (added + rest);
    ScanSplit(START, slots[..p], added + rest);
    ScanSplit(ScanFrom(START, slots[..p]), added, rest);
  }

  lemma InsertedListing(slots: seq<Slot>, p: nat, added: seq<Slot>, entry: DirEntry)
    requires p + |added| <= |slots|
    requires var t := ScanFrom(START, slots[..p]);
             t.ended || ScanFrom(t, added) == Cleared(t.(entries := t.entries + [entry]))
    ensures var t := ScanFrom(START, slots[..p]);
            var created := Listing(Inserted(slots, p, added));
            && (t.ended ==> created == t.entries)
            && (!t.ended ==> t.entries + [entry] <= created)
            && (!t.ended && EndsAt(slots, p + |added|) ==>
                  created == t.entries + [entry] && ScanFrom(START, Inserted(slots, p, added)).checksum == -1)
  {
    var t, rest := ScanFrom(START, slots[..p]), slots[p + |added|..];
    ScanInserted(slots, p, added);
    if t.ended {
      ScanEnded(t, added);
      ScanEnded(t, rest);
    } else {
      ScanAdds(ScanFrom(t, added), rest);
      if EndsAt(slots, p + |added|) {
        EndHidesRest(ScanFrom(t, added), rest);
      }
    }
  }

  /** The listing after an entry was created in free slots at `p`. */
  lemma CreatedListing(slots: seq<Slot>, p: nat, name: Name, attr: Byte, first: nat)
    requires IsAscii(name) && 1 <= |name| <= 255 && first < 0x1_0000_0000
    requires attr == ATTR_DIRECTORY || attr == ATTR_ARCHIVE
    requires p + |Encode(name, attr, first)| <= |slots| && IsEnd(slots[p])
    ensures var t := ScanFrom(START, slots[..p]);
            var created := Listing(Inserted(slots, p, Encode(name, attr, first)));
            && Listing(slots) == t.entries
            && (t.ended ==> created == Listing(slots))
            && (!t.ended ==> Listing(slots) + [NewEntry(t, name, attr, first)] <= created)
            && (!t.ended && EndsAt(slots, p + |Encode(name, attr, first)|) ==>
                  && created == Listing(slots) + [NewEntry(t, name, attr, first)]
                  && ScanFrom(START, Inserted(slots, p, Encode(name, attr, first))).checksum == -1)
  {
    var t := ScanFrom(START, slots[..p]);
    ScanBuffer(START, slots[..p]);
    if !t.ended {
      EncodeThenScan(t, name, attr, first);
    }
    ListedBeforeEnd(slots, p);
    InsertedListing(slots, p, Encode(name, attr, first), NewEntry(t, name, attr, first));
  }

  lemma FoundBehind(known: seq<DirEntry>, entry: DirEntry, created: seq<DirEntry>, name: Name)
    requires Lookup(known, name) == None && Matches(name, entry) && known + [entry] <= created
    ensures Lookup(created, name) == Some(entry)
  {
    var rest := [entry] + created[|known| + 1..];
    assert created == known + rest;
    LookupSplit(known, rest, name);
  }

  lemma NotFoundBehind(known: seq<DirEntry>, entry: DirEntry, other: Name)
    requires !Matches(other, entry)
    ensures Lookup(known + [entry], other) == Lookup(known, other)
  {
    LookupSplit(known, [entry], other);
    assert [entry][1..] == [];
  }
}
