/** FAT directories as sequences of 32-byte slots: names, long-name slots and the scan that lists them. */
module DirSlots {
  import opened Wrappers
  import opened FatChains

  const ATTR_DIRECTORY: Byte := 0x10
  const ATTR_ARCHIVE: Byte := 0x20
  const ATTR_LFN: Byte := 0x0F
  const SPACE: Byte := 0x20
  const DOT: Byte := 0x2E
  const QUESTION: Byte := 0x3F
  const CHARS_PER_SLOT: nat := 13
  const LFN_LIMIT: nat := 247

  type Name = seq<Byte>

  type Slot = s: seq<Byte> | |s| == 32 witness seq(32, _ => 0)

  function Zeros(n: nat): (z: seq<Byte>)
    ensures |z| == n && forall i | 0 <= i < n :: z[i] == 0
  {
    seq(n, _ => 0)
  }

  /** `char` is signed on x86-64. */
  function SignedChar(b: Byte): int
  {
    if b < 128 then b else b - 256
  }

  predicate IsEnd(s: Slot)
  {
    s[0] == 0
  }

  /** The test for a deleted slot compares a signed char with 229. */
  predicate LooksDeleted(s: Slot)
  {
    SignedChar(s[0]) == 0xE5
  }

  predicate IsLfn(s: Slot)
  {
    s[11] % 16 == 15
  }

  predicate IsVolumeId(s: Slot)
  {
    s[11] / 8 % 2 == 1
  }

  function U16(s: Slot, i: nat): nat
    requires i < 31
  {
    s[i] as int + 256 * (s[i + 1] as int)
  }

  /** Where the `k`-th of the 13 characters of a long-name slot is stored. */
  function UnitOffset(k: nat): nat
    requires k < CHARS_PER_SLOT
  {
    if k < 5 then 1 + 2 * k else if k < 11 then 14 + 2 * (k - 5) else 28 + 2 * (k - 11)
  }

  function LfnChar(s: Slot, k: nat): Byte
    requires k < CHARS_PER_SLOT
  {
    var unit := U16(s, UnitOffset(k));
    if unit < 0x80 then unit else QUESTION
  }

  /** Rotate right by one and add, modulo 256. */
  function Checksum(short: seq<Byte>): Byte
  {
    if short == [] then 0 else
      var sum := Checksum(short[..|short| - 1]);
      (sum % 2 * 128 + sum / 2 + short[|short| - 1]) % 256
  }

  /** One live entry: its decoded long name, if it has one that its checksum vouches for, and the slot's fields. */
  datatype DirEntry = DirEntry(longName: Option<Name>, short: Name, attr: Byte, firstCluster: nat, size: nat)

  /** What lookup and listing know while they walk the slots. `checksum` is -1 when there is none. */
  datatype Scanner = Scanner(entries: seq<DirEntry>, ended: bool, buf: seq<Byte>, checksum: int)

  function Cleared(t: Scanner): Scanner
  {
    t.(buf := Zeros(256), checksum := -1)
  }

  const START: Scanner := Scanner([], false, Zeros(256), -1)

  /** The C string at the start of a buffer. */
  function CString(buf: seq<Byte>): Name
  {
    Before(buf, 0)
  }

  function Chars(s: Slot): (c: seq<Byte>)
    ensures |c| == CHARS_PER_SLOT && forall k: nat | k < CHARS_PER_SLOT :: c[k] == LfnChar(s, k)
  {
    seq(CHARS_PER_SLOT, k requires 0 <= k < CHARS_PER_SLOT => LfnChar(s, k))
  }

  /** A long-name slot: the one marked 0x40 starts a new name; slots whose position is out of range are ignored. */
  function TakeLfn(t: Scanner, s: Slot): Scanner
  {
    var t' := if s[0] / 64 % 2 == 1 then t.(buf := Zeros(256), checksum := s[13]) else t;
    var idx := (s[0] % 64 - 1) * CHARS_PER_SLOT;
    if 0 <= idx < 242 && |t'.buf| == 256 then t'.(buf := Overwrite(t'.buf, idx, Chars(s))) else t'
  }

  function EntryOf(t: Scanner, s: Slot): DirEntry
  {
    var short := s[..11];
    var vouched := t.buf != [] && t.buf[0] != 0 && Checksum(short) == t.checksum;
    DirEntry(if vouched then Some(CString(t.buf)) else None, short, s[11],
             U16(s, 20) * 65536 + U16(s, 26), U16(s, 28) + 65536 * U16(s, 30))
  }

  function ScanSlot(t: Scanner, s: Slot): Scanner
  {
    if t.ended then t
    else if IsEnd(s) then t.(ended := true)
    else if LooksDeleted(s) then Cleared(t)
    else if IsLfn(s) then TakeLfn(t, s)
    else if IsVolumeId(s) then t.(checksum := -1)
    else Cleared(t.(entries := t.entries + [EntryOf(t, s)]))
  }

  function ScanFrom(t: Scanner, slots: seq<Slot>): Scanner
  {
    if slots == [] then t else ScanSlot(ScanFrom(t, slots[..|slots| - 1]), slots[|slots| - 1])
  }

  /** The live entries of a directory, in order. */
  function Listing(slots: seq<Slot>): seq<DirEntry>
  {
    ScanFrom(START, slots).entries
  }

  /** Slots that stand for an entry. */
  predicate IsLive(s: Slot)
  {
    !IsEnd(s) && !IsLfn(s) && !IsVolumeId(s)
  }

  /** Every such slot is listed, one deleted on another system (first byte 0xE5) like any other. */
  lemma LiveSlotIsListed(t: Scanner, s: Slot)
    requires !t.ended && IsLive(s)
    ensures ScanSlot(t, s) == Cleared(t.(entries := t.entries + [EntryOf(t, s)]))
  {
  }

  /** The checksum takes in one byte by rotating its eight bits to the right and adding. */
  lemma ChecksumRotates(short: seq<Byte>, c: Byte, sum: bv8)
    requires sum as int == Checksum(short)
    ensures Checksum([]) == 0 && Checksum(short + [c]) == (sum.RotateRight(1) as int + c) % 256
  {
    RotatedBits(sum);
    assert (short + [c])[..|short|] == short;
  }

  lemma RotatedBits(b: bv8)
    ensures b.RotateRight(1) as int == b as int % 2 * 128 + b as int / 2
  {
  }

  /** What the scan tests of the attribute byte. A slot is listed exactly when it is no end mark and attribute bit
      0x08 is clear: that bit is set in volume labels and in long-name slots. */
  lemma AttributeBits(t: Scanner, s: Slot)
    ensures IsLfn(s) <==> (s[11] as bv8) & 0x0F == 0x0F
    ensures IsVolumeId(s) <==> (s[11] as bv8) & 0x08 != 0
    ensures ScanSlot(t, s).entries ==
            if !t.ended && s[0] != 0 && (s[11] as bv8) & 0x08 == 0 then t.entries + [EntryOf(t, s)] else t.entries
  {
    LowBits(s[11]);
    VolumeBit(s[11]);
  }

  lemma LowBits(b: Byte)
    ensures (b as bv8) & 0x0F == 0x0F <==> b % 16 == 15
  {
    FirstBits(b);
    VolumeBit(b);
    FourBits(b as bv8);
    FourBinaryDigits(b);
  }

  lemma FourBinaryDigits(n: nat)
    ensures n % 16 == 15 <==> n % 2 == 1 && n / 2 % 2 == 1 && n / 4 % 2 == 1 && n / 8 % 2 == 1
  {
    DigitOfFour(n);
    DigitOfThree(n / 2);
    DigitOfTwo(n / 4);
    assert n / 2 / 2 == n / 4 && n / 4 / 2 == n / 8;
  }

  lemma DigitOfFour(n: nat)
    ensures n % 16 == 15 <==> n % 2 == 1 && n / 2 % 8 == 7
  {
  }

  lemma DigitOfThree(n: nat)
    ensures n % 8 == 7 <==> n % 2 == 1 && n / 2 % 4 == 3
  {
  }

  lemma DigitOfTwo(n: nat)
    ensures n % 4 == 3 <==> n % 2 == 1 && n / 2 % 2 == 1
  {
    var q, t := n / 4, n % 4;
    assert n == 4 * q + t && n / 2 == 2 * q + t / 2;
  }

  lemma FourBits(x: bv8)
    ensures x & 0x0F == 0x0F <==> x & 0x01 != 0 && x & 0x02 != 0 && x & 0x04 != 0 && x & 0x08 != 0
  {
  }

  lemma FirstBits(b: Byte)
    ensures (b as bv8) & 0x01 != 0 <==> b % 2 == 1
    ensures (b as bv8) & 0x02 != 0 <==> b / 2 % 2 == 1
    ensures (b as bv8) & 0x04 != 0 <==> b / 4 % 2 == 1
  {
  }

  lemma VolumeBit(b: Byte)
    ensures (b as bv8) & 0x08 != 0 <==> b / 8 % 2 == 1
  {
  }

  /** The number that bytes stand for, the low byte first. */
  function LittleEndian(bytes: seq<Byte>): nat
  {
    if bytes == [] then 0 else bytes[0] as int + 256 * LittleEndian(bytes[1..])
  }

  lemma OneDigit(b: Byte)
    ensures LittleEndian([b]) == b
  {
  }

  lemma TwoDigits(b: seq<Byte>)
    requires |b| == 2
    ensures LittleEndian(b) == b[0] as int + 256 * (b[1] as int)
  {
    OneDigit(b[1]);
    assert b[1..] == [b[1]];
  }

  lemma FourDigits(b: seq<Byte>)
    requires |b| == 4
    ensures LittleEndian(b) == b[0] as int + 256 * (b[1] as int) + 65536 * (b[2] as int + 256 * (b[3] as int))
  {
    assert b[1..][1..] == b[2..];
    TwoDigits(b[2..]);
  }

  /** The fields of a slot: numbers have their low byte first, and the cluster number is stored in two halves. */
  lemma EntryFields(t: Scanner, s: Slot)
    ensures var e := EntryOf(t, s);
            && e.short == s[..11] && e.attr == s[11]
            && e.firstCluster == LittleEndian(s[26..28] + s[20..22]) && e.size == LittleEndian(s[28..32])
  {
    FourDigits(s[26..28] + s[20..22]);
    FourDigits(s[28..32]);
  }

  /** The same scan as the file system format asks for: a first byte 0xE5 marks an unused slot. */
  function ScanSkipping(t: Scanner, slots: seq<Slot>): Scanner
  {
    if slots == [] then t else
      var u, s := ScanSkipping(t, slots[..|slots| - 1]), slots[|slots| - 1];
      if !u.ended && s[0] == 0xE5 then Cleared(u) else ScanSlot(u, s)
  }

  /** The live-looking slots with first byte 0xE5 before the end mark. */
  function DeletedFiles(slots: seq<Slot>): nat
  {
    if slots == [] then 0 else
      var before, s := slots[..|slots| - 1], slots[|slots| - 1];
      DeletedFiles(before) + if !ScanFrom(START, before).ended && s[0] == 0xE5 && IsLive(s) then 1 else 0
  }

  /** Because of the signed comparison the listing has one surplus entry for every deleted file: it has the
      right length exactly when there is none. */
  lemma {:induction false} DeletedFilesAreListed(slots: seq<Slot>)
    ensures |Listing(slots)| == |ScanSkipping(START, slots).entries| + DeletedFiles(slots)
    ensures ScanFrom(START, slots).ended == ScanSkipping(START, slots).ended
  {
    if slots != [] {
      DeletedFilesAreListed(slots[..|slots| - 1]);
    }
  }

  /** What the code still remembers of a deleted long-name slot: its checksum, and the first character written since. */
  datatype Leftover = Leftover(checksum: Byte, firstChar: Byte)

  /** A long-name slot that continues a name rather than starting one. */
  predicate IsContinuation(s: Slot)
  {
    IsLfn(s) && s[0] / 64 % 2 == 0
  }

  /** A deleted long-name slot with nothing but continuation slots behind it, at the end of `slots`. */
  function LeftoverOf(slots: seq<Slot>): Option<Leftover>
  {
    if slots == [] then None else
      var before, s := LeftoverOf(slots[..|slots| - 1]), slots[|slots| - 1];
      if s[0] == 0xE5 && IsLfn(s) then Some(Leftover(s[13], 0))
      else if !IsContinuation(s) || before.None? then None
      else if s[0] % 64 == 1 then Some(before.value.(firstChar := LfnChar(s, 0)))
      else before
  }

  /** A live slot that the checksum of a deleted long-name slot vouches for. */
  predicate IsRevived(left: Option<Leftover>, s: Slot)
  {
    IsLive(s) && s[0] != 0xE5 && left.Some? && left.value.firstChar != 0 && Checksum(s[..11]) == left.value.checksum
  }

  function RevivedNames(slots: seq<Slot>): nat
  {
    if slots == [] then 0 else
      var before, s := slots[..|slots| - 1], slots[|slots| - 1];
      RevivedNames(before) + if !ScanFrom(START, before).ended && IsRevived(LeftoverOf(before), s) then 1 else 0
  }

  /** The two scans differ at most in what a leftover explains. */
  ghost predicate InStep(t: Scanner, u: Scanner, left: Option<Leftover>)
  {
    && |t.buf| == 256 && |u.buf| == 256 && t.ended == u.ended
    && (!t.ended ==>
          match left
          case None => t.checksum == u.checksum && (t.buf == u.buf || t.checksum == -1)
          case Some(l) => t.checksum == l.checksum && u.checksum == -1 && t.buf == u.buf && t.buf[0] == l.firstChar)
  }

  lemma TakeLfnInStep(t: Scanner, u: Scanner, left: Option<Leftover>, s: Slot)
    requires InStep(t, u, left) && !t.ended && IsLfn(s) && s[0] != 0xE5
    ensures InStep(TakeLfn(t, s), TakeLfn(u, s),
                   if !IsContinuation(s) || left.None? then None
                   else if s[0] % 64 == 1 then Some(left.value.(firstChar := LfnChar(s, 0)))
                   else left)
  {
  }

  lemma {:induction false} ScansInStep(slots: seq<Slot>)
    ensures InStep(ScanFrom(START, slots), ScanSkipping(START, slots), LeftoverOf(slots))
  {
    if slots != [] {
      var init, s := slots[..|slots| - 1], slots[|slots| - 1];
      ScansInStep(init);
      var t, u := ScanFrom(START, init), ScanSkipping(START, init);
      if !t.ended && !IsEnd(s) && s[0] != 0xE5 && IsLfn(s) {
        TakeLfnInStep(t, u, LeftoverOf(init), s);
      }
    }
  }

  /** A live slot reads the same in both scans exactly when it is not revived. */
  lemma SameEntryIff(t: Scanner, u: Scanner, left: Option<Leftover>, s: Slot)
    requires InStep(t, u, left) && !t.ended && IsLive(s) && s[0] != 0xE5
    ensures EntryOf(t, s) == EntryOf(u, s) <==> !IsRevived(left, s)
  {
  }

  /** Exactly when the listing is the one the format asks for: no deleted file before the end mark, and no live
      slot that continuation slots behind a deleted long-name slot give a name to. */
  lemma {:induction false} ListingsAgreeIff(slots: seq<Slot>)
    ensures Listing(slots) == ScanSkipping(START, slots).entries <==> DeletedFiles(slots) == 0 && RevivedNames(slots) == 0
  {
    DeletedFilesAreListed(slots);
    if slots != [] {
      var init, s := slots[..|slots| - 1], slots[|slots| - 1];
      DeletedFilesAreListed(init);
      ListingsAgreeIff(init);
      ScansInStep(init);
      var t, u := ScanFrom(START, init), ScanSkipping(START, init);
      if !t.ended && IsLive(s) && s[0] != 0xE5 {
        SameEntryIff(t, u, LeftoverOf(init), s);
        SameAppended(t.entries, u.entries, EntryOf(t, s), EntryOf(u, s));
      }
    }
  }

  lemma SameAppended(a: seq<DirEntry>, b: seq<DirEntry>, x: DirEntry, y: DirEntry)
    ensures a + [x] == b + [y] <==> a == b && x == y
  {
    if a + [x] == b + [y] {
      assert (a + [x])[..|a|] == a && (b + [y])[..|b|] == b;
      assert (a + [x])[|a|] == x && (b + [y])[|b|] == y;
    }
  }

  lemma {:induction false} ScanSplit(t: Scanner, a: seq<Slot>, b: seq<Slot>)
    ensures ScanFrom(t, a + b) == ScanFrom(ScanFrom(t, a), b)
    decreases |b|
  {
    if b == [] {
      assert a + b == a;
    } else {
      var n := |b| - 1;
      var init, last := b[..n], b[n];
      ScanSplit(t, a, init);
      ScanSnoc(t, a + init, last, a + b);
      ScanSnoc(ScanFrom(t, a), init, last, b);
    }
  }

  lemma ScanSnoc(t: Scanner, init: seq<Slot>, s: Slot, all: seq<Slot>)
    requires all == init + [s]
    ensures ScanFrom(t, all) == ScanSlot(ScanFrom(t, init), s)
  {
    assert all[..|all| - 1] == init;
  }

  lemma {:induction false} ScanEnded(t: Scanner, slots: seq<Slot>)
    requires t.ended
    ensures ScanFrom(t, slots) == t
  {
    if slots != [] {
      ScanEnded(t, slots[..|slots| - 1]);
    }
  }

  lemma {:induction false} ScanAdds(t: Scanner, slots: seq<Slot>)
    ensures t.entries <= ScanFrom(t, slots).entries
  {
    if slots != [] {
      ScanAdds(t, slots[..|slots| - 1]);
    }
  }

  function Upper(c: Byte): Byte
  {
    if 0x61 <= c <= 0x7A then c - 32 else c
  }

  function Lower(c: Byte): Byte
  {
    if 0x41 <= c <= 0x5A then c + 32 else c
  }

  function Uppers(s: Name): (u: Name)
    ensures |u| == |s| && forall i | 0 <= i < |s| :: u[i] == Upper(s[i])
  {
    seq(|s|, i requires 0 <= i < |s| => Upper(s[i]))
  }

  function Lowers(s: Name): (u: Name)
    ensures |u| == |s| && forall i | 0 <= i < |s| :: u[i] == Lower(s[i])
  {
    seq(|s|, i requires 0 <= i < |s| => Lower(s[i]))
  }

  /** Equal up to the case of ASCII letters. */
  predicate CaseEq(a: Name, b: Name)
  {
    Uppers(a) == Uppers(b)
  }

  /** Two names are equal in this sense exactly when each character is the same or the same letter in the other case. */
  lemma CaseEqIff(a: Name, b: Name)
    ensures CaseEq(a, b) <==>
              && |a| == |b|
              && forall i | 0 <= i < |a| ::
                   || a[i] == b[i] || ('a' as int <= a[i] <= 'z' as int && b[i] == a[i] - 32)
                   || ('a' as int <= b[i] <= 'z' as int && a[i] == b[i] - 32)
  {
    if CaseEq(a, b) {
      forall i | 0 <= i < |a|
        ensures Upper(a[i]) == Upper(b[i])
      {
        assert Uppers(a)[i] == Uppers(b)[i];
      }
    }
  }

  lemma LetterCases(c: Byte)
    ensures 'a' as int <= c <= 'z' as int ==> Upper(c) == c - 32 && Lower(c) == c
    ensures 'A' as int <= c <= 'Z' as int ==> Lower(c) == c + 32 && Upper(c) == c
    ensures !('a' as int <= c <= 'z' as int) && !('A' as int <= c <= 'Z' as int) ==> Upper(c) == c && Lower(c) == c
  {
  }

  /** The part of `s` before the first `c`. */
  function Before(s: Name, c: Byte): (p: Name)
    ensures p <= s && c !in p && (|p| < |s| ==> s[|p|] == c)
  {
    if s == [] || s[0] == c then [] else [s[0]] + Before(s[1..], c)
  }

  function First(s: Name, n: nat): Name
  {
    if |s| <= n then s else s[..n]
  }

  function Padded(s: Name, n: nat): (p: Name)
    requires |s| <= n
    ensures |p| == n && s <= p && forall i | |s| <= i < n :: p[i] == SPACE
  {
    s + seq(n - |s|, _ => SPACE)
  }

  /** The text after the first dot. */
  function Extension(name: Name): Name
  {
    var n := |Before(name, DOT)|;
    if n < |name| then name[n + 1..] else []
  }

  /** A name cut and padded to the 8.3 form: up to 8 characters before the first dot, up to 3 after it. */
  function FatName(name: Name): (f: Name)
    ensures |f| == 11
  {
    Padded(First(Uppers(Before(name, DOT)), 8), 8) + Padded(First(Uppers(Extension(name)), 3), 3)
  }

  /** What is written of an 8.3 field: lower case, cut at the first space, the dot only before an extension. */
  function ShownBytes(f: Name): Name
    requires |f| == 11
  {
    Lowers(Before(f[..8], SPACE)) + if f[8] != SPACE then [DOT] + Lowers(Before(f[8..], SPACE)) else []
  }

  /** An 8.3 field shown as text: a zero byte in it ends the C string. */
  function NormalName(f: Name): Name
    requires |f| == 11
  {
    CString(ShownBytes(f))
  }

  function NoSpaces(s: Name): Name
  {
    if s == [] then [] else (if s[0] == SPACE then [] else [s[0]]) + NoSpaces(s[1..])
  }

  /** The part after the last dot, if there is one. */
  function LastExtension(name: Name): Name
  {
    if DOT !in name then []
    else if DOT !in Extension(name) then Extension(name)
    else LastExtension(Extension(name))
  }

  /** The short name made for a long one: six characters, "~1", and the last extension. */
  function MakeShortName(name: Name): (f: Name)
    ensures |f| == 11
  {
    Padded(First(Uppers(NoSpaces(Before(name, DOT))), 6), 6) + [0x7E, 0x31] + Padded(First(Uppers(LastExtension(name)), 3), 3)
  }

  /** A lookup by `name` accepts an entry by its long name or by its short one. */
  predicate Matches(name: Name, e: DirEntry)
  {
    (e.longName.Some? && CaseEq(name, e.longName.value)) || (|e.short| == 11 && CaseEq(name, NormalName(e.short)))
  }

  /** The first entry that answers to `name`. */
  function Lookup(entries: seq<DirEntry>, name: Name): Option<DirEntry>
  {
    if entries == [] then None
    else if Matches(name, entries[0]) then Some(entries[0])
    else Lookup(entries[1..], name)
  }

  lemma {:induction false} LookupSplit(a: seq<DirEntry>, b: seq<DirEntry>, name: Name)
    ensures Lookup(a + b, name) == if Lookup(a, name).Some? then Lookup(a, name) else Lookup(b, name)
  {
    if a == [] {
      assert a + b == b;
    } else {
      assert (a + b)[1..] == a[1..] + b;
      LookupSplit(a[1..], b, name);
    }
  }

  /** Lookup agrees with listing: it gives the entry at the least index whose long or short name matches,
      and nothing when there is no such index. */
  lemma {:induction false} LookupIsLeast(entries: seq<DirEntry>, name: Name) returns (k: nat)
    ensures k <= |entries| && forall j | 0 <= j < k :: !Matches(name, entries[j])
    ensures k < |entries| ==> Matches(name, entries[k])
    ensures Lookup(entries, name) == if k < |entries| then Some(entries[k]) else None
  {
    if entries == [] || Matches(name, entries[0]) {
      k := 0;
    } else {
      var rest := LookupIsLeast(entries[1..], name);
      k := rest + 1;
    }
  }

  /** Names that a short entry alone can be found by. */
  predicate IsProperShortName(name: Name)
  {
    SPACE !in name && 0 !in name && |Before(name, DOT)| <= 8 && (DOT in name ==> 1 <= |Extension(name)| <= 3)
  }

  lemma BeforeAbsent(s: Name, c: Byte)
    requires c !in s
    ensures Before(s, c) == s
  {
    BeforeUnique(s, c, s);
  }

  lemma {:induction false} BeforeUnique(s: Name, c: Byte, p: Name)
    requires p <= s && c !in p && (|p| < |s| ==> s[|p|] == c)
    ensures Before(s, c) == p
  {
    if s != [] && s[0] != c {
      BeforeUnique(s[1..], c, p[1..]);
    }
  }

  lemma BeforePresent(s: Name, c: Byte)
    requires c in s
    ensures |Before(s, c)| < |s| && s == Before(s, c) + [c] + s[|Before(s, c)| + 1..]
  {
    assert Before(s, c) != s;
  }

  lemma PaddedBefore(s: Name, n: nat)
    requires |s| <= n && SPACE !in s
    ensures Before(Padded(s, n), SPACE) == s
  {
    BeforeUnique(Padded(s, n), SPACE, s);
  }

  lemma CaseMaps(c: Byte)
    ensures Upper(Lower(Upper(c))) == Upper(c)
    ensures Upper(c) == SPACE <==> c == SPACE
    ensures Lower(c) == SPACE <==> c == SPACE
    ensures Upper(c) == DOT <==> c == DOT
  {
  }

  lemma UppersKeepSpaces(s: Name)
    ensures SPACE in Uppers(s) <==> SPACE in s
    ensures SPACE in Lowers(s) <==> SPACE in s
  {
    forall i | 0 <= i < |s| { CaseMaps(s[i]); }
    assert forall i | 0 <= i < |s| :: Uppers(s)[i] in Uppers(s) && Lowers(s)[i] in Lowers(s);
  }

  lemma ZeroFreePart(s: Name, n: nat)
    requires 0 !in s && |s| <= n
    ensures 0 !in Padded(s, n)
  {
  }

  lemma ZeroFreeUppers(s: Name)
    ensures 0 in Uppers(s) <==> 0 in s
    ensures 0 in Lowers(s) <==> 0 in s
  {
    assert forall i | 0 <= i < |s| :: Uppers(s)[i] in Uppers(s) && Lowers(s)[i] in Lowers(s);
  }

  /** A name without a zero byte has none in its 8.3 field, so the field is shown whole. */
  lemma FieldShownWhole(name: Name)
    requires 0 !in name
    ensures NormalName(FatName(name)) == ShownBytes(FatName(name))
  {
    var base, ext := Before(name, DOT), Extension(name);
    ZeroFreeUppers(base);
    ZeroFreeUppers(ext);
    ZeroFreePart(First(Uppers(base), 8), 8);
    ZeroFreePart(First(Uppers(ext), 3), 3);
    FatNameFields(name);
    ShownZeroFree(FatName(name));
    BeforeAbsent(ShownBytes(FatName(name)), 0);
  }

  lemma ShownZeroFree(f: Name)
    requires |f| == 11 && 0 !in f[..8] && 0 !in f[8..]
    ensures 0 !in ShownBytes(f)
  {
    ZeroFreeUppers(Before(f[..8], SPACE));
    ZeroFreeUppers(Before(f[8..], SPACE));
  }

  /** Exactly which names survive the trip through the 8.3 field. */
  lemma ShortNameRoundTrip(name: Name)
    ensures CaseEq(name, NormalName(FatName(name))) <==> IsProperShortName(name)
  {
    if IsProperShortName(name) {
      ProperNameSurvives(name);
      FieldShownWhole(name);
    } else if CaseEq(name, NormalName(FatName(name))) {
      ZeroFreeUppers(name);
      ZeroFreeUppers(NormalName(FatName(name)));
      FieldShownWhole(name);
      SurvivorIsProper(name);
    }
  }

  /** The two halves of the 8.3 field. */
  lemma FatNameFields(name: Name)
    ensures FatName(name)[..8] == Padded(First(Uppers(Before(name, DOT)), 8), 8)
    ensures FatName(name)[8..] == Padded(First(Uppers(Extension(name)), 3), 3)
  {
  }

  lemma CaseTripPart(s: Name)
    ensures Uppers(Lowers(Uppers(s))) == Uppers(s)
  {
    forall i | 0 <= i < |s| { CaseMaps(s[i]); }
  }

  lemma UppersAppend(a: Name, b: Name)
    ensures Uppers(a + b) == Uppers(a) + Uppers(b)
  {
  }

  function Dotted(base: Name, ext: Name): Name
  {
    base + [DOT] + ext
  }

  lemma UppersOfDotted(base: Name, ext: Name)
    ensures Uppers(Dotted(base, ext)) == Uppers(base) + Uppers([DOT]) + Uppers(ext)
  {
    UppersAppend(base + [DOT], ext);
    UppersAppend(base, [DOT]);
  }

  /** What is shown of an 8.3 field whose two parts have no spaces inside. */
  lemma ShownParts(f: Name, base: Name, ext: Name)
    requires |f| == 11 && |base| <= 8 && |ext| <= 3 && SPACE !in base && SPACE !in ext
    requires f[..8] == Padded(base, 8) && f[8..] == Padded(ext, 3)
    ensures ShownBytes(f) == if ext == [] then Lowers(base) else Dotted(Lowers(base), Lowers(ext))
  {
    PaddedBefore(base, 8);
    PaddedBefore(ext, 3);
    assert f[8] == f[8..][0];
    assert ext != [] ==> ext[0] in ext;
  }

  lemma DottedParts(name: Name, base: Name, ext: Name)
    requires base == Before(name, DOT) && ext == Extension(name)
    ensures if DOT in name then name == Dotted(base, ext) else name == base && ext == []
  {
    if DOT in name {
      BeforePresent(name, DOT);
    } else {
      BeforeAbsent(name, DOT);
    }
  }

  lemma PartsHaveNoSpace(name: Name, base: Name, ext: Name)
    requires SPACE !in name && (if DOT in name then name == Dotted(base, ext) else name == base && ext == [])
    ensures SPACE !in Uppers(base) && SPACE !in Uppers(ext)
  {
    UppersKeepSpaces(base);
    UppersKeepSpaces(ext);
    assert forall c | c in base || c in ext :: c in name;
  }

  /** What the 8.3 field of a proper name is shown as. */
  lemma ProperShown(name: Name, base: Name, ext: Name)
    requires IsProperShortName(name) && base == Before(name, DOT) && ext == Extension(name)
    ensures ShownBytes(FatName(name)) ==
            if DOT in name then Dotted(Lowers(Uppers(base)), Lowers(Uppers(ext))) else Lowers(Uppers(name))
    ensures DOT in name ==> name == Dotted(base, ext)
  {
    FatNameFields(name);
    DottedParts(name, base, ext);
    PartsHaveNoSpace(name, base, ext);
    assert ext == [] <==> Uppers(ext) == [];
    ShownParts(FatName(name), Uppers(base), Uppers(ext));
  }

  lemma ProperNameSurvives(name: Name)
    requires IsProperShortName(name)
    ensures CaseEq(name, ShownBytes(FatName(name)))
  {
    var base, ext := Before(name, DOT), Extension(name);
    ProperShown(name, base, ext);
    CaseTripPart(name);
    CaseTripPart(base);
    CaseTripPart(ext);
    UppersOfDotted(base, ext);
    UppersOfDotted(Lowers(Uppers(base)), Lowers(Uppers(ext)));
  }

  lemma LowersOfUppers(s: Name)
    ensures Lowers(Uppers(s)) == Lowers(s)
  {
  }

  lemma LowersOfDotted(base: Name, ext: Name)
    ensures Lowers(Dotted(base, ext)) == Dotted(Lowers(base), Lowers(ext))
  {
  }

  /** A proper short name is shown in lower case. */
  lemma ShownInLowerCase(name: Name)
    requires IsProperShortName(name)
    ensures NormalName(FatName(name)) == Lowers(name)
  {
    var base, ext := Before(name, DOT), Extension(name);
    FieldShownWhole(name);
    ProperShown(name, base, ext);
    LowersOfUppers(name);
    LowersOfUppers(base);
    LowersOfUppers(ext);
    LowersOfDotted(base, ext);
  }

  lemma ShownHasNoSpace(f: Name)
    requires |f| == 11
    ensures SPACE !in ShownBytes(f)
  {
    UppersKeepSpaces(Before(f[..8], SPACE));
    UppersKeepSpaces(Before(f[8..], SPACE));
  }

  lemma SurvivorIsProper(name: Name)
    requires CaseEq(name, ShownBytes(FatName(name))) && 0 !in name
    ensures IsProperShortName(name)
  {
    var base, ext, shown := Before(name, DOT), Extension(name), ShownBytes(FatName(name));
    FatNameFields(name);
    assert SPACE !in name by {
      assert Uppers(name) == Uppers(shown);
      UppersKeepSpaces(name);
      UppersKeepSpaces(shown);
      ShownHasNoSpace(FatName(name));
    }
    UppersKeepSpaces(base);
    UppersKeepSpaces(ext);
    PaddedBefore(First(Uppers(base), 8), 8);
    PaddedBefore(First(Uppers(ext), 3), 3);
    assert |name| == |shown|;
    if DOT in name {
      BeforePresent(name, DOT);
    } else {
      BeforeAbsent(name, DOT);
    }
  }
}
