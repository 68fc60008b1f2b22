/** fat32_vfs.c: the name conversions and comparisons, loop by loop, against their definitions. */
module ShortNames {
  import opened FatChains
  import opened DirSlots

  /** my_strcasecmp, as a test for equality of the name `a` and the C string in the buffer `b`. */
  method StrCaseCmp(a: Name, b: seq<Byte>) returns (equal: bool)
    ensures equal <==> CaseEq(a, CString(b))
  {
    ghost var c := CString(b);
    var i := 0;
    while i < |a| && i < |b| && b[i] != 0
      invariant i <= |a| && i <= |c| && forall j | 0 <= j < i :: Upper(a[j]) == Upper(c[j])
    {
      assert i < |c| && c[i] == b[i];
      if Upper(a[i]) != Upper(b[i]) {
        assert Uppers(a)[i] == Upper(a[i]) && Uppers(c)[i] == Upper(b[i]);
        return false;
      }
      i := i + 1;
    }
    assert i < |c| ==> c[i] == b[i] && c[i] in c;
    equal := i == |a| && (i == |b| || b[i] == 0);
  }

  /** The characters of `s` from `from` on, up to a space, in lower case, behind `out`. */
  method CopyLower(s: Name, out: Name) returns (longer: Name)
    ensures longer == out + Lowers(Before(s, SPACE))
  {
    longer := out;
    var i := 0;
    while i < |s| && s[i] != SPACE
      invariant i <= |s| && SPACE !in s[..i] && longer == out + Lowers(s[..i])
    {
      longer := longer + [Lower(s[i])];
      i := i + 1;
    }
    BeforeUnique(s, SPACE, s[..i]);
  }

  /** fat32_to_normal_name: the characters it writes before the terminator. */
  method ToNormalName(f: Name) returns (out: Name)
    requires |f| == 11
    ensures out == ShownBytes(f) && CString(out) == NormalName(f)
  {
    out := CopyLower(f[..8], []);
    if f[8] != SPACE {
      out := out + [DOT];
      out := CopyLower(f[8..], out);
    }
  }

  /** Up to `limit` characters of `s` in upper case. */
  method CopyUpper(s: Name, limit: nat) returns (out: Name)
    ensures out == First(Uppers(s), limit)
  {
    out := [];
    var i := 0;
    while i < |s| && i < limit
      invariant i <= |s| && i <= limit && out == Uppers(s)[..i]
    {
      out := out + [Upper(s[i])];
      i := i + 1;
    }
  }

  /** The index of the first dot, or the length. */
  method FindDot(s: Name) returns (i: nat)
    ensures i <= |s| && s[..i] == Before(s, DOT)
  {
    i := 0;
    while i < |s| && s[i] != DOT
      invariant i <= |s| && DOT !in s[..i]
    {
      i := i + 1;
    }
    BeforeUnique(s, DOT, s[..i]);
  }

  /** fat32_to_fat_name: both fields start out blank and are filled from the left. */
  method ToFatName(normal: Name) returns (out: Name)
    ensures out == FatName(normal)
  {
    var dot := FindDot(normal);
    var base := CopyUpper(normal[..dot], 8);
    var ext := [];
    if dot < |normal| {
      ext := CopyUpper(normal[dot + 1..], 3);
    }
    out := Padded(base, 8) + Padded(ext, 3);
  }

  lemma {:induction false} NoSpacesSnoc(s: Name, c: Byte)
    ensures NoSpaces(s + [c]) == NoSpaces(s) + if c == SPACE then [] else [c]
  {
    if s != [] {
      assert (s + [c])[1..] == s[1..] + [c];
      NoSpacesSnoc(s[1..], c);
    }
  }

  lemma {:induction false} NoSpacesPrefix(s: Name, i: nat)
    requires i <= |s|
    ensures NoSpaces(s[..i]) <= NoSpaces(s)
  {
    if i > 0 {
      assert s[..i][1..] == s[1..][..i - 1];
      NoSpacesPrefix(s[1..], i - 1);
    }
  }

  /** Where the last dot's extension starts: the scan back from the end. */
  method FindLastExtension(name: Name) returns (ext: Name)
    ensures ext == LastExtension(name)
  {
    if |name| == 0 {
      return [];
    }
    var i: nat := |name| - 1;
    while i > 0 && name[i] != DOT
      invariant i < |name| && DOT !in name[i + 1..]
    {
      i := i - 1;
    }
    if name[i] == DOT {
      LastExtensionAt(name, i);
      return name[i + 1..];
    }
    assert DOT !in name;
    return [];
  }

  lemma {:induction false} BeforeAtMost(s: Name, c: Byte, i: nat)
    requires i < |s| && s[i] == c
    ensures |Before(s, c)| <= i
  {
    if s[0] != c {
      BeforeAtMost(s[1..], c, i - 1);
    }
  }

  lemma {:induction false} LastExtensionAt(name: Name, i: nat)
    requires i < |name| && name[i] == DOT && DOT !in name[i + 1..]
    ensures LastExtension(name) == name[i + 1..]
    decreases |name|
  {
    var d := |Before(name, DOT)|;
    BeforePresent(name, DOT);
    if d < i {
      assert Extension(name)[i - d - 1] == name[i];
      assert Extension(name)[i - d - 1 + 1..] == name[i + 1..];
      LastExtensionAt(Extension(name), i - d - 1);
    } else {
      BeforeAtMost(name, DOT, i);
    }
  }

  /** Character `d` is the first dot, or there is none and the name ends there. */
  predicate IsFirstDot(name: Name, d: nat)
  {
    d <= |name| && DOT !in name[..d] && (d < |name| ==> name[d] == DOT)
  }

  /** The 8.3 field byte by byte: what stands before the first dot, then what follows it, each cut and padded. */
  lemma FatNameBytes(name: Name, d: nat, j: nat)
    requires IsFirstDot(name, d) && j < 8
    ensures FatName(name)[j] == if j < d then Upper(name[j]) else SPACE
    ensures j < 3 ==> FatName(name)[8 + j] == if d + 1 + j < |name| then Upper(name[d + 1 + j]) else SPACE
  {
    BeforeUnique(name, DOT, name[..d]);
  }

  lemma {:induction false} NoSpacesIn(s: Name)
    requires SPACE !in s
    ensures NoSpaces(s) == s
  {
    if s != [] {
      assert forall c | c in s[1..] :: c in s;
      NoSpacesIn(s[1..]);
    }
  }

  lemma LastExtensionIs(name: Name, e: nat)
    requires e <= |name| && if e < |name| then name[e] == DOT && DOT !in name[e + 1..] else DOT !in name
    ensures LastExtension(name) == if e < |name| then name[e + 1..] else []
  {
    if e < |name| {
      LastExtensionAt(name, e);
    }
  }

  /** The short name of a long one byte by byte: six characters, "~1", and three behind the last dot `e`. */
  lemma MadeNameBytes(name: Name, d: nat, e: nat, j: nat)
    requires IsFirstDot(name, d) && SPACE !in name[..d] && j < 6
    requires e <= |name| && if e < |name| then name[e] == DOT && DOT !in name[e + 1..] else DOT !in name
    ensures MakeShortName(name)[j] == if j < d then Upper(name[j]) else SPACE
    ensures MakeShortName(name)[6] == '~' as int && MakeShortName(name)[7] == '1' as int
    ensures j < 3 ==> MakeShortName(name)[8 + j] == if e + 1 + j < |name| then Upper(name[e + 1 + j]) else SPACE
  {
    BeforeUnique(name, DOT, name[..d]);
    NoSpacesIn(name[..d]);
    LastExtensionIs(name, e);
    MadeNameParts(name, Uppers(name[..d]), Uppers(LastExtension(name)), j);
  }

  lemma MadeNameParts(name: Name, base: Name, ext: Name, j: nat)
    requires base == Uppers(NoSpaces(Before(name, DOT))) && ext == Uppers(LastExtension(name)) && j < 6
    ensures MakeShortName(name)[j] == if j < |base| then base[j] else SPACE
    ensures MakeShortName(name)[6] == '~' as int && MakeShortName(name)[7] == '1' as int
    ensures j < 3 ==> MakeShortName(name)[8 + j] == if j < |ext| then ext[j] else SPACE
  {
  }

  /** The first six characters before the first dot, spaces dropped, in upper case. */
  method ShortBase(name: Name, dot: nat) returns (base: Name)
    requires dot <= |name|
    ensures base == First(Uppers(NoSpaces(name[..dot])), 6)
  {
    base := [];
    var i := 0;
    while i < dot && |base| < 6
      invariant i <= dot && |base| <= 6 && base == Uppers(NoSpaces(name[..i]))
    {
      NoSpacesSnoc(name[..i], name[i]);
      assert name[..i] + [name[i]] == name[..i + 1];
      if name[i] != SPACE {
        CaseMaps(name[i]);
        base := base + [Upper(name[i])];
      }
      i := i + 1;
    }
    assert name[..dot][..i] == name[..i];
    NoSpacesPrefix(name[..dot], i);
  }

  /** make_short_name. */
  method ToShortName(name: Name) returns (out: Name)
    ensures out == MakeShortName(name)
  {
    var dot := FindDot(name);
    var base := ShortBase(name, dot);
    var ext := FindLastExtension(name);
    ext := CopyUpper(ext, 3);
    out := Padded(base, 6) + [0x7E, 0x31] + Padded(ext, 3);
  }
}
