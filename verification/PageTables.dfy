/** Four-level paging (Intel SDM volume 3A, section 4.5) as a radix tree over physical frames. */
module PageTables {
  import opened Wrappers

  const PAGE_PRESENT: bv64 := 0x1
  const PAGE_RW: bv64 := 0x2
  const PAGE_PCD: bv64 := 0x10
  const PAGE_LARGE: bv64 := 0x80
  const CACHING: bv64 := 0x18
  const ENTRIES: nat := 512

  /** A 64-bit entry: bits 12 to 51 hold `frame` (an address / 4096), the other bits are `flags`. */
  datatype Entry = Entry(frame: nat, flags: bv64)

  const EMPTY: Entry := Entry(0, 0)

  type Table = seq<Entry>

  /** The contents of the frames that hold page tables, by frame number. */
  type Memory = map<nat, Table>

  predicate Present(e: Entry)
  {
    e.flags & PAGE_PRESENT != 0
  }

  predicate Large(e: Entry)
  {
    e.flags & PAGE_LARGE != 0
  }

  /** An entry of the upper three levels that leads to a table: present, and not a large page. */
  predicate IsLink(e: Entry)
  {
    Present(e) && !Large(e)
  }

  function ZeroTable(): (t: Table)
    ensures |t| == ENTRIES && forall i | 0 <= i < ENTRIES :: t[i] == EMPTY
  {
    seq(ENTRIES, _ => EMPTY)
  }

  type Index = i: nat | i < 512

  /** A path of one to four table indices; a path of three leads to a page table. */
  type Path = seq<Index>

  /** The table that `path` leads to from the root, if every entry on the way is a link. */
  function TableAt(mem: Memory, root: nat, path: Path): Option<nat>
  {
    if path == [] then Some(root) else
      var n := |path| - 1;
      match TableAt(mem, root, path[..n])
      case None => None
      case Some(t) =>
        if IsTable(mem, t) && IsLink(mem[t][path[n]]) then Some(mem[t][path[n]].frame) else None
  }

  /** Where a translation ends: an entry and the number of indices used up, 4 for a 4 KB page. */
  datatype Leaf = Leaf(entry: Entry, level: nat)

  /** The large page met on the way. (Bit 7 of a top-level entry is reserved; it ends the walk alike.) */
  function LargeAt(mem: Memory, root: nat, path: Path): Option<Leaf>
  {
    if path == [] then None else
      var n := |path| - 1;
      match TableAt(mem, root, path[..n])
      case None => LargeAt(mem, root, path[..n])
      case Some(t) =>
        if IsTable(mem, t) && Present(mem[t][path[n]]) && Large(mem[t][path[n]])
        then Some(Leaf(mem[t][path[n]], n + 1)) else None
  }

  /** The present entry that the processor's walk ends in: a large page on the way or the last level's entry. */
  function Walk(mem: Memory, root: nat, path: Path): Option<Leaf>
    requires |path| == 4
  {
    match TableAt(mem, root, path[..3])
    case None => LargeAt(mem, root, path[..3])
    case Some(t) =>
      if IsTable(mem, t) && Present(mem[t][path[3]]) then Some(Leaf(mem[t][path[3]], 4)) else None
  }

  predicate OnLargePage(mem: Memory, root: nat, path: Path)
    requires |path| == 4
  {
    Walk(mem, root, path).Some? && Walk(mem, root, path).value.level < 4
  }

  /** Every reachable table is a full table, and no table is reached along two paths. */
  ghost predicate IsTree(mem: Memory, root: nat)
  {
    && (forall p: Path | |p| <= 3 :: TableAt(mem, root, p).Some? ==> IsTable(mem, TableAt(mem, root, p).value))
    && (forall p: Path | |p| <= 3 :: TableAt(mem, root, p).Some? ==> OnlyPath(mem, root, p))
  }

  predicate IsTable(mem: Memory, t: nat)
  {
    t in mem && |mem[t]| == ENTRIES
  }

  ghost predicate OnlyPath(mem: Memory, root: nat, p: Path)
  {
    forall q: Path | |q| <= 3 :: TableAt(mem, root, q) == TableAt(mem, root, p) ==> q == p
  }

  lemma NewEntryLinks(flags: bv64)
    ensures (PAGE_PRESENT | PAGE_RW | (flags & CACHING)) & PAGE_PRESENT != 0
    ensures (PAGE_PRESENT | PAGE_RW | (flags & CACHING)) & PAGE_RW != 0
    ensures (PAGE_PRESENT | PAGE_RW | (flags & CACHING)) & PAGE_LARGE == 0
  {
  }

  lemma CachingKeepsLink(e: bv64, flags: bv64)
    ensures (e | (flags & CACHING)) & PAGE_PRESENT == e & PAGE_PRESENT
    ensures (e | (flags & CACHING)) & PAGE_LARGE == e & PAGE_LARGE
    ensures (e | (flags & CACHING)) & PAGE_RW == e & PAGE_RW
  {
  }

  function SetEntry(mem: Memory, t: nat, i: Index, e: Entry): Memory
    requires t in mem && |mem[t]| == ENTRIES
  {
    mem[t := mem[t][i := e]]
  }

  /** Rewriting a link with one to the same frame leaves all tables and large pages where they were. */
  lemma {:induction false} SameTargets(mem: Memory, root: nat, t: nat, i: Index, e: Entry, q: Path)
    requires t in mem && |mem[t]| == ENTRIES
    requires e.frame == mem[t][i].frame && IsLink(e) && IsLink(mem[t][i])
    ensures TableAt(SetEntry(mem, t, i, e), root, q) == TableAt(mem, root, q)
    ensures LargeAt(SetEntry(mem, t, i, e), root, q) == LargeAt(mem, root, q)
  {
    if q != [] {
      SameTargets(mem, root, t, i, e, q[..|q| - 1]);
    }
  }

  /** The memory after a zeroed frame is hung into entry `i` of table `t`. */
  function Link(mem: Memory, t: nat, i: Index, e: Entry): Memory
    requires t in mem && |mem[t]| == ENTRIES && t != e.frame
  {
    SetEntry(mem[e.frame := ZeroTable()], t, i, e)
  }

  /** The table that entry `x` of this one leads to. */
  function Next(mem: Memory, t: Option<nat>, x: Index): Option<nat>
  {
    if t.Some? && IsTable(mem, t.value) && IsLink(mem[t.value][x]) then Some(mem[t.value][x].frame) else None
  }

  lemma AppendedPath(mem: Memory, root: nat, p: Path, i: Index)
    ensures TableAt(mem, root, p + [i]) == Next(mem, TableAt(mem, root, p), i)
  {
    assert (p + [i])[..|p|] == p && (p + [i])[|p|] == i;
  }

  /** An unused frame can be hung into the empty entry `i` of the table at `p`. */
  ghost predicate CanLink(mem: Memory, root: nat, p: Path, i: Index, e: Entry)
  {
    && IsTree(mem, root) && |p| <= 2 && TableAt(mem, root, p).Some?
    && !Present(mem[TableAt(mem, root, p).value][i]) && IsLink(e) && e.frame !in mem
  }

  /** A link changes what one entry leads to, and the zeroed table leads nowhere. */
  lemma LinkedNext(mem: Memory, t: nat, i: Index, e: Entry, u: nat, x: Index)
    requires IsTable(mem, t) && IsLink(e) && e.frame !in mem
    ensures Next(Link(mem, t, i, e), Some(u), x) == if u == t && x == i then Some(e.frame) else Next(mem, Some(u), x)
  {
  }

  /** One step along a path: from the table itself, from behind the new link, or from anywhere else. */
  lemma LinkedStep(mem: Memory, t: nat, i: Index, e: Entry, o: Option<nat>, o': Option<nat>, here: bool, behind: bool, x: Index)
    requires IsTable(mem, t) && !Present(mem[t][i]) && IsLink(e) && e.frame !in mem && (here ==> !behind)
    requires if behind then o == None && o' == Some(e.frame) else o' == o && (o == Some(t) <==> here)
    ensures Next(Link(mem, t, i, e), o', x) == if here && x == i then Some(e.frame) else Next(mem, o, x)
  {
    if o'.Some? {
      LinkedNext(mem, t, i, e, o'.value, x);
    }
  }

  /** Hanging an unused frame into an empty entry adds one table and moves none. */
  lemma {:induction false} LinkedTables(mem: Memory, root: nat, p: Path, i: Index, e: Entry, q: Path)
    requires |p| <= 2 && |q| <= 3 && TableAt(mem, root, p).Some? && OnlyPath(mem, root, p)
    requires IsTable(mem, TableAt(mem, root, p).value) && !Present(mem[TableAt(mem, root, p).value][i])
    requires IsLink(e) && e.frame !in mem
    ensures TableAt(Link(mem, TableAt(mem, root, p).value, i, e), root, q)
         == if q == p + [i] then Some(e.frame) else TableAt(mem, root, q)
  {
    if q != [] {
      var before, x := q[..|q| - 1], q[|q| - 1];
      var t := TableAt(mem, root, p).value;
      LinkedTables(mem, root, p, i, e, before);
      assert q == before + [x];
      AppendedPath(mem, root, before, x);
      AppendedPath(Link(mem, t, i, e), root, before, x);
      AppendedPath(mem, root, p, i);
      SameEnd(p, i, before, x);
      LinkedStep(mem, t, i, e, TableAt(mem, root, before), TableAt(Link(mem, t, i, e), root, before), before == p, before == p + [i], x);
    }
  }

  lemma SameEnd(p: Path, i: Index, before: Path, x: Index)
    ensures before + [x] == p + [i] <==> before == p && x == i
    ensures before == p ==> before != p + [i]
  {
    assert (before + [x])[..|before|] == before && (p + [i])[..|p|] == p;
    assert (before + [x])[|before|] == x && (p + [i])[|p|] == i;
  }

  /** Nor does it make or hide a large page. */
  lemma {:induction false} LinkedLarge(mem: Memory, root: nat, p: Path, i: Index, e: Entry, q: Path)
    requires CanLink(mem, root, p, i, e) && |q| <= 3
    ensures LargeAt(Link(mem, TableAt(mem, root, p).value, i, e), root, q) == LargeAt(mem, root, q)
  {
    if q != [] {
      var before, x := q[..|q| - 1], q[|q| - 1];
      LinkedLarge(mem, root, p, i, e, before);
      LinkedTables(mem, root, p, i, e, before);
      if before == p + [i] {
        LargeAtEmpty(mem, root, p, i);
        AppendedPath(mem, root, p, i);
      } else {
        assert OnlyPath(mem, root, p);
      }
    }
  }

  lemma LargeAtEmpty(mem: Memory, root: nat, p: Path, i: Index)
    requires TableAt(mem, root, p).Some? && IsTable(mem, TableAt(mem, root, p).value)
    requires !Present(mem[TableAt(mem, root, p).value][i])
    ensures LargeAt(mem, root, p + [i]) == None
  {
    assert (p + [i])[..|p|] == p && (p + [i])[|p|] == i;
  }

  /** A large page in the table that a prefix leads to ends every walk through it. */
  lemma LargeEndsWalk(mem: Memory, root: nat, path: Path, k: nat)
    requires |path| == 4 && k < 3 && TableAt(mem, root, path[..k]).Some? && IsTable(mem, TableAt(mem, root, path[..k]).value)
    requires Present(mem[TableAt(mem, root, path[..k]).value][path[k]]) && Large(mem[TableAt(mem, root, path[..k]).value][path[k]])
    ensures Walk(mem, root, path) == Some(Leaf(mem[TableAt(mem, root, path[..k]).value][path[k]], k + 1))
  {
    assert path[..k + 1][..k] == path[..k];
    BlockedBelow(mem, root, path, k + 1, 3);
  }

  lemma {:induction false} BlockedBelow(mem: Memory, root: nat, path: Path, k: nat, n: nat)
    requires k <= n <= |path| && TableAt(mem, root, path[..k]) == None
    ensures TableAt(mem, root, path[..n]) == None && LargeAt(mem, root, path[..n]) == LargeAt(mem, root, path[..k])
    decreases n
  {
    if k < n {
      BlockedBelow(mem, root, path, k, n - 1);
      assert path[..n][..n - 1] == path[..n - 1];
    }
  }

  /** Writing a leaf moves no table and no large page. */
  lemma {:induction false} LeafWriteKeepsTables(mem: Memory, root: nat, p: Path, i: Index, e: Entry, q: Path)
    requires |p| == 3 && |q| <= 3 && TableAt(mem, root, p).Some? && OnlyPath(mem, root, p)
    requires IsTable(mem, TableAt(mem, root, p).value)
    ensures TableAt(SetEntry(mem, TableAt(mem, root, p).value, i, e), root, q) == TableAt(mem, root, q)
    ensures LargeAt(SetEntry(mem, TableAt(mem, root, p).value, i, e), root, q) == LargeAt(mem, root, q)
  {
    if q != [] {
      LeafWriteKeepsTables(mem, root, p, i, e, q[..|q| - 1]);
    }
  }

  /** Adding caching bits to an entry on the way keeps the tree and every walk. */
  lemma FlagsKeepWalks(mem: Memory, root: nat, p: Path, i: Index, e: Entry)
    requires IsTree(mem, root) && |p| <= 2 && TableAt(mem, root, p).Some?
    requires e.frame == mem[TableAt(mem, root, p).value][i].frame
    requires IsLink(e) && IsLink(mem[TableAt(mem, root, p).value][i])
    ensures var mem' := SetEntry(mem, TableAt(mem, root, p).value, i, e);
            IsTree(mem', root) && forall q: Path | |q| == 4 :: Walk(mem', root, q) == Walk(mem, root, q)
  {
    var t := TableAt(mem, root, p).value;
    var mem' := SetEntry(mem, t, i, e);
    forall q: Path { SameTargets(mem, root, t, i, e, q); }
    forall q: Path | |q| == 4 { FlaggedWalk(mem, root, p, i, e, q); }
    SameTablesKeepTree(mem, mem', root);
  }

  lemma FlaggedWalk(mem: Memory, root: nat, p: Path, i: Index, e: Entry, q: Path)
    requires TableAt(mem, root, p).Some? && IsTable(mem, TableAt(mem, root, p).value) && OnlyPath(mem, root, p)
    requires |p| <= 2 && |q| == 4 && e.frame == mem[TableAt(mem, root, p).value][i].frame
    requires IsLink(e) && IsLink(mem[TableAt(mem, root, p).value][i])
    ensures Walk(SetEntry(mem, TableAt(mem, root, p).value, i, e), root, q) == Walk(mem, root, q)
  {
    SameTargets(mem, root, TableAt(mem, root, p).value, i, e, q[..3]);
    assert q[..3] != p;
  }

  lemma SameTablesKeepTree(mem: Memory, mem': Memory, root: nat)
    requires IsTree(mem, root)
    requires forall q: Path | |q| <= 3 :: TableAt(mem', root, q) == TableAt(mem, root, q)
    requires forall t | IsTable(mem, t) :: IsTable(mem', t)
    ensures IsTree(mem', root)
  {
    forall p: Path | |p| <= 3 && TableAt(mem', root, p).Some?
      ensures OnlyPath(mem', root, p)
    {
      assert OnlyPath(mem, root, p);
    }
  }

  lemma LinkedWalk(mem: Memory, root: nat, p: Path, i: Index, e: Entry, q: Path)
    requires CanLink(mem, root, p, i, e) && |q| == 4
    ensures Walk(Link(mem, TableAt(mem, root, p).value, i, e), root, q) == Walk(mem, root, q)
  {
    LinkedTables(mem, root, p, i, e, q[..3]);
    LinkedLarge(mem, root, p, i, e, q[..3]);
    if q[..3] == p + [i] {
      LargeAtEmpty(mem, root, p, i);
      AppendedPath(mem, root, p, i);
    } else {
      assert OnlyPath(mem, root, p);
    }
  }

  lemma LinkedIsTable(mem: Memory, root: nat, p: Path, i: Index, e: Entry, q: Path)
    requires CanLink(mem, root, p, i, e) && |q| <= 3
    ensures var mem' := Link(mem, TableAt(mem, root, p).value, i, e);
            TableAt(mem', root, q).Some? ==> IsTable(mem', TableAt(mem', root, q).value)
  {
    LinkedTables(mem, root, p, i, e, q);
  }

  lemma LinkedOnlyPath(mem: Memory, root: nat, p: Path, i: Index, e: Entry, q: Path)
    requires CanLink(mem, root, p, i, e) && |q| <= 3
    requires TableAt(Link(mem, TableAt(mem, root, p).value, i, e), root, q).Some?
    ensures OnlyPath(Link(mem, TableAt(mem, root, p).value, i, e), root, q)
  {
    var mem' := Link(mem, TableAt(mem, root, p).value, i, e);
    LinkedTables(mem, root, p, i, e, q);
    assert q == p + [i] || OnlyPath(mem, root, q);
    forall r: Path | |r| <= 3 && TableAt(mem', root, r) == TableAt(mem', root, q)
      ensures r == q
    {
      LinkedTables(mem, root, p, i, e, r);
      assert TableAt(mem, root, r).Some? ==> IsTable(mem, TableAt(mem, root, r).value);
      assert TableAt(mem, root, q).Some? ==> IsTable(mem, TableAt(mem, root, q).value);
    }
  }

  /** Linking a fresh table keeps the tree and every walk: what was unmapped stays unmapped. */
  lemma LinkKeepsWalks(mem: Memory, root: nat, p: Path, i: Index, e: Entry)
    requires IsTree(mem, root) && |p| <= 2 && TableAt(mem, root, p).Some?
    requires !Present(mem[TableAt(mem, root, p).value][i]) && IsLink(e) && e.frame !in mem
    ensures var mem' := Link(mem, TableAt(mem, root, p).value, i, e);
            && IsTree(mem', root) && TableAt(mem', root, p + [i]) == Some(e.frame)
            && forall q: Path | |q| == 4 :: Walk(mem', root, q) == Walk(mem, root, q)
  {
    var mem' := Link(mem, TableAt(mem, root, p).value, i, e);
    LinkedTables(mem, root, p, i, e, p + [i]);
    forall q: Path | |q| == 4 { LinkedWalk(mem, root, p, i, e, q); }
    forall q: Path | |q| <= 3 { LinkedIsTable(mem, root, p, i, e, q); }
    forall q: Path | |q| <= 3 && TableAt(mem', root, q).Some? { LinkedOnlyPath(mem, root, p, i, e, q); }
  }

  /** One more table may now be reached, along `path`; no table moved and no page changed its walk. */
  ghost predicate Grown(mem: Memory, mem': Memory, root: nat, path: Path)
  {
    && TableAt(mem', root, path).Some?
    && (forall q: Path | |q| <= 3 && q != path :: TableAt(mem', root, q) == TableAt(mem, root, q))
    && (forall q: Path | |q| == 4 :: Walk(mem', root, q) == Walk(mem, root, q))
  }

  lemma LinkGrows(mem: Memory, root: nat, p: Path, i: Index, e: Entry)
    requires IsTree(mem, root) && |p| <= 2 && TableAt(mem, root, p).Some?
    requires !Present(mem[TableAt(mem, root, p).value][i]) && IsLink(e) && e.frame !in mem
    ensures var mem' := Link(mem, TableAt(mem, root, p).value, i, e);
            IsTree(mem', root) && Grown(mem, mem', root, p + [i]) && TableAt(mem', root, p + [i]) == Some(e.frame)
  {
    LinkKeepsWalks(mem, root, p, i, e);
    forall q: Path | |q| <= 3 { LinkedTables(mem, root, p, i, e, q); }
  }

  lemma FlagsGrow(mem: Memory, root: nat, p: Path, i: Index, e: Entry)
    requires IsTree(mem, root) && |p| <= 2 && TableAt(mem, root, p).Some?
    requires e.frame == mem[TableAt(mem, root, p).value][i].frame
    requires IsLink(e) && IsLink(mem[TableAt(mem, root, p).value][i])
    ensures var mem' := SetEntry(mem, TableAt(mem, root, p).value, i, e);
            && IsTree(mem', root) && Grown(mem, mem', root, p + [i])
            && TableAt(mem', root, p + [i]) == TableAt(mem, root, p + [i]) == Some(e.frame)
  {
    FlagsKeepWalks(mem, root, p, i, e);
    AppendedPath(mem, root, p, i);
    forall q: Path { SameTargets(mem, root, TableAt(mem, root, p).value, i, e, q); }
  }

  lemma LeafWalk(mem: Memory, root: nat, p: Path, i: Index, e: Entry, q: Path)
    requires TableAt(mem, root, p).Some? && IsTable(mem, TableAt(mem, root, p).value) && OnlyPath(mem, root, p)
    requires |p| == 3 && |q| == 4
    ensures Walk(SetEntry(mem, TableAt(mem, root, p).value, i, e), root, q)
         == if q != p + [i] then Walk(mem, root, q) else if Present(e) then Some(Leaf(e, 4)) else None
  {
    LeafWriteKeepsTables(mem, root, p, i, e, q[..3]);
    assert q == q[..3] + [q[3]];
  }

  /** Writing a leaf changes the walk of one page only. */
  lemma LeafWriteWalks(mem: Memory, root: nat, p: Path, i: Index, e: Entry)
    requires IsTree(mem, root) && |p| == 3 && TableAt(mem, root, p).Some?
    ensures var mem' := SetEntry(mem, TableAt(mem, root, p).value, i, e);
            && IsTree(mem', root)
            && forall q: Path | |q| == 4 ::
                 Walk(mem', root, q) == if q != p + [i] then Walk(mem, root, q) else if Present(e) then Some(Leaf(e, 4)) else None
  {
    var t := TableAt(mem, root, p).value;
    var mem' := SetEntry(mem, t, i, e);
    assert OnlyPath(mem, root, p);
    forall q: Path | |q| <= 3 { LeafWriteKeepsTables(mem, root, p, i, e, q); }
    SameTablesKeepTree(mem, mem', root);
    forall q: Path | |q| == 4
      ensures Walk(mem', root, q) == if q != p + [i] then Walk(mem, root, q) else if Present(e) then Some(Leaf(e, 4)) else None
    {
      LeafWalk(mem, root, p, i, e, q);
    }
  }

  /** Entry `x` of a table; empty if there is no such table. */
  function SlotOf(mem: Memory, t: Option<nat>, x: Index): Entry
  {
    if t.Some? && IsTable(mem, t.value) then mem[t.value][x] else EMPTY
  }

  /** The entry that the last index of `q` selects, in the table that the others lead to. */
  function EntryOn(mem: Memory, root: nat, q: Path): Entry
    requires q != []
  {
    SlotOf(mem, TableAt(mem, root, q[..|q| - 1]), q[|q| - 1])
  }

  /** No entry but the one at `r` changed; those of a new table are empty as if it were not there. */
  ghost predicate OneEntry(mem: Memory, mem': Memory, root: nat, r: Path)
  {
    forall q: Path | 1 <= |q| <= 4 && q != r :: EntryOn(mem', root, q) == EntryOn(mem, root, q)
  }

  lemma EntrySplit(mem: Memory, root: nat, before: Path, x: Index)
    ensures EntryOn(mem, root, before + [x]) == SlotOf(mem, TableAt(mem, root, before), x)
  {
    assert (before + [x])[..|before|] == before && (before + [x])[|before|] == x;
  }

  lemma SetSlot(mem: Memory, t: nat, i: Index, e: Entry, o: Option<nat>, x: Index)
    requires IsTable(mem, t)
    ensures SlotOf(SetEntry(mem, t, i, e), o, x) == if o == Some(t) && x == i then e else SlotOf(mem, o, x)
  {
  }

  lemma LinkedSlot(mem: Memory, t: nat, i: Index, e: Entry, o: Option<nat>, o': Option<nat>, here: bool, behind: bool, x: Index)
    requires IsTable(mem, t) && e.frame !in mem && (here ==> !behind)
    requires if behind then o == None && o' == Some(e.frame) else o' == o && (o == Some(t) <==> here)
    ensures SlotOf(Link(mem, t, i, e), o', x) == if here && x == i then e else SlotOf(mem, o, x)
  {
  }

  lemma SetEntryOn(mem: Memory, root: nat, t: nat, i: Index, e: Entry, before: Path, x: Index, here: bool)
    requires IsTable(mem, t) && (TableAt(mem, root, before) == Some(t) <==> here)
    requires TableAt(SetEntry(mem, t, i, e), root, before) == TableAt(mem, root, before)
    ensures EntryOn(SetEntry(mem, t, i, e), root, before + [x]) == if here && x == i then e else EntryOn(mem, root, before + [x])
  {
    EntrySplit(mem, root, before, x);
    EntrySplit(SetEntry(mem, t, i, e), root, before, x);
    SetSlot(mem, t, i, e, TableAt(mem, root, before), x);
  }

  lemma LinkedEntryOn(mem: Memory, root: nat, t: nat, i: Index, e: Entry, before: Path, x: Index, here: bool, behind: bool)
    requires IsTable(mem, t) && e.frame !in mem && (here ==> !behind)
    requires var o, o' := TableAt(mem, root, before), TableAt(Link(mem, t, i, e), root, before);
             if behind then o == None && o' == Some(e.frame) else o' == o && (o == Some(t) <==> here)
    ensures EntryOn(Link(mem, t, i, e), root, before + [x]) == if here && x == i then e else EntryOn(mem, root, before + [x])
  {
    EntrySplit(mem, root, before, x);
    EntrySplit(Link(mem, t, i, e), root, before, x);
    LinkedSlot(mem, t, i, e, TableAt(mem, root, before), TableAt(Link(mem, t, i, e), root, before), here, behind, x);
  }

  lemma LinkEntryOn(mem: Memory, root: nat, p: Path, i: Index, e: Entry, q: Path)
    requires |p| <= 2 && 1 <= |q| <= 4 && TableAt(mem, root, p).Some? && OnlyPath(mem, root, p)
    requires IsTable(mem, TableAt(mem, root, p).value) && !Present(mem[TableAt(mem, root, p).value][i])
    requires IsLink(e) && e.frame !in mem
    ensures EntryOn(Link(mem, TableAt(mem, root, p).value, i, e), root, q)
         == if q == p + [i] then e else EntryOn(mem, root, q)
  {
    var before, x, t := q[..|q| - 1], q[|q| - 1], TableAt(mem, root, p).value;
    assert q == before + [x];
    LinkedTables(mem, root, p, i, e, before);
    SameEnd(p, i, before, x);
    AppendedPath(mem, root, p, i);
    LinkedEntryOn(mem, root, t, i, e, before, x, before == p, before == p + [i]);
  }

  lemma FlagsEntryOn(mem: Memory, root: nat, p: Path, t: nat, i: Index, e: Entry, q: Path)
    requires TableAt(mem, root, p) == Some(t) && IsTable(mem, t) && OnlyPath(mem, root, p) && 1 <= |q| <= 4
    requires e.frame == mem[t][i].frame && IsLink(e) && IsLink(mem[t][i])
    ensures EntryOn(SetEntry(mem, t, i, e), root, q) == if q == p + [i] then e else EntryOn(mem, root, q)
  {
    var before, x := q[..|q| - 1], q[|q| - 1];
    assert q == before + [x];
    SameTargets(mem, root, t, i, e, before);
    SetEntryOn(mem, root, t, i, e, before, x, before == p);
    SameEnd(p, i, before, x);
  }

  lemma LeafEntryOn(mem: Memory, root: nat, p: Path, t: nat, i: Index, e: Entry, q: Path)
    requires |p| == 3 && TableAt(mem, root, p) == Some(t) && IsTable(mem, t) && OnlyPath(mem, root, p) && 1 <= |q| <= 4
    ensures EntryOn(SetEntry(mem, t, i, e), root, q) == if q == p + [i] then e else EntryOn(mem, root, q)
  {
    var before, x := q[..|q| - 1], q[|q| - 1];
    assert q == before + [x];
    LeafWriteKeepsTables(mem, root, p, i, e, before);
    SetEntryOn(mem, root, t, i, e, before, x, before == p);
    SameEnd(p, i, before, x);
  }

  /** A link, a change of caching bits and the write of a leaf each change one entry. */
  lemma LinkIsOneEntry(mem: Memory, root: nat, p: Path, i: Index, e: Entry)
    requires CanLink(mem, root, p, i, e)
    ensures var mem' := Link(mem, TableAt(mem, root, p).value, i, e);
            OneEntry(mem, mem', root, p + [i]) && EntryOn(mem', root, p + [i]) == e
  {
    assert OnlyPath(mem, root, p);
    forall q: Path | 1 <= |q| <= 4
      ensures EntryOn(Link(mem, TableAt(mem, root, p).value, i, e), root, q) == if q == p + [i] then e else EntryOn(mem, root, q)
    {
      LinkEntryOn(mem, root, p, i, e, q);
    }
  }

  lemma FlagsIsOneEntry(mem: Memory, root: nat, p: Path, i: Index, e: Entry)
    requires IsTree(mem, root) && |p| <= 2 && TableAt(mem, root, p).Some?
    requires e.frame == mem[TableAt(mem, root, p).value][i].frame
    requires IsLink(e) && IsLink(mem[TableAt(mem, root, p).value][i])
    ensures var mem' := SetEntry(mem, TableAt(mem, root, p).value, i, e);
            OneEntry(mem, mem', root, p + [i]) && EntryOn(mem', root, p + [i]) == e
  {
    assert OnlyPath(mem, root, p);
    forall q: Path | 1 <= |q| <= 4
      ensures EntryOn(SetEntry(mem, TableAt(mem, root, p).value, i, e), root, q) == if q == p + [i] then e else EntryOn(mem, root, q)
    {
      FlagsEntryOn(mem, root, p, TableAt(mem, root, p).value, i, e, q);
    }
  }

  lemma LeafIsOneEntry(mem: Memory, root: nat, p: Path, i: Index, e: Entry)
    requires IsTree(mem, root) && |p| == 3 && TableAt(mem, root, p).Some?
    ensures var mem' := SetEntry(mem, TableAt(mem, root, p).value, i, e);
            OneEntry(mem, mem', root, p + [i]) && EntryOn(mem', root, p + [i]) == e
  {
    assert OnlyPath(mem, root, p);
    forall q: Path | 1 <= |q| <= 4
      ensures EntryOn(SetEntry(mem, TableAt(mem, root, p).value, i, e), root, q) == if q == p + [i] then e else EntryOn(mem, root, q)
    {
      LeafEntryOn(mem, root, p, TableAt(mem, root, p).value, i, e, q);
    }
  }

  predicate IsWritable(e: Entry)
  {
    e.flags & PAGE_RW != 0
  }

  /** The processor lets a page be written when every entry of its walk does. */
  ghost predicate Writable(mem: Memory, root: nat, path: Path)
    requires |path| == 4
  {
    var leaf := Walk(mem, root, path);
    leaf.Some? && leaf.value.level <= 4 && forall k | 1 <= k <= leaf.value.level :: IsWritable(EntryOn(mem, root, path[..k]))
  }

  predicate LetsWrite(e: Entry)
  {
    Present(e) ==> IsWritable(e)
  }

  /** The entries that there are above the last level let the page be written. */
  ghost predicate WayWritable(mem: Memory, root: nat, path: Path)
    requires |path| == 4
  {
    forall k | 1 <= k <= 3 :: LetsWrite(EntryOn(mem, root, path[..k]))
  }

  /** Along a path to a table every entry is a link. */
  lemma {:induction false} LinksOnWay(mem: Memory, root: nat, p: Path, k: nat)
    requires TableAt(mem, root, p).Some? && 1 <= k <= |p|
    ensures IsLink(EntryOn(mem, root, p[..k]))
  {
    var init := p[..|p| - 1];
    if k < |p| {
      LinksOnWay(mem, root, init, k);
      assert init[..k] == p[..k];
    } else {
      assert p[..k] == p;
    }
  }

  /** A large page is the present entry its walk ends in, and no table lies behind it. */
  lemma {:induction false} LargeEntries(mem: Memory, root: nat, p: Path, k: nat)
    requires LargeAt(mem, root, p).Some? && 1 <= k <= |p|
    ensures var leaf := LargeAt(mem, root, p).value;
            && 1 <= leaf.level <= |p|
            && (k < leaf.level ==> IsLink(EntryOn(mem, root, p[..k])))
            && (k == leaf.level ==> EntryOn(mem, root, p[..k]) == leaf.entry && Present(leaf.entry))
            && (k > leaf.level ==> EntryOn(mem, root, p[..k]) == EMPTY)
  {
    var init := p[..|p| - 1];
    if TableAt(mem, root, init).None? {
      assert p[..|p|] == p;
      LargeEntries(mem, root, init, if k < |p| then k else 1);
      assert k < |p| ==> init[..k] == p[..k];
    } else if k < |p| {
      LinksOnWay(mem, root, init, k);
      assert init[..k] == p[..k];
    } else {
      assert p[..k] == p;
    }
  }

  /** The entries of a walk, level by level. */
  lemma WalkEntries(mem: Memory, root: nat, path: Path, k: nat)
    requires |path| == 4 && Walk(mem, root, path).Some? && 1 <= k <= 4
    ensures var leaf := Walk(mem, root, path).value;
            && 1 <= leaf.level <= 4
            && (k <= leaf.level ==> Present(EntryOn(mem, root, path[..k])))
            && (k == leaf.level ==> EntryOn(mem, root, path[..k]) == leaf.entry)
            && (leaf.level < k <= 3 ==> EntryOn(mem, root, path[..k]) == EMPTY)
  {
    var p := path[..3];
    assert k <= 3 ==> p[..k] == path[..k];
    if TableAt(mem, root, p).Some? {
      assert path[..4] == path;
      if k <= 3 {
        LinksOnWay(mem, root, p, k);
      }
    } else {
      LargeEntries(mem, root, p, if k <= 3 then k else 1);
    }
  }

  /** A page can be written exactly when it is mapped, the entries above the last level let it be, and so does its own. */
  lemma WritableIff(mem: Memory, root: nat, path: Path)
    requires |path| == 4
    ensures Writable(mem, root, path) <==>
              && Walk(mem, root, path).Some? && WayWritable(mem, root, path)
              && (Walk(mem, root, path).value.level == 4 ==> IsWritable(Walk(mem, root, path).value.entry))
  {
    if Walk(mem, root, path).Some? {
      WalkEntries(mem, root, path, 1);
      WalkEntries(mem, root, path, 2);
      WalkEntries(mem, root, path, 3);
      WalkEntries(mem, root, path, 4);
    }
  }

  ghost predicate SameWays(mem: Memory, mem': Memory, root: nat)
  {
    forall q: Path | |q| == 4 :: WayWritable(mem', root, q) <==> WayWritable(mem, root, q)
  }

  /** What mapping a page with `flags` makes of an entry on the way: an existing one gets the caching bits, a new one
      is present, writable and has the caching bits. */
  predicate LevelBuilt(e: Entry, e': Entry, flags: bv64)
  {
    if Present(e) then e' == Entry(e.frame, e.flags | (flags & CACHING))
    else e'.flags == PAGE_PRESENT | PAGE_RW | (flags & CACHING)
  }

  /** The first `n` entries on the way are built; no other entry changed. */
  ghost predicate WayBuilt(mem: Memory, mem': Memory, root: nat, path: Path, n: nat, flags: bv64)
    requires |path| == 4
  {
    forall q: Path | 1 <= |q| <= 4 ::
      if |q| <= n && q == path[..|q|] then LevelBuilt(EntryOn(mem, root, q), EntryOn(mem', root, q), flags)
      else EntryOn(mem', root, q) == EntryOn(mem, root, q)
  }

  /** The page's way is built and its own entry is `leaf`; no other entry of any table changed. */
  ghost predicate PageBuilt(mem: Memory, mem': Memory, root: nat, path: Path, flags: bv64, leaf: Entry)
    requires |path| == 4
  {
    forall q: Path | 1 <= |q| <= 4 ::
      if q == path then EntryOn(mem', root, q) == leaf
      else if q == path[..|q|] then LevelBuilt(EntryOn(mem, root, q), EntryOn(mem', root, q), flags)
      else EntryOn(mem', root, q) == EntryOn(mem, root, q)
  }

  lemma WayExtends(mem: Memory, mem': Memory, mem'': Memory, root: nat, path: Path, n: nat, flags: bv64)
    requires |path| == 4 && n < 3 && WayBuilt(mem, mem', root, path, n, flags) && OneEntry(mem', mem'', root, path[..n + 1])
    requires LevelBuilt(EntryOn(mem', root, path[..n + 1]), EntryOn(mem'', root, path[..n + 1]), flags)
    ensures WayBuilt(mem, mem'', root, path, n + 1, flags)
  {
  }

  lemma WayEnds(mem: Memory, mem': Memory, mem'': Memory, root: nat, path: Path, flags: bv64, leaf: Entry)
    requires |path| == 4 && WayBuilt(mem, mem', root, path, 3, flags) && OneEntry(mem', mem'', root, path)
    requires EntryOn(mem'', root, path) == leaf
    ensures PageBuilt(mem, mem'', root, path, flags, leaf)
  {
    assert path[..4] == path;
  }

  /** Neither what is built on the way nor a leaf changes whether the levels above a page let it be written. */
  lemma BuiltKeepsWritable(e: Entry, e': Entry, flags: bv64)
    requires LevelBuilt(e, e', flags)
    ensures LetsWrite(e') <==> LetsWrite(e)
  {
    NewEntryLinks(flags);
    CachingKeepsLink(e.flags, flags);
  }

  lemma BuildingLetsWrite(mem: Memory, mem': Memory, root: nat, path: Path, n: nat, flags: bv64, r: Path)
    requires |path| == 4 && WayBuilt(mem, mem', root, path, n, flags) && 1 <= |r| <= 3
    ensures LetsWrite(EntryOn(mem', root, r)) <==> LetsWrite(EntryOn(mem, root, r))
  {
    if |r| <= n && r == path[..|r|] {
      BuiltKeepsWritable(EntryOn(mem, root, r), EntryOn(mem', root, r), flags);
    }
  }

  lemma BuildingKeepsWays(mem: Memory, mem': Memory, root: nat, path: Path, n: nat, flags: bv64)
    requires |path| == 4 && WayBuilt(mem, mem', root, path, n, flags)
    ensures SameWays(mem, mem', root)
  {
    forall r: Path | 1 <= |r| <= 3
      ensures LetsWrite(EntryOn(mem', root, r)) <==> LetsWrite(EntryOn(mem, root, r))
    {
      BuildingLetsWrite(mem, mem', root, path, n, flags, r);
    }
  }

  lemma LeafKeepsWays(mem: Memory, mem': Memory, root: nat, path: Path)
    requires |path| == 4 && OneEntry(mem, mem', root, path)
    ensures SameWays(mem, mem', root)
  {
  }

  /** Whether a page can be written is as before, for every page but the one at `path`. */
  ghost predicate OthersWritable(mem: Memory, mem': Memory, root: nat, path: Path)
  {
    forall q: Path | |q| == 4 && q != path :: Writable(mem', root, q) <==> Writable(mem, root, q)
  }

  lemma SameWritable(mem: Memory, mem': Memory, root: nat, q: Path)
    requires SameWays(mem, mem', root) && |q| == 4 && Walk(mem', root, q) == Walk(mem, root, q)
    ensures Writable(mem', root, q) <==> Writable(mem, root, q)
  {
    WritableIff(mem, root, q);
    WritableIff(mem', root, q);
  }

  /** One more level of the way was found or built. */
  ghost predicate LevelDone(mem: Memory, mem': Memory, root: nat, r: Path, flags: bv64)
    requires r != []
  {
    Grown(mem, mem', root, r) && OneEntry(mem, mem', root, r) && LevelBuilt(EntryOn(mem, root, r), EntryOn(mem', root, r), flags)
  }

  lemma LinkBuilds(mem: Memory, root: nat, p: Path, t: nat, i: Index, e: Entry, flags: bv64)
    requires IsTree(mem, root) && |p| <= 2 && TableAt(mem, root, p) == Some(t) && !Present(mem[t][i]) && e.frame !in mem
    requires e == NewLink(e.frame, flags)
    ensures var mem' := Link(mem, t, i, e);
            IsTree(mem', root) && LevelDone(mem, mem', root, p + [i], flags) && TableAt(mem', root, p + [i]) == Some(e.frame)
  {
    EntrySplit(mem, root, p, i);
    LinkGrows(mem, root, p, i, e);
    LinkIsOneEntry(mem, root, p, i, e);
  }

  lemma FlagsBuild(mem: Memory, root: nat, p: Path, t: nat, i: Index, e: Entry, flags: bv64)
    requires IsTree(mem, root) && |p| <= 2 && TableAt(mem, root, p) == Some(t) && IsLink(mem[t][i])
    requires e == Flagged(mem[t][i], flags)
    ensures var mem' := SetEntry(mem, t, i, e);
            && IsTree(mem', root) && LevelDone(mem, mem', root, p + [i], flags)
            && TableAt(mem', root, p + [i]) == TableAt(mem, root, p + [i]) == Some(e.frame)
  {
    EntrySplit(mem, root, p, i);
    FlagsGrow(mem, root, p, i, e);
    FlagsIsOneEntry(mem, root, p, i, e);
  }

  /** The entry that map_page writes for a new table, and the one it leaves for an existing one. */
  function NewLink(frame: nat, flags: bv64): (e: Entry)
    ensures IsLink(e) && IsWritable(e) && e.frame == frame
  {
    NewEntryLinks(flags);
    Entry(frame, PAGE_PRESENT | PAGE_RW | (flags & CACHING))
  }

  function Flagged(was: Entry, flags: bv64): (e: Entry)
    ensures e.frame == was.frame && (IsLink(was) ==> IsLink(e)) && (IsWritable(e) <==> IsWritable(was))
  {
    CachingKeepsLink(was.flags, flags);
    Entry(was.frame, was.flags | (flags & CACHING))
  }
}
