/** mm.c: map_page and mmio_remap, on top of the frame allocator and the page-table tree. */
module VirtualMemory {
  import opened Wrappers
  import opened FramePool
  import opened FrameAllocator
  import opened PageTables

  const TWO_36: nat := 0x10_0000_0000
  const TWO_52: nat := 0x10_0000_0000_0000
  const MMIO_BASE: nat := 0xFFFF_FFFF_8000_0000
  /** Where the kernel image is linked. */
  const KERNEL_BASE: nat := 0xFFFF_FFFF_8020_0000
  const PADDR_MASK: bv64 := 0x000F_FFFF_FFFF_F000
  const MMIO_FLAGS: bv64 := 0x13
  const MAX_WINDOW_PAGES: nat := 64

  /** The four 9-bit table indices of a virtual address. */
  function PathOf(virt: nat): (p: Path)
    ensures |p| == 4
  {
    [virt / 0x80_0000_0000 % 512, virt / 0x4000_0000 % 512, virt / 0x20_0000 % 512, virt / 0x1000 % 512]
  }

  /** The four indices are the base-512 digits of the page number's low 36 bits. */
  lemma PageNumberDigits(v: nat)
    ensures var p := PathOf(v);
            v / PAGE_SIZE % TWO_36 == p[0] as int * 0x800_0000 + p[1] as int * 0x4_0000 + p[2] as int * 512 + p[3] as int
  {
    var n := v / PAGE_SIZE;
    var n1 := n / 512;
    var n2 := n1 / 512;
    var n3 := n2 / 512;
    assert v / 0x20_0000 == n1 && v / 0x4000_0000 == n2 && v / 0x80_0000_0000 == n3;
    var low := n3 % 512 * 0x800_0000 + n2 % 512 * 0x4_0000 + n1 % 512 * 512 + n % 512;
    assert n == n3 / 512 * TWO_36 + low;
    ModOf(n, n3 / 512, low);
  }

  lemma ModOf(n: nat, q: nat, r: nat)
    requires n == q * TWO_36 + r && r < TWO_36
    ensures n % TWO_36 == r
  {
  }

  /** Two addresses share their four indices exactly when bits 12 to 47 agree. */
  lemma PathIsPageNumber(v: nat, w: nat)
    ensures PathOf(v) == PathOf(w) <==> v / PAGE_SIZE % TWO_36 == w / PAGE_SIZE % TWO_36
  {
    PageNumberDigits(v);
    PageNumberDigits(w);
    var p, q := PathOf(v), PathOf(w);
    if v / PAGE_SIZE % TWO_36 == w / PAGE_SIZE % TWO_36 {
      SameDigits(p[0], p[1], p[2], p[3], q[0], q[1], q[2], q[3]);
    }
  }

  lemma SameDigits(a: Index, b: Index, c: Index, d: Index, a': Index, b': Index, c': Index, d': Index)
    requires a as int * 0x800_0000 + b as int * 0x4_0000 + c as int * 512 + d as int
          == a' as int * 0x800_0000 + b' as int * 0x4_0000 + c' as int * 512 + d' as int
    ensures a == a' && b == b' && c == c' && d == d'
  {
  }

  function LevelCost(mem: Memory, root: nat, path: Path): nat
  {
    if TableAt(mem, root, path).Some? then 0 else 1
  }

  /** The tables missing on the way to the page at `path`: how many frames mapping it takes. */
  function Missing(mem: Memory, root: nat, path: Path): nat
    requires |path| == 4
  {
    LevelCost(mem, root, path[..1]) + LevelCost(mem, root, path[..2]) + LevelCost(mem, root, path[..3])
  }

  lemma GrownKeeps(mem: Memory, mem': Memory, root: nat, p: Path, q: Path)
    requires Grown(mem, mem', root, p) && |q| <= 3 && q != p
    ensures LevelCost(mem', root, q) == LevelCost(mem, root, q) && SameWalks(mem, mem', root)
  {
  }

  ghost predicate SameWalks(mem: Memory, mem': Memory, root: nat)
  {
    forall q: Path | |q| == 4 :: Walk(mem', root, q) == Walk(mem, root, q)
  }

  /** The page at `path` now ends in `leaf`; every other page ends where it did. */
  ghost predicate Remapped(mem: Memory, mem': Memory, root: nat, path: Path, leaf: Entry)
  {
    forall q: Path | |q| == 4 ::
      Walk(mem', root, q) == if q != path then Walk(mem, root, q) else if Present(leaf) then Some(Leaf(leaf, 4)) else None
  }

  /** How many bytes an entry maps that ends the walk at `level`: 4 KB, 2 MB, 1 GB. */
  function Span(level: nat): (size: nat)
    ensures size > 0
  {
    if level == 4 then PAGE_SIZE else if level == 3 then 0x20_0000 else if level == 2 then 0x4000_0000 else 0x80_0000_0000
  }

  /** The physical address that the processor's walk gives a virtual one. */
  function Translate(mem: Memory, root: nat, virt: nat): Option<nat>
  {
    match Walk(mem, root, PathOf(virt))
    case None => None
    case Some(leaf) =>
      var size := Span(leaf.level);
      Some(leaf.entry.frame * PAGE_SIZE / size * size + virt % size)
  }

  /** A run of pages of one mmio_remap call: `pages` pages from `virt` lead to the frames from `frame` on. */
  datatype Window = Window(virt: nat, pages: nat, frame: nat)

  ghost predicate Mapped(mem: Memory, root: nat, w: Window)
  {
    MappedUpTo(mem, root, w, w.pages)
  }

  ghost predicate MappedUpTo(mem: Memory, root: nat, w: Window, n: nat)
  {
    forall i: nat | i < n :: PageMapped(mem, root, w, i)
  }

  ghost predicate PageMapped(mem: Memory, root: nat, w: Window, i: nat)
  {
    Walk(mem, root, PathOf(w.virt + i * PAGE_SIZE)) == Some(Leaf(Entry(w.frame + i, MMIO_FLAGS), 4))
  }

  predicate InWindow(w: Window, n: nat, q: Path)
  {
    exists i | 0 <= i < n :: q == PathOf(w.virt + i * PAGE_SIZE)
  }

  /** No page but the first `n` of the window changed its walk. */
  ghost predicate OnlyWindow(mem: Memory, mem': Memory, root: nat, w: Window, n: nat)
  {
    forall q: Path | |q| == 4 :: Walk(mem', root, q) == Walk(mem, root, q) || InWindow(w, n, q)
  }

  /** No page but this one changed its walk. */
  ghost predicate OnlyPage(mem: Memory, mem': Memory, root: nat, path: Path)
  {
    forall q: Path | |q| == 4 && q != path :: Walk(mem', root, q) == Walk(mem, root, q)
  }

  /** From page `n` on the window's pages lie on no large page. */
  ghost predicate OffLargePages(mem: Memory, root: nat, w: Window, n: nat)
  {
    forall i | n <= i < w.pages :: !OnLargePage(mem, root, PathOf(w.virt + i * PAGE_SIZE))
  }

  /** The windows lie one after the other between the start of the region and `next`. */
  ghost predicate Stacked(windows: seq<Window>, next: nat)
  {
    && MMIO_BASE <= next <= TWO_64 && next % PAGE_SIZE == 0
    && (forall i | 0 <= i < |windows| ::
          MMIO_BASE <= windows[i].virt && windows[i].virt + windows[i].pages * PAGE_SIZE <= next
          && windows[i].virt % PAGE_SIZE == 0)
    && (forall i, j | 0 <= i < j < |windows| :: windows[i].virt + windows[i].pages * PAGE_SIZE <= windows[j].virt)
  }

  ghost predicate AllMapped(mem: Memory, root: nat, windows: seq<Window>)
  {
    forall i | 0 <= i < |windows| :: Mapped(mem, root, windows[i])
  }

  lemma InWindowGrows(w: Window, n: nat, q: Path)
    ensures InWindow(w, n + 1, q) <==> InWindow(w, n, q) || q == PathOf(w.virt + n * PAGE_SIZE)
  {
  }

  lemma OnlyWindowGrows(mem: Memory, mem': Memory, mem'': Memory, root: nat, w: Window, n: nat, virt: nat)
    requires OnlyWindow(mem, mem', root, w, n) && OnlyPage(mem', mem'', root, PathOf(virt)) && virt == w.virt + n * PAGE_SIZE
    ensures OnlyWindow(mem, mem'', root, w, n + 1)
  {
    forall q: Path | |q| == 4
      ensures Walk(mem'', root, q) == Walk(mem, root, q) || InWindow(w, n + 1, q)
    {
      InWindowGrows(w, n, q);
    }
  }

  lemma OffLargePagesKept(mem: Memory, mem': Memory, root: nat, w: Window, n: nat, virt: nat)
    requires OffLargePages(mem, root, w, n) && OnlyPage(mem, mem', root, PathOf(virt)) && virt == w.virt + n * PAGE_SIZE && n < w.pages
    requires MMIO_BASE <= w.virt && w.virt % PAGE_SIZE == 0 && w.virt + w.pages * PAGE_SIZE <= TWO_64
    ensures OffLargePages(mem', root, w, n + 1)
  {
    forall i | n + 1 <= i < w.pages
      ensures !OnLargePage(mem', root, PathOf(w.virt + i * PAGE_SIZE))
    {
      MmioPathsDiffer(w.virt + i * PAGE_SIZE, virt);
      assert !OnLargePage(mem, root, PathOf(w.virt + i * PAGE_SIZE));
    }
  }

  /** Pages at or above the end of a window keep their walks. */
  lemma AboveWindowKept(mem: Memory, mem': Memory, root: nat, w: Window, v: nat)
    requires OnlyWindow(mem, mem', root, w, w.pages) && MMIO_BASE <= w.virt && w.virt % PAGE_SIZE == 0
    requires w.virt + w.pages * PAGE_SIZE <= v < TWO_64
    ensures Walk(mem', root, PathOf(v)) == Walk(mem, root, PathOf(v))
  {
    if InWindow(w, w.pages, PathOf(v)) {
      var i :| 0 <= i < w.pages && PathOf(v) == PathOf(w.virt + i * PAGE_SIZE);
      MmioPathsDiffer(v, w.virt + i * PAGE_SIZE);
    }
  }

  /** The page of the window that the start of the kernel image falls on. */
  function KernelPage(w: Window): (i: nat)
    requires w.virt <= KERNEL_BASE
    ensures w.virt % PAGE_SIZE == 0 ==> w.virt + i * PAGE_SIZE == KERNEL_BASE
  {
    (KERNEL_BASE - w.virt) / PAGE_SIZE
  }

  /** A complete window that starts below the kernel image leaves the image mapped as it was if and only if it
      ends at or below it (unless the image's first page was that device page before). */
  lemma KernelKeptIff(mem: Memory, mem': Memory, root: nat, w: Window)
    requires OnlyWindow(mem, mem', root, w, w.pages) && Mapped(mem', root, w)
    requires MMIO_BASE <= w.virt <= KERNEL_BASE && w.virt % PAGE_SIZE == 0
    requires Walk(mem, root, PathOf(KERNEL_BASE)) != Some(Leaf(Entry(w.frame + KernelPage(w), MMIO_FLAGS), 4))
    ensures (forall v | KERNEL_BASE <= v < TWO_64 :: Walk(mem', root, PathOf(v)) == Walk(mem, root, PathOf(v)))
       <==> w.virt + w.pages * PAGE_SIZE <= KERNEL_BASE
  {
    if w.virt + w.pages * PAGE_SIZE <= KERNEL_BASE {
      forall v | KERNEL_BASE <= v < TWO_64
        ensures Walk(mem', root, PathOf(v)) == Walk(mem, root, PathOf(v))
      {
        AboveWindowKept(mem, mem', root, w, v);
      }
    } else {
      KernelPageWalk(mem', root, w, KernelPage(w));
    }
  }

  lemma KernelPageWalk(mem: Memory, root: nat, w: Window, i: nat)
    requires Mapped(mem, root, w) && w.virt + i * PAGE_SIZE == KERNEL_BASE < w.virt + w.pages * PAGE_SIZE
    ensures Walk(mem, root, PathOf(KERNEL_BASE)) == Some(Leaf(Entry(w.frame + i, MMIO_FLAGS), 4))
  {
    assert PageMapped(mem, root, w, i);
  }

  /** The crossing call does happen: 8 windows of 64 pages reach the image, and the next one lands on it. */
  lemma KernelPageLost(mem': Memory, root: nat, w: Window)
    requires Mapped(mem', root, w) && w.pages > 0 && w.virt == MMIO_BASE + 8 * MAX_WINDOW_PAGES * PAGE_SIZE
    ensures w.virt == KERNEL_BASE && Translate(mem', root, KERNEL_BASE) == Some(w.frame * PAGE_SIZE)
  {
    WindowTranslates(mem', root, w, 0);
  }

  /** After mm_init no free low frame holds a boot table if and only if the memory map made none available. */
  lemma TablesAreSafeIff(entries: seq<MemmapEntry>, placement: nat, mem: Memory)
    ensures Clear(RamPools(entries, placement).low, mem)
       <==> (forall f | f in mem && f < LOW_FRAMES :: !Available(entries, placement, f))
  {
    assert forall f: nat :: f in RamPools(entries, placement).low <==> f < LOW_FRAMES && Available(entries, placement, f);
  }

  /** A boot table in reclaimable memory, where the loader keeps its own, is made available like any other frame. */
  lemma ReclaimableTableIsFreed(entries: seq<MemmapEntry>, placement: nat, k: nat, f: nat)
    requires k < |entries| && entries[k].kind == LIMINE_MEMMAP_BOOTLOADER_RECLAIMABLE && Inside(entries[k], f)
    requires 0 < f < LOW_FRAMES && !Reserved(placement, f * PAGE_SIZE)
    ensures f in RamPools(entries, placement).low
  {
    assert Available(entries, placement, f);
  }

  lemma MmioPathsDiffer(v: nat, w: nat)
    requires MMIO_BASE <= v < TWO_64 && MMIO_BASE <= w < TWO_64 && v / PAGE_SIZE != w / PAGE_SIZE
    ensures PathOf(v) != PathOf(w)
  {
    PathIsPageNumber(v, w);
    ModOf(v / PAGE_SIZE, 0xFFFF, v / PAGE_SIZE - 0xFFFF * TWO_36);
    ModOf(w / PAGE_SIZE, 0xFFFF, w / PAGE_SIZE - 0xFFFF * TWO_36);
  }

  /** A change of the walk of one page at or above `next` leaves the windows below alone. */
  lemma WindowsKept(mem: Memory, mem': Memory, root: nat, windows: seq<Window>, next: nat, virt: nat, leaf: Entry)
    requires Stacked(windows, next) && AllMapped(mem, root, windows)
    requires next <= virt < TWO_64
    requires Remapped(mem, mem', root, PathOf(virt), leaf)
    ensures AllMapped(mem', root, windows)
  {
    forall k, i: nat | 0 <= k < |windows| && i < windows[k].pages
      ensures PageMapped(mem', root, windows[k], i)
    {
      assert Mapped(mem, root, windows[k]);
      assert PageMapped(mem, root, windows[k], i);
      MmioPathsDiffer(windows[k].virt + i * PAGE_SIZE, virt);
    }
  }

  /** The number of pages mmio_remap maps; the 64-bit sum of size, offset and rounding can wrap. */
  function PagesNeeded(physicalAddr: nat, size: nat): nat
  {
    var pages := (size + physicalAddr % PAGE_SIZE + PAGE_SIZE - 1) % TWO_64 / PAGE_SIZE;
    if pages == 0 then 1 else if pages > MAX_WINDOW_PAGES then MAX_WINDOW_PAGES else pages
  }

  /** A window has no page to spare: the last one holds a requested byte, and unless the window was capped at 64 pages
      no requested byte lies behind it. A request for no bytes gets one page. */
  lemma WindowIsTight(physicalAddr: nat, size: nat)
    requires size + 2 * 4096 <= TWO_64
    ensures var n, end := PagesNeeded(physicalAddr, size), physicalAddr % 4096 + size;
            && (size > 0 ==> 1 <= n <= 64 && (n - 1) * 4096 < end && (n == 64 || end <= n * 4096))
            && (size == 0 ==> n == 1)
  {
    var end := physicalAddr % PAGE_SIZE + size;
    assert (size + physicalAddr % PAGE_SIZE + PAGE_SIZE - 1) % TWO_64 == end + PAGE_SIZE - 1;
  }

  /** The window of a call for a high address. */
  function WindowFor(next: nat, physicalAddr: nat, size: nat): Window
  {
    Window(next, PagesNeeded(physicalAddr, size), physicalAddr / PAGE_SIZE)
  }

  /** One more page of a window. */
  lemma WindowGrows(mem: Memory, mem': Memory, root: nat, w: Window, n: nat, virt: nat, leaf: Entry)
    requires MMIO_BASE <= w.virt && virt < TWO_64 && w.virt % PAGE_SIZE == 0 && virt == w.virt + n * PAGE_SIZE
    requires MappedUpTo(mem, root, w, n)
    requires Remapped(mem, mem', root, PathOf(virt), leaf) && leaf == Entry(w.frame + n, MMIO_FLAGS)
    ensures MappedUpTo(mem', root, w, n + 1)
  {
    MmioFlagsPresent();
    assert PageMapped(mem', root, w, n);
    forall i: nat | i < n
      ensures PageMapped(mem', root, w, i)
    {
      assert PageMapped(mem, root, w, i);
      MmioPathsDiffer(w.virt + i * PAGE_SIZE, virt);
    }
  }

  lemma NothingRemapped(mem: Memory, mem': Memory, root: nat, windows: seq<Window>)
    requires SameWalks(mem, mem', root) && AllMapped(mem, root, windows)
    ensures AllMapped(mem', root, windows)
  {
    forall k, i: nat | 0 <= k < |windows| && i < windows[k].pages
      ensures PageMapped(mem', root, windows[k], i)
    {
      assert Mapped(mem, root, windows[k]) && PageMapped(mem, root, windows[k], i);
    }
  }

  lemma StackedGrows(windows: seq<Window>, w: Window, next: nat)
    requires Stacked(windows, w.virt) && next == w.virt + w.pages * PAGE_SIZE <= TWO_64
    ensures Stacked(windows, next) && Stacked(windows + [w], next)
  {
  }

  lemma MappedGrows(mem: Memory, root: nat, windows: seq<Window>, w: Window)
    requires AllMapped(mem, root, windows) && Mapped(mem, root, w)
    ensures AllMapped(mem, root, windows + [w])
  {
  }

  lemma SamePage(v: nat, w: nat)
    requires v / PAGE_SIZE == w / PAGE_SIZE
    ensures PathOf(v) == PathOf(w)
  {
    PathIsPageNumber(v, w);
  }

  lemma PlaceInWindow(virt: nat, k: nat, i: nat)
    requires virt % PAGE_SIZE == 0 && i == k / PAGE_SIZE
    ensures (virt + k) / PAGE_SIZE == (virt + i * PAGE_SIZE) / PAGE_SIZE
    ensures (virt + k) % PAGE_SIZE == k % PAGE_SIZE && k == i * PAGE_SIZE + k % PAGE_SIZE
  {
  }

  lemma TranslateSmall(mem: Memory, root: nat, virt: nat, entry: Entry)
    requires Walk(mem, root, PathOf(virt)) == Some(Leaf(entry, 4))
    ensures Translate(mem, root, virt) == Some(entry.frame * PAGE_SIZE + virt % PAGE_SIZE)
  {
    assert Span(4) == PAGE_SIZE;
  }

  /** The bytes of a complete window translate to consecutive physical addresses. */
  lemma WindowTranslates(mem: Memory, root: nat, w: Window, k: nat)
    requires Mapped(mem, root, w) && k < w.pages * PAGE_SIZE && w.virt % PAGE_SIZE == 0
    ensures Translate(mem, root, w.virt + k) == Some(w.frame * PAGE_SIZE + k)
  {
    var i := k / PAGE_SIZE;
    PlaceInWindow(w.virt, k, i);
    assert PageMapped(mem, root, w, i);
    SamePage(w.virt + k, w.virt + i * PAGE_SIZE);
    TranslateSmall(mem, root, w.virt + k, Entry(w.frame + i, MMIO_FLAGS));
  }

  /** What a driver relies on: in any later state in which the window of a call is on record, byte `k` of
      the pointer that mmio_remap returned is byte `k` of the device, up to the cap of 64 pages. */
  lemma WindowServesDevice(mem: Memory, root: nat, w: Window, physicalAddr: nat, size: nat, k: nat)
    requires Mapped(mem, root, w) && w.virt % PAGE_SIZE == 0
    requires w.pages == PagesNeeded(physicalAddr, size) && w.frame == physicalAddr / PAGE_SIZE
    requires k < size && k + physicalAddr % PAGE_SIZE < MAX_WINDOW_PAGES * PAGE_SIZE && size + 2 * PAGE_SIZE <= TWO_64
    ensures Translate(mem, root, w.virt + physicalAddr % PAGE_SIZE + k) == Some(physicalAddr + k)
  {
    WindowTranslates(mem, root, w, physicalAddr % PAGE_SIZE + k);
  }

  /** A walk that met no large page finds no large entry in the tables on its way. */
  lemma NoLargeEntry(mem: Memory, root: nat, path: Path, k: nat, t: nat)
    requires |path| == 4 && k < 3 && TableAt(mem, root, path[..k]) == Some(t) && IsTable(mem, t)
    requires !OnLargePage(mem, root, path)
    ensures Present(mem[t][path[k]]) ==> IsLink(mem[t][path[k]])
  {
    if Present(mem[t][path[k]]) && Large(mem[t][path[k]]) {
      LargeEndsWalk(mem, root, path, k);
    }
  }

  lemma MmioFlagsPresent()
    ensures MMIO_FLAGS == PAGE_PRESENT | PAGE_RW | PAGE_PCD
    ensures MMIO_FLAGS & PAGE_PRESENT != 0 && MMIO_FLAGS & PADDR_MASK == 0
  {
  }

  lemma CachingIdempotent(flags: bv64)
    ensures flags & CACHING == (flags & CACHING) & CACHING
  {
  }

  /** A page with such an entry can be written exactly when the entries above it let it be. */
  lemma MappedWritableIff(mem: Memory, root: nat, path: Path, leaf: Entry)
    requires |path| == 4 && Walk(mem, root, path) == if Present(leaf) then Some(Leaf(leaf, 4)) else None
    ensures Writable(mem, root, path) <==> Present(leaf) && IsWritable(leaf) && WayWritable(mem, root, path)
  {
    WritableIff(mem, root, path);
  }

  /** Every page of a complete window can be written exactly when the entries above it let it be. */
  lemma WindowWritableIff(mem: Memory, root: nat, w: Window, i: nat)
    requires Mapped(mem, root, w) && i < w.pages
    ensures Writable(mem, root, PathOf(w.virt + i * PAGE_SIZE)) <==> WayWritable(mem, root, PathOf(w.virt + i * PAGE_SIZE))
  {
    MmioFlagsPresent();
    assert PageMapped(mem, root, w, i);
    MappedWritableIff(mem, root, PathOf(w.virt + i * PAGE_SIZE), Entry(w.frame + i, MMIO_FLAGS));
  }

  /** So it can where the boot loader left no table on the way. */
  lemma NoTableIsWritable(mem: Memory, root: nat, path: Path)
    requires |path| == 4 && forall k | 1 <= k <= 3 :: !Present(EntryOn(mem, root, path[..k]))
    ensures WayWritable(mem, root, path)
  {
  }

  lemma SameWaysTransitive(mem: Memory, mem': Memory, mem'': Memory, root: nat)
    requires SameWays(mem, mem', root) && SameWays(mem', mem'', root)
    ensures SameWays(mem, mem'', root)
  {
  }

  /** Pages outside a window can be written or not as before. */
  lemma OutsideWritable(mem: Memory, mem': Memory, root: nat, w: Window, q: Path)
    requires OnlyWindow(mem, mem', root, w, w.pages) && SameWays(mem, mem', root) && |q| == 4 && !InWindow(w, w.pages, q)
    ensures Writable(mem', root, q) <==> Writable(mem, root, q)
  {
    WritableIff(mem, root, q);
    WritableIff(mem', root, q);
  }

  /** In every reachable state (Valid() gives the two premises) each page of each window on record can be written
      exactly when the tables that the boot loader left on its way let it be; those made since do. */
  lemma WindowsWritable(boot: Memory, mem: Memory, root: nat, windows: seq<Window>, k: nat, i: nat)
    requires AllMapped(mem, root, windows) && SameWays(boot, mem, root) && k < |windows| && i < windows[k].pages
    ensures var path := PathOf(windows[k].virt + i * PAGE_SIZE);
            Writable(mem, root, path) <==> WayWritable(boot, root, path)
  {
    WindowWritableIff(mem, root, windows[k], i);
  }

  /** The frames that the first `k` levels on the way take. */
  function CostTo(mem: Memory, root: nat, path: Path, k: nat): nat
    requires k <= |path|
  {
    if k == 0 then 0 else CostTo(mem, root, path, k - 1) + LevelCost(mem, root, path[..k])
  }

  lemma CostIsMissing(mem: Memory, root: nat, path: Path)
    requires |path| == 4
    ensures Missing(mem, root, path) == CostTo(mem, root, path, 3)
    ensures forall k | 0 <= k <= 3 :: CostTo(mem, root, path, k) <= Missing(mem, root, path)
  {
    assert CostTo(mem, root, path, 1) == LevelCost(mem, root, path[..1]);
    assert CostTo(mem, root, path, 2) == CostTo(mem, root, path, 1) + LevelCost(mem, root, path[..2]);
    assert CostTo(mem, root, path, 3) == CostTo(mem, root, path, 2) + LevelCost(mem, root, path[..3]);
  }

  /** The walk down stands at table `t` after `k` levels; the levels below are as they were at the start. */
  ghost predicate Reached(m0: Memory, mem: Memory, root: nat, path: Path, k: nat, t: nat, flags: bv64)
    requires |path| == 4
  {
    && k <= 3 && WayBuilt(m0, mem, root, path, k, flags) && SameWalks(m0, mem, root)
    && TableAt(mem, root, path[..k]) == Some(t)
    && forall j | k < j <= 3 :: LevelCost(mem, root, path[..j]) == LevelCost(m0, root, path[..j])
  }

  lemma ReachedStarts(mem: Memory, root: nat, path: Path, flags: bv64)
    requires |path| == 4
    ensures Reached(mem, mem, root, path, 0, root, flags)
  {
    assert path[..0] == [];
  }

  /** The level that comes next costs what it would have at the start, and its entry is no large page. */
  lemma DescendsTo(m0: Memory, mem: Memory, root: nat, path: Path, k: nat, t: nat, flags: bv64, r: Path)
    requires |path| == 4 && k < 3 && Reached(m0, mem, root, path, k, t, flags) && r == path[..k + 1]
    requires !OnLargePage(m0, root, path) && IsTable(mem, t)
    ensures r == path[..k] + [path[k]] && LevelCost(mem, root, r) == LevelCost(m0, root, r)
    ensures CostTo(m0, root, path, k + 1) == CostTo(m0, root, path, k) + LevelCost(m0, root, r)
    ensures Present(mem[t][path[k]]) ==> IsLink(mem[t][path[k]])
  {
    NoLargeEntry(mem, root, path, k, t);
  }

  lemma ReachedNext(m0: Memory, m1: Memory, m2: Memory, root: nat, path: Path, k: nat, t: nat, flags: bv64, next: nat, r: Path)
    requires |path| == 4 && k < 3 && Reached(m0, m1, root, path, k, t, flags) && r == path[..k + 1]
    requires LevelDone(m1, m2, root, r, flags) && TableAt(m2, root, r) == Some(next)
    ensures Reached(m0, m2, root, path, k + 1, next, flags)
  {
    WayExtends(m0, m1, m2, root, path, k, flags);
    forall j | k + 1 < j <= 3
      ensures LevelCost(m2, root, path[..j]) == LevelCost(m0, root, path[..j])
    {
      GrownKeeps(m1, m2, root, r, path[..j]);
    }
  }

  /** What a successful map_page does: the page ends in `leaf`, its way is built, and it can be written if the entry says so
      and the tables that were there let it be. Nothing else about any page changes. */
  ghost predicate NewMapping(mem: Memory, mem': Memory, root: nat, path: Path, flags: bv64, leaf: Entry)
    requires |path| == 4
  {
    && Remapped(mem, mem', root, path, leaf) && PageBuilt(mem, mem', root, path, flags, leaf)
    && SameWays(mem, mem', root) && OthersWritable(mem, mem', root, path)
    && (Writable(mem', root, path) <==> Present(leaf) && IsWritable(leaf) && WayWritable(mem, root, path))
  }

  lemma CachingBits(e: bv64, flags: bv64, bit: bv64)
    requires bit == 0x08 || bit == 0x10
    ensures (e | (flags & CACHING)) & bit == (e | flags) & bit
    ensures (PAGE_PRESENT | PAGE_RW | (flags & CACHING)) & bit == flags & bit
    ensures flags & bit != 0 ==> (e | flags) & bit != 0
  {
  }

  /** A page that is mapped write-through (0x08) or uncached (0x10) is so at all four levels. */
  lemma CachedAtEveryLevel(mem: Memory, mem': Memory, root: nat, path: Path, flags: bv64, leaf: Entry, k: nat, bit: bv64)
    requires |path| == 4 && NewMapping(mem, mem', root, path, flags, leaf) && leaf.flags == flags
    requires 1 <= k <= 4 && (bit == 0x08 || bit == 0x10) && flags & bit != 0
    ensures EntryOn(mem', root, path[..k]).flags & bit != 0
  {
    var q := path[..k];
    assert path[..4] == path;
    CachingBits(EntryOn(mem, root, q).flags, flags, bit);
    assert |q| == k && q == path[..|q|];
  }

  /** What an unsuccessful one does: some levels may be built, but no page's walk or permission changes. */
  ghost predicate NoMapping(mem: Memory, mem': Memory, root: nat)
  {
    && SameWalks(mem, mem', root) && SameWays(mem, mem', root)
    && forall q: Path | |q| == 4 :: Writable(mem', root, q) <==> Writable(mem, root, q)
  }

  /** The outcome of map_page. */
  ghost predicate Outcome(mem: Memory, mem': Memory, root: nat, path: Path, flags: bv64, leaf: Entry, ok: bool)
    requires |path| == 4
  {
    if ok then NewMapping(mem, mem', root, path, flags, leaf) else NoMapping(mem, mem', root)
  }

  lemma WayIsNoMapping(mem: Memory, mem': Memory, root: nat, path: Path, k: nat, flags: bv64)
    requires |path| == 4 && k <= 3 && WayBuilt(mem, mem', root, path, k, flags) && SameWalks(mem, mem', root)
    ensures NoMapping(mem, mem', root)
  {
    BuildingKeepsWays(mem, mem', root, path, k, flags);
    forall q: Path | |q| == 4
      ensures Writable(mem', root, q) <==> Writable(mem, root, q)
    {
      SameWritable(mem, mem', root, q);
    }
  }

  lemma LeafIsNewMapping(m0: Memory, m1: Memory, root: nat, path: Path, flags: bv64, pt: nat, leaf: Entry)
    requires IsTree(m1, root) && |path| == 4 && Reached(m0, m1, root, path, 3, pt, flags) && IsTable(m1, pt)
    ensures IsTree(SetEntry(m1, pt, path[3], leaf), root) && NewMapping(m0, SetEntry(m1, pt, path[3], leaf), root, path, flags, leaf)
  {
    var m2 := SetEntry(m1, pt, path[3], leaf);
    assert path == path[..3] + [path[3]];
    LeafWriteWalks(m1, root, path[..3], path[3], leaf);
    LeafIsOneEntry(m1, root, path[..3], path[3], leaf);
    WayEnds(m0, m1, m2, root, path, flags, leaf);
    BuildingKeepsWays(m0, m1, root, path, 3, flags);
    LeafKeepsWays(m1, m2, root, path);
    SameWaysTransitive(m0, m1, m2, root);
    RemappedIsWritable(m0, m2, root, path, leaf);
  }

  lemma RemappedIsWritable(mem: Memory, mem': Memory, root: nat, path: Path, leaf: Entry)
    requires |path| == 4 && Remapped(mem, mem', root, path, leaf) && SameWays(mem, mem', root)
    ensures OthersWritable(mem, mem', root, path)
    ensures Writable(mem', root, path) <==> Present(leaf) && IsWritable(leaf) && WayWritable(mem, root, path)
  {
    forall q: Path | |q| == 4 && q != path
      ensures Writable(mem', root, q) <==> Writable(mem, root, q)
    {
      SameWritable(mem, mem', root, q);
    }
    MappedWritableIff(mem', root, path, leaf);
  }

  /** No free frame holds a table. */
  ghost predicate Clear(free: set<nat>, mem: Memory)
  {
    forall f | f in free :: f !in mem
  }

  lemma LinkStaysClear(mem: Memory, t: nat, i: Index, e: Entry, free: set<nat>)
    requires IsTable(mem, t) && t != e.frame && Clear(free, mem) && e.frame !in free
    ensures Clear(free, Link(mem, t, i, e))
  {
  }

  lemma SetStaysClear(mem: Memory, t: nat, i: Index, e: Entry, free: set<nat>)
    requires IsTable(mem, t) && Clear(free, mem)
    ensures Clear(free, SetEntry(mem, t, i, e))
  {
  }

  lemma PageAddress(f: nat)
    ensures f * PAGE_SIZE % PAGE_SIZE == 0 && f * PAGE_SIZE / PAGE_SIZE == f
  {
  }

  /** What one page, mapped or not, does to the windows on record and to the one being built. */
  lemma PageStep(boot: Memory, mem: Memory, mem': Memory, root: nat, windows: seq<Window>, next: nat, w: Window, i: nat, virt: nat,
                 leaf: Entry, complete: bool, ok: bool)
    requires Stacked(windows, next) && AllMapped(mem, root, windows) && SameWays(boot, mem, root)
    requires MMIO_BASE <= w.virt && w.virt % PAGE_SIZE == 0 && next <= virt < TWO_64 && virt == w.virt + i * PAGE_SIZE
    requires complete ==> MappedUpTo(mem, root, w, i)
    requires Outcome(mem, mem', root, PathOf(virt), MMIO_FLAGS, leaf, ok) && leaf == Entry(w.frame + i, MMIO_FLAGS)
    ensures AllMapped(mem', root, windows) && (complete && ok ==> MappedUpTo(mem', root, w, i + 1))
    ensures OnlyPage(mem, mem', root, PathOf(virt)) && SameWays(mem, mem', root) && SameWays(boot, mem', root)
  {
    SameWaysTransitive(boot, mem, mem', root);
    if ok {
      WindowsKept(mem, mem', root, windows, next, virt, leaf);
      if complete {
        WindowGrows(mem, mem', root, w, i, virt, leaf);
      }
    } else {
      NothingRemapped(mem, mem', root, windows);
    }
  }

  lemma NextPageFits(mem: Memory, root: nat, w: Window, i: nat, virt: nat)
    requires OffLargePages(mem, root, w, i) && i < w.pages && virt == w.virt + i * PAGE_SIZE
    requires w.virt + w.pages * PAGE_SIZE <= TWO_64 && (w.frame + w.pages) * PAGE_SIZE <= TWO_52
    ensures !OnLargePage(mem, root, PathOf(virt)) && w.virt <= virt < TWO_64 && (w.frame + i) * PAGE_SIZE < TWO_52
  {
  }

  class Vmm {
    const pfa: Allocator
    const root: nat
    ghost const boot: Memory
    var mem: Memory
    var nextMmioAddr: nat
    ghost var windows: seq<Window>

    /** Free low frames hold no table, so a table taken from them is in no existing one. */
    ghost predicate Sound()
      reads this`mem, pfa, pfa.lowBitmap, pfa.bitmap
    {
      pfa.Valid() && Proper(pfa.View()) && IsTree(mem, root) && Clear(pfa.View().low, mem)
    }

    ghost predicate Valid()
      reads this, pfa, pfa.lowBitmap, pfa.bitmap
    {
      Sound() && Stacked(windows, nextMmioAddr) && AllMapped(mem, root, windows) && SameWays(boot, mem, root)
    }

    /** The state before the first call: the boot loader's tables form a tree, no window yet. That none of them
        lies in a free frame is for the caller to see to (TablesAreSafeIff): mm_init frees reclaimable memory too. */
    constructor (pfa: Allocator, root: nat, mem: Memory)
      requires pfa.Valid() && Proper(pfa.View()) && IsTree(mem, root) && Clear(pfa.View().low, mem)
      ensures Valid() && this.pfa == pfa && this.root == root && this.mem == mem && this.boot == mem
      ensures windows == [] && nextMmioAddr == MMIO_BASE
    {
      this.pfa, this.root, this.boot, this.mem := pfa, root, mem, mem;
      nextMmioAddr, windows := MMIO_BASE, [];
    }

    /** A free low frame: no table is in it. */
    method TakeFrame() returns (taken: nat)
      requires Sound()
      modifies pfa`lowFreeCount, pfa.lowBitmap
      ensures Sound() && pfa.View().high == old(pfa.View().high)
      ensures taken == 0 ==> old(pfa.View().low) == {} == pfa.View().low
      ensures taken != 0 ==> taken / PAGE_SIZE !in mem && taken / PAGE_SIZE !in pfa.View().low
      ensures taken != 0 ==> |old(pfa.View().low)| > 0 && |pfa.View().low| == |old(pfa.View().low)| - 1
    {
      taken := pfa.PfaAllocLow();
    }

    /** A fresh zeroed table for the empty entry `i` of `t`, unless the low pool is empty. */
    method LinkTable(ghost p: Path, t: nat, i: Index, flags: bv64, ghost r: Path) returns (ok: bool, next: nat)
      requires Sound() && |p| <= 2 && TableAt(mem, root, p) == Some(t) && !Present(mem[t][i]) && r == p + [i]
      modifies this`mem, pfa`lowFreeCount, pfa.lowBitmap
      ensures Sound() && pfa.View().high == old(pfa.View().high)
      ensures ok <==> |old(pfa.View().low)| > 0
      ensures |pfa.View().low| == if ok then |old(pfa.View().low)| - 1 else 0
      ensures if ok then LevelDone(old(mem), mem, root, r, flags) && TableAt(mem, root, r) == Some(next) else mem == old(mem)
    {
      var taken := TakeFrame();
      if taken == 0 {
        return false, 0;
      }
      next := taken / PAGE_SIZE;
      LinkBuilds(mem, root, p, t, i, NewLink(next, flags), flags);
      LinkStaysClear(mem, t, i, NewLink(next, flags), pfa.View().low);
      mem := Link(mem, t, i, NewLink(next, flags));
      ok := true;
    }

    /** An existing table on the way gets the caching bits of the mapping. */
    method FlagTable(ghost p: Path, t: nat, i: Index, flags: bv64, e: Entry, ghost r: Path) returns (next: nat)
      requires Sound() && |p| <= 2 && TableAt(mem, root, p) == Some(t) && IsLink(mem[t][i]) && r == p + [i]
      requires e == Flagged(mem[t][i], flags)
      modifies this`mem
      ensures Sound() && LevelDone(old(mem), mem, root, r, flags)
      ensures TableAt(mem, root, r) == Some(next)
    {
      FlagsBuild(mem, root, p, t, i, e, flags);
      SetStaysClear(mem, t, i, e, pfa.View().low);
      mem := SetEntry(mem, t, i, e);
      return e.frame;
    }

    /** One level of the walk, creating the next table if its entry is not present. */
    method NextTable(ghost p: Path, t: nat, i: Index, flags: bv64, ghost r: Path) returns (ok: bool, next: nat)
      requires Sound() && |p| <= 2 && TableAt(mem, root, p) == Some(t) && r == p + [i]
      requires Present(mem[t][i]) ==> IsLink(mem[t][i])
      modifies this`mem, pfa`lowFreeCount, pfa.lowBitmap
      ensures Sound() && pfa.View().high == old(pfa.View().high)
      ensures ok <==> LevelCost(old(mem), root, r) <= |old(pfa.View().low)|
      ensures |pfa.View().low| == if ok then |old(pfa.View().low)| - LevelCost(old(mem), root, r) else 0
      ensures if ok then LevelDone(old(mem), mem, root, r, flags) && TableAt(mem, root, r) == Some(next) else mem == old(mem)
    {
      AppendedPath(mem, root, p, i);
      if !Present(mem[t][i]) {
        ok, next := LinkTable(p, t, i, flags, r);
      } else {
        next := FlagTable(p, t, i, flags, Flagged(mem[t][i], flags), r);
        ok := true;
      }
    }

    /** Level `k` of the walk down to the page table, in a run that began in `m0` with `low` free low frames. */
    method Descend(path: Path, k: nat, t: nat, flags: bv64, ghost m0: Memory, ghost low: nat, ghost r: Path) returns (ok: bool, next: nat)
      requires Sound() && |path| == 4 && k < 3 && !OnLargePage(m0, root, path) && Reached(m0, mem, root, path, k, t, flags)
      requires |pfa.View().low| + CostTo(m0, root, path, k) == low && r == path[..k + 1]
      modifies this`mem, pfa`lowFreeCount, pfa.lowBitmap
      ensures Sound() && pfa.View().high == old(pfa.View().high)
      ensures ok ==> Reached(m0, mem, root, path, k + 1, next, flags) && |pfa.View().low| + CostTo(m0, root, path, k + 1) == low
      ensures !ok ==> mem == old(mem) && |pfa.View().low| == 0 && low < CostTo(m0, root, path, k + 1)
    {
      ghost var m1 := mem;
      DescendsTo(m0, mem, root, path, k, t, flags, r);
      ok, next := NextTable(path[..k], t, path[k], flags, r);
      if ok {
        ReachedNext(m0, m1, mem, root, path, k, t, flags, next, r);
      }
    }

    /** The upper three levels: finds or builds the page table that `path` leads to. */
    method TableFor(path: Path, flags: bv64) returns (ok: bool, pt: nat)
      requires Sound() && |path| == 4 && !OnLargePage(mem, root, path)
      modifies this`mem, pfa`lowFreeCount, pfa.lowBitmap
      ensures Sound() && pfa.View().high == old(pfa.View().high)
      ensures ok <==> Missing(old(mem), root, path) <= |old(pfa.View().low)|
      ensures |pfa.View().low| == if ok then |old(pfa.View().low)| - Missing(old(mem), root, path) else 0
      ensures if ok then Reached(old(mem), mem, root, path, 3, pt, flags) else NoMapping(old(mem), mem, root)
    {
      ghost var m0, low := mem, |pfa.View().low|;
      ReachedStarts(mem, root, path, flags);
      CostIsMissing(mem, root, path);
      ok, pt := Descend(path, 0, root, flags, m0, low, path[..1]);
      if !ok {
        return;
      }
      WayIsNoMapping(m0, mem, root, path, 1, flags);
      ok, pt := Descend(path, 1, pt, flags, m0, low, path[..2]);
      if !ok {
        return;
      }
      WayIsNoMapping(m0, mem, root, path, 2, flags);
      ok, pt := Descend(path, 2, pt, flags, m0, low, path[..3]);
    }

    /** The last step: the entry of the page itself. */
    method WriteLeaf(path: Path, pt: nat, flags: bv64, leaf: Entry, ghost m0: Memory)
      requires Sound() && |path| == 4 && Reached(m0, mem, root, path, 3, pt, flags)
      modifies this`mem
      ensures Sound() && NewMapping(m0, mem, root, path, flags, leaf)
    {
      LeafIsNewMapping(m0, mem, root, path, flags, pt, leaf);
      SetStaysClear(mem, pt, path[3], leaf, pfa.View().low);
      mem := SetEntry(mem, pt, path[3], leaf);
    }

    method MapAt(path: Path, flags: bv64, leaf: Entry) returns (ok: bool)
      requires Sound() && |path| == 4 && !OnLargePage(mem, root, path)
      modifies this`mem, pfa`lowFreeCount, pfa.lowBitmap
      ensures Sound() && pfa.View().high == old(pfa.View().high)
      ensures ok <==> Missing(old(mem), root, path) <= |old(pfa.View().low)|
      ensures |pfa.View().low| == if ok then |old(pfa.View().low)| - Missing(old(mem), root, path) else 0
      ensures Outcome(old(mem), mem, root, path, flags, leaf, ok)
    {
      ghost var m0 := mem;
      var pt;
      ok, pt := TableFor(path, flags);
      if ok {
        WriteLeaf(path, pt, flags, leaf, m0);
      }
    }

    /** Maps one page, or runs out of low frames. Only this page can change. */
    method MapPage(physAddr: nat, virtAddr: nat, flags: bv64) returns (ok: bool)
      requires Sound() && physAddr % PAGE_SIZE == 0 && physAddr < TWO_52 && virtAddr < TWO_64
      requires flags & PADDR_MASK == 0 && !OnLargePage(mem, root, PathOf(virtAddr))
      modifies this`mem, pfa`lowFreeCount, pfa.lowBitmap
      ensures Sound() && pfa.View().high == old(pfa.View().high)
      ensures ok <==> Missing(old(mem), root, PathOf(virtAddr)) <= |old(pfa.View().low)|
      ensures |pfa.View().low| == if ok then |old(pfa.View().low)| - Missing(old(mem), root, PathOf(virtAddr)) else 0
      ensures Outcome(old(mem), mem, root, PathOf(virtAddr), flags, Entry(physAddr / PAGE_SIZE, flags), ok)
    {
      ok := MapAt(PathOf(virtAddr), flags, Entry(physAddr / PAGE_SIZE, flags));
    }

    /** Page `i` of a window that lies above all the others. */
    method MapNextPage(w: Window, i: nat, virt: nat, ghost complete: bool) returns (ok: bool)
      requires Valid() && nextMmioAddr <= virt < TWO_64 && virt == w.virt + i * PAGE_SIZE
      requires MMIO_BASE <= w.virt && w.virt % PAGE_SIZE == 0 && (w.frame + i) * PAGE_SIZE < TWO_52
      requires complete ==> MappedUpTo(mem, root, w, i)
      requires !OnLargePage(mem, root, PathOf(virt))
      modifies this`mem, pfa`lowFreeCount, pfa.lowBitmap
      ensures Valid()
      ensures complete && ok ==> MappedUpTo(mem, root, w, i + 1)
      ensures OnlyPage(old(mem), mem, root, PathOf(virt)) && SameWays(old(mem), mem, root)
      ensures !ok || old(pfa.View().low) == {} ==> pfa.View().low == {}
    {
      ghost var m0 := mem;
      ghost var leaf := Entry((w.frame + i) * PAGE_SIZE / PAGE_SIZE, MMIO_FLAGS);
      MmioFlagsPresent();
      PageAddress(w.frame + i);
      ok := MapPage((w.frame + i) * PAGE_SIZE, virt, MMIO_FLAGS);
      PageStep(boot, m0, mem, root, windows, nextMmioAddr, w, i, virt, leaf, complete, ok);
    }

    /** The page loop of mmio_remap. */
    method MapWindow(w: Window) returns (ghost complete: bool)
      requires Valid() && w.virt == nextMmioAddr && w.virt + w.pages * PAGE_SIZE <= TWO_64
      requires (w.frame + w.pages) * PAGE_SIZE <= TWO_52 && OffLargePages(mem, root, w, 0)
      modifies this`mem, pfa`lowFreeCount, pfa.lowBitmap
      ensures Valid() && OnlyWindow(old(mem), mem, root, w, w.pages) && SameWays(old(mem), mem, root)
      ensures if complete then Mapped(mem, root, w) else pfa.View().low == {}
    {
      complete := true;
      var i := 0;
      while i < w.pages
        invariant i <= w.pages && Valid() && OnlyWindow(old(mem), mem, root, w, i) && OffLargePages(mem, root, w, i)
        invariant if complete then MappedUpTo(mem, root, w, i) else pfa.View().low == {}
        invariant SameWays(old(mem), mem, root)
      {
        ghost var before := mem;
        var virt := w.virt + i * PAGE_SIZE;
        NextPageFits(mem, root, w, i, virt);
        var ok := MapNextPage(w, i, virt, complete);
        SameWaysTransitive(old(mem), before, mem, root);
        OnlyWindowGrows(old(mem), before, mem, root, w, i, virt);
        OffLargePagesKept(before, mem, root, w, i, virt);
        i := i + 1;
        complete := complete && ok;
      }
    }

    /** Moves on to the end of the window, and records the window if it is complete. */
    method FinishWindow(w: Window, next: nat, ghost complete: bool)
      requires Valid() && w.virt == nextMmioAddr && next == w.virt + w.pages * PAGE_SIZE <= TWO_64
      requires complete ==> Mapped(mem, root, w)
      modifies this`nextMmioAddr, this`windows
      ensures Valid() && nextMmioAddr == next
      ensures windows == if complete then old(windows) + [w] else old(windows)
    {
      StackedGrows(windows, w, next);
      nextMmioAddr := next;
      if complete {
        MappedGrows(mem, root, windows, w);
        windows := windows + [w];
      }
    }

    /** The high branch: the window is mapped and recorded, unless the pool of low frames ran dry. */
    method RemapWindow(w: Window, next: nat)
      requires Valid() && w.virt == nextMmioAddr && next == w.virt + w.pages * PAGE_SIZE <= TWO_64
      requires (w.frame + w.pages) * PAGE_SIZE <= TWO_52 && OffLargePages(mem, root, w, 0)
      modifies this, pfa`lowFreeCount, pfa.lowBitmap
      ensures Valid() && OnlyWindow(old(mem), mem, root, w, w.pages) && SameWays(old(mem), mem, root) && nextMmioAddr == next
      ensures windows == old(windows) + [w] || (windows == old(windows) && pfa.View().low == {})
    {
      ghost var complete := MapWindow(w);
      FinishWindow(w, next, complete);
    }

    /** Low addresses are identity mapped. A high one gets the next pages of the MMIO region; unless the
        pool of low frames ran dry, the window is complete, and Valid() keeps it so from then on.
        No page outside the window changes its walk. */
    method MmioRemap(physicalAddr: nat, size: nat) returns (virt: nat)
      requires Valid() && size < TWO_64 && physicalAddr + MAX_WINDOW_PAGES * PAGE_SIZE <= TWO_52
      requires physicalAddr >= LOW_LIMIT ==>
                 var w := WindowFor(nextMmioAddr, physicalAddr, size);
                 w.virt + w.pages * PAGE_SIZE <= TWO_64 && OffLargePages(mem, root, w, 0)
      modifies this, pfa`lowFreeCount, pfa.lowBitmap
      ensures Valid()
      ensures physicalAddr < LOW_LIMIT ==>
                virt == physicalAddr && mem == old(mem) && windows == old(windows) && nextMmioAddr == old(nextMmioAddr)
      ensures physicalAddr >= LOW_LIMIT ==>
                var w := WindowFor(old(nextMmioAddr), physicalAddr, size);
                && virt == w.virt + physicalAddr % PAGE_SIZE
                && nextMmioAddr == w.virt + w.pages * PAGE_SIZE
                && OnlyWindow(old(mem), mem, root, w, w.pages) && SameWays(old(mem), mem, root)
                && (windows == old(windows) + [w] || (windows == old(windows) && pfa.View().low == {}))
    {
      if physicalAddr < LOW_LIMIT {
        return physicalAddr;
      }
      var w := WindowFor(nextMmioAddr, physicalAddr, size);
      RemapWindow(w, w.virt + w.pages * PAGE_SIZE);
      return w.virt + physicalAddr % PAGE_SIZE;
    }
  }
}
