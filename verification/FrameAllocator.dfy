/** One bit per 4 KB page, 0 = free, 1 = used: the bitmaps of mm.c seen as sets of free frames. */
module Bitmap {

  const BITMAP_SIZE: nat := 262144
  const MAX_PAGES: nat := 2097152

  function Mask(bit: nat): bv8
    requires bit < 8
  {
    (1 as bv8) << bit
  }

  predicate BitIsFree(b: bv8, bit: nat)
    requires bit < 8
  {
    b & Mask(bit) == 0
  }

  predicate IsFree(bmap: seq<bv8>, index: nat)
    requires index < 8 * |bmap|
  {
    BitIsFree(bmap[index / 8], index % 8)
  }

  /** The frames that are free in `bmap`, whose bit 0 stands for frame `first`. */
  ghost function FreeFrames(bmap: seq<bv8>, first: nat): set<nat>
  {
    set f: nat | first <= f < first + 8 * |bmap| && FrameIsFree(bmap, first, f)
  }

  ghost predicate FrameIsFree(bmap: seq<bv8>, first: nat, f: nat)
  {
    first <= f < first + 8 * |bmap| && IsFree(bmap, f - first)
  }

  lemma UsedBit(b: bv8, i: nat, j: nat)
    requires i < 8 && j < 8
    ensures BitIsFree(b | Mask(i), j) <==> j != i && BitIsFree(b, j)
  {
  }

  lemma FreedBit(b: bv8, i: nat, j: nat)
    requires i < 8 && j < 8
    ensures BitIsFree(b & !Mask(i), j) <==> j == i || BitIsFree(b, j)
  {
  }

  /** The byte the scan skips is exactly the byte without a free page. */
  lemma FullByte(b: bv8)
    ensures b == 0xFF <==> forall i: nat | i < 8 :: !BitIsFree(b, i)
  {
    if b != 0xFF {
      assert BitIsFree(b, 0) || BitIsFree(b, 1) || BitIsFree(b, 2) || BitIsFree(b, 3)
          || BitIsFree(b, 4) || BitIsFree(b, 5) || BitIsFree(b, 6) || BitIsFree(b, 7);
    }
  }

  /** Changing one bit of one byte changes the status of one frame. */
  lemma BitChange(bmap: seq<bv8>, b: bv8, first: nat, i: nat, free: bool)
    requires i < 8 * |bmap|
    requires forall j: nat | j < 8 :: BitIsFree(b, j) <==> if j == i % 8 then free else BitIsFree(bmap[i / 8], j)
    ensures FreeFrames(bmap[i / 8 := b], first)
         == if free then FreeFrames(bmap, first) + {first + i} else FreeFrames(bmap, first) - {first + i}
  {
    var after := bmap[i / 8 := b];
    forall f: nat | first <= f < first + 8 * |bmap|
      ensures FrameIsFree(after, first, f) <==> if f == first + i then free else FrameIsFree(bmap, first, f)
    {
      assert (f - first) / 8 == i / 8 && (f - first) % 8 == i % 8 ==> f == first + i;
    }
  }

  lemma SetUsedRemoves(bmap: seq<bv8>, first: nat, i: nat)
    requires i < 8 * |bmap|
    ensures FreeFrames(bmap[i / 8 := bmap[i / 8] | Mask(i % 8)], first) == FreeFrames(bmap, first) - {first + i}
  {
    forall j: nat | j < 8 { UsedBit(bmap[i / 8], i % 8, j); }
    BitChange(bmap, bmap[i / 8] | Mask(i % 8), first, i, false);
  }

  lemma SetFreeAdds(bmap: seq<bv8>, first: nat, i: nat)
    requires i < 8 * |bmap|
    ensures FreeFrames(bmap[i / 8 := bmap[i / 8] & !Mask(i % 8)], first) == FreeFrames(bmap, first) + {first + i}
  {
    forall j: nat | j < 8 { FreedBit(bmap[i / 8], i % 8, j); }
    BitChange(bmap, bmap[i / 8] & !Mask(i % 8), first, i, true);
  }

  lemma AllUsed(bmap: seq<bv8>, first: nat)
    requires forall k | 0 <= k < |bmap| :: bmap[k] == 0xFF
    ensures FreeFrames(bmap, first) == {}
  {
    forall f: nat | first <= f < first + 8 * |bmap|
      ensures !FrameIsFree(bmap, first, f)
    {
      FullByte(bmap[(f - first) / 8]);
    }
  }

  ghost predicate IsLeast(f: nat, s: set<nat>)
  {
    f in s && forall g | g in s :: f <= g
  }

  /** The first byte that is not 0xFF, and its lowest clear bit, give the least free frame. */
  lemma FirstClearBitIsLeast(bmap: seq<bv8>, first: nat, byte: nat, bit: nat)
    requires byte < |bmap| && forall k | 0 <= k < byte :: bmap[k] == 0xFF
    requires bit < 8 && BitIsFree(bmap[byte], bit) && forall j: nat | j < bit :: !BitIsFree(bmap[byte], j)
    ensures IsLeast(first + byte * 8 + bit, FreeFrames(bmap, first))
  {
    var least := first + byte * 8 + bit;
    assert FrameIsFree(bmap, first, least);
    forall f | f in FreeFrames(bmap, first)
      ensures least <= f
    {
      assert FrameIsFree(bmap, first, f);
      var k := (f - first) / 8;
      if k < byte {
        FullByte(bmap[k]);
        assert false;
      } else if k == byte {
        assert BitIsFree(bmap[byte], (f - first) % 8);
      }
    }
  }

  /** The inner loop of the scan, on one byte that is not full. */
  method FirstClearBit(b: bv8) returns (bit: nat)
    requires b != 0xFF
    ensures bit < 8 && BitIsFree(b, bit)
    ensures forall j: nat | j < bit :: !BitIsFree(b, j)
  {
    FullByte(b);
    bit := 0;
    while !BitIsFree(b, bit)
      invariant bit < 8
      invariant forall j: nat | j < bit :: !BitIsFree(b, j)
      decreases 8 - bit
    {
      assert exists i: nat :: i < 8 && BitIsFree(b, i);
      bit := bit + 1;
    }
  }

  /** The scan both allocators share: bytes equal to 0xFF are skipped, the lowest clear bit of the
      first other byte is taken. */
  method TakeLowest(bmap: array<bv8>, ghost first: nat) returns (found: bool, index: nat)
    modifies bmap
    ensures found <==> old(FreeFrames(bmap[..], first)) != {}
    ensures found ==> index < 8 * bmap.Length && IsLeast(first + index, old(FreeFrames(bmap[..], first)))
    ensures found ==> FreeFrames(bmap[..], first) == old(FreeFrames(bmap[..], first)) - {first + index}
    ensures !found ==> bmap[..] == old(bmap[..])
  {
    ghost var before := bmap[..];
    var byte := 0;
    while byte < bmap.Length
      invariant byte <= bmap.Length && bmap[..] == before
      invariant forall k | 0 <= k < byte :: before[k] == 0xFF
    {
      if bmap[byte] != 0xFF {
        var bit := FirstClearBit(bmap[byte]);
        index := byte * 8 + bit;
        FirstClearBitIsLeast(before, first, byte, bit);
        SetUsedRemoves(before, first, index);
        bmap[index / 8] := bmap[index / 8] | Mask(index % 8);
        assert bmap[..] == before[index / 8 := before[index / 8] | Mask(index % 8)];
        return true, index;
      }
      byte := byte + 1;
    }
    AllUsed(before, first);
    return false, 0;
  }

  /** The guarded clear both branches of the release share; `changed` tells whether to count it. */
  method Release(bmap: array<bv8>, index: nat, ghost first: nat) returns (changed: bool)
    requires index < 8 * bmap.Length
    modifies bmap
    ensures FreeFrames(bmap[..], first) == old(FreeFrames(bmap[..], first)) + {first + index}
    ensures changed <==> first + index !in old(FreeFrames(bmap[..], first))
    ensures |FreeFrames(bmap[..], first)| == old(|FreeFrames(bmap[..], first)|) + if changed then 1 else 0
  {
    ghost var before := bmap[..];
    changed := !BitIsFree(bmap[index / 8], index % 8);
    assert FrameIsFree(before, first, first + index) <==> !changed;
    if changed {
      SetFreeAdds(before, first, index);
      bmap[index / 8] := bmap[index / 8] & !Mask(index % 8);
      assert bmap[..] == before[index / 8 := before[index / 8] & !Mask(index % 8)];
    } else {
      assert FreeFrames(before, first) + {first + index} == FreeFrames(before, first);
    }
  }
}

/** What the two pools of free frames do, call by call. Frames are numbered by physical address / 4096. */
module FramePool {
  import opened Bitmap

  const PAGE_SIZE: nat := 4096
  const LOW_LIMIT: nat := 0x1_0000_0000
  const LOW_FRAMES: nat := 0x10_0000

  datatype Pools = Pools(low: set<nat>, high: set<nat>)

  datatype Call = AllocLow | AllocHigh | Free(paddr: nat)

  datatype Event = Event(call: Call, result: nat)

  ghost predicate Taken(pool: set<nat>, result: nat, rest: set<nat>)
  {
    if pool == {} then
      result == 0 && rest == pool
    else
      result % PAGE_SIZE == 0 && IsLeast(result / PAGE_SIZE, pool) && rest == pool - {result / PAGE_SIZE}
  }

  ghost function AfterFree(s: Pools, paddr: nat): Pools
  {
    var f := paddr / PAGE_SIZE;
    if paddr == 0 then s
    else if paddr < LOW_LIMIT then s.(low := s.low + {f})
    else if f < LOW_FRAMES + MAX_PAGES then s.(high := s.high + {f})
    else s
  }

  ghost predicate Step(s: Pools, e: Event, s': Pools)
  {
    match e.call
    case AllocLow => Taken(s.low, e.result, s'.low) && s'.high == s.high
    case AllocHigh => Taken(s.high, e.result, s'.high) && s'.low == s.low
    case Free(paddr) => s' == AfterFree(s, paddr)
  }

  /** Low frames lie below 4 GB, high ones in the 8 GB span above; the null frame is in neither. */
  ghost predicate Proper(s: Pools)
  {
    && (forall f | f in s.low :: 0 < f < LOW_FRAMES)
    && (forall f | f in s.high :: LOW_FRAMES <= f < LOW_FRAMES + MAX_PAGES)
  }

  ghost predicate Run(states: seq<Pools>, events: seq<Event>)
  {
    |states| == |events| + 1 && forall i | 0 <= i < |events| :: Step(states[i], events[i], states[i + 1])
  }

  /** The frames the clients hold after `events`, having started with none. */
  ghost function Held(events: seq<Event>): set<nat>
  {
    if events == [] then {} else
      var before := Held(events[..|events| - 1]);
      var e := events[|events| - 1];
      if e.call.Free? then before - {e.call.paddr / PAGE_SIZE}
      else if e.result == 0 then before
      else before + {e.result / PAGE_SIZE}
  }

  /** Clients give back only addresses of frames they hold at that moment. */
  ghost predicate Disciplined(events: seq<Event>)
  {
    forall i | 0 <= i < |events| && events[i].call.Free? ::
      events[i].call.paddr % PAGE_SIZE == 0 && events[i].call.paddr / PAGE_SIZE in Held(events[..i])
  }

  /** Over a whole run, held and free frames partition the frames registered at the start. */
  lemma {:induction false} RunConserves(states: seq<Pools>, events: seq<Event>, k: nat)
    requires Run(states, events) && Disciplined(events) && Proper(states[0]) && k <= |events|
    ensures Proper(states[k])
    ensures Held(events[..k]) !! states[k].low + states[k].high
    ensures Held(events[..k]) + states[k].low + states[k].high == states[0].low + states[0].high
  {
    if k > 0 {
      RunConserves(states, events, k - 1);
      assert events[..k][..k - 1] == events[..k - 1];
      assert Step(states[k - 1], events[k - 1], states[k]);
    }
  }

  /** A frame handed out is the least free one of its pool and nobody holds it; 0 means "pool empty". */
  lemma AllocationIsFresh(states: seq<Pools>, events: seq<Event>, k: nat)
    requires Run(states, events) && Disciplined(events) && Proper(states[0])
    requires k < |events| && !events[k].call.Free?
    ensures var pool := if events[k].call.AllocLow? then states[k].low else states[k].high;
            var r := events[k].result;
            && (r == 0 <==> pool == {})
            && (r != 0 ==> IsLeast(r / PAGE_SIZE, pool) && r / PAGE_SIZE !in Held(events[..k]))
            && (events[k].call.AllocLow? ==> r < LOW_LIMIT)
  {
    RunConserves(states, events, k);
    assert Step(states[k], events[k], states[k + 1]);
  }

  /** A release of some other address inside the null page. */
  ghost predicate FreesNull(e: Event)
  {
    e.call.Free? && 0 < e.call.paddr < PAGE_SIZE
  }

  /** A low allocation answers 0 exactly for an empty pool if and only if frame 0 is not in it. */
  lemma NullMeansEmpty(s: Pools, r: nat, s': Pools)
    requires Step(s, Event(AllocLow, r), s')
    ensures (r == 0 <==> s.low == {}) <==> 0 !in s.low
  {
    if 0 in s.low {
      assert r == r / PAGE_SIZE * PAGE_SIZE;
    } else if s.low != {} {
      assert r / PAGE_SIZE in s.low;
    }
  }

  /** Over any run, disciplined or not, frame 0 stays out of the low pool if and only if nobody frees an address in 1..4095. */
  lemma {:induction false} NullStaysOutIff(states: seq<Pools>, events: seq<Event>, n: nat)
    requires Run(states, events) && 0 !in states[0].low && n <= |events|
    ensures (forall k | 0 <= k <= n :: 0 !in states[k].low) <==> (forall k | 0 <= k < n :: !FreesNull(events[k]))
  {
    if n > 0 {
      NullStaysOutIff(states, events, n - 1);
      assert Step(states[n - 1], events[n - 1], states[n]);
      if 0 !in states[n - 1].low {
        NullStep(states[n - 1], events[n - 1], states[n]);
      }
    }
  }

  lemma NullStep(s: Pools, e: Event, s': Pools)
    requires Step(s, e, s') && 0 !in s.low
    ensures 0 in s'.low <==> FreesNull(e)
  {
  }

  /** Without the discipline the null check breaks: releasing address 1 makes frame 0 free, and the
      next low allocation returns 0 although the pool was not empty. */
  lemma UnalignedFreeBreaksNull()
    ensures Step(Pools({}, {}), Event(Free(1), 0), Pools({0}, {}))
    ensures Step(Pools({0}, {}), Event(AllocLow, 0), Pools({}, {}))
  {
    assert AfterFree(Pools({}, {}), 1) == Pools({0}, {});
    assert IsLeast(0, {0});
  }
}

/** mm.c: the frame allocator itself and its construction from the boot memory map. */
module FrameAllocator {
  import opened Bitmap
  import opened FramePool

  const LIMINE_MEMMAP_USABLE: nat := 0
  const LIMINE_MEMMAP_BOOTLOADER_RECLAIMABLE: nat := 5
  const REQ_SIZE: nat := 32 * PAGE_SIZE

  const TWO_64: nat := 0x1_0000_0000_0000_0000

  type Word = x: int | 0 <= x < 0x1_0000_0000_0000_0000

  datatype MemmapEntry = MemmapEntry(base: Word, length: Word, kind: nat)

  predicate IsRam(e: MemmapEntry)
  {
    e.kind == LIMINE_MEMMAP_USABLE || e.kind == LIMINE_MEMMAP_BOOTLOADER_RECLAIMABLE
  }

  /** The first page boundary at or above the base; the 64-bit sum can wrap. */
  function RegionStart(e: MemmapEntry): (p: nat)
    ensures p % PAGE_SIZE == 0
  {
    (e.base + PAGE_SIZE - 1) % TWO_64 / PAGE_SIZE * PAGE_SIZE
  }

  /** The last page boundary at or below the end; this sum can wrap too. */
  function RegionEnd(e: MemmapEntry): (p: nat)
    ensures p % PAGE_SIZE == 0
  {
    (e.base + e.length) % TWO_64 / PAGE_SIZE * PAGE_SIZE
  }

  /** The region's whole frames leave room for the bitmaps, and it does not start at address 0. */
  predicate FitsBitmaps(e: MemmapEntry)
  {
    IsRam(e) && RegionStart(e) != 0 && RegionStart(e) + REQ_SIZE <= RegionEnd(e)
  }

  /** Frame `f` is one of those the loops see of entry `e`. */
  ghost predicate Inside(e: MemmapEntry, f: nat)
  {
    IsRam(e) && RegionStart(e) <= f * PAGE_SIZE && f * PAGE_SIZE + PAGE_SIZE <= RegionEnd(e)
  }

  /** Frame `f` lies wholly inside the range of addresses that entry `e` describes. */
  ghost predicate Covers(e: MemmapEntry, f: nat)
  {
    e.base <= f * PAGE_SIZE && f * PAGE_SIZE + PAGE_SIZE <= e.base + e.length
  }

  /** No wrapped sum distorts the entry (one in the last page of the address space must end just past its top). */
  predicate KeepsShape(e: MemmapEntry)
  {
    if e.base + PAGE_SIZE - 1 < TWO_64 then e.base + e.length < TWO_64
    else TWO_64 <= e.base + e.length < TWO_64 + PAGE_SIZE
  }

  predicate Reserved(placement: nat, p: nat)
  {
    p < placement + REQ_SIZE && p + PAGE_SIZE > placement
  }

  /** What the memory map promises: a usable, non-null frame clear of the bitmaps' range. */
  ghost predicate Available(entries: seq<MemmapEntry>, placement: nat, f: nat)
  {
    f > 0 && !Reserved(placement, f * PAGE_SIZE) && exists i :: 0 <= i < |entries| && Inside(entries[i], f)
  }

  /** The frames of `entries` and, of one further entry, those at or above `from`. */
  ghost predicate Registered(entries: seq<MemmapEntry>, e: MemmapEntry, from: nat, placement: nat, f: nat)
  {
    || Available(entries, placement, f)
    || (f > 0 && !Reserved(placement, f * PAGE_SIZE) && Inside(e, f) && from <= f * PAGE_SIZE)
  }

  /** The free frames the memory map calls for, split between the two bitmaps' spans. */
  ghost function RamPools(entries: seq<MemmapEntry>, placement: nat): Pools
  {
    Pools(set f: nat | f < LOW_FRAMES && Available(entries, placement, f),
          set f: nat | LOW_FRAMES <= f < LOW_FRAMES + MAX_PAGES && Available(entries, placement, f))
  }

  ghost function PartialPools(done: seq<MemmapEntry>, e: MemmapEntry, from: nat, placement: nat): Pools
  {
    Pools(set f: nat | f < LOW_FRAMES && Registered(done, e, from, placement, f),
          set f: nat | LOW_FRAMES <= f < LOW_FRAMES + MAX_PAGES && Registered(done, e, from, placement, f))
  }

  /** The loops see exactly the frames wholly inside an entry if and only if its sums do not distort it. */
  lemma WholeFrames(e: MemmapEntry)
    requires IsRam(e)
    ensures (forall f: nat :: Inside(e, f) <==> Covers(e, f)) <==> KeepsShape(e)
  {
    if KeepsShape(e) {
      forall f: nat
        ensures Inside(e, f) <==> Covers(e, f)
      {
        ShapeKept(e, f);
      }
    } else if e.base + PAGE_SIZE - 1 < TWO_64 {
      FirstFrameLost(e, RegionStart(e) / PAGE_SIZE);
    } else {
      NullFrameGained(e);
    }
  }

  lemma ShapeKept(e: MemmapEntry, f: nat)
    requires IsRam(e) && KeepsShape(e)
    ensures Inside(e, f) <==> Covers(e, f)
  {
    if e.base + PAGE_SIZE - 1 < TWO_64 {
      assert (e.base + PAGE_SIZE - 1) % TWO_64 == e.base + PAGE_SIZE - 1;
      assert (e.base + e.length) % TWO_64 == e.base + e.length;
    } else {
      assert (e.base + e.length) % TWO_64 == e.base + e.length - TWO_64;
      assert RegionEnd(e) == 0;
      assert f < TWO_64 / PAGE_SIZE ==> f * PAGE_SIZE <= TWO_64 - PAGE_SIZE;
    }
  }

  /** When the end wraps, the first whole frame is among those lost. */
  lemma FirstFrameLost(e: MemmapEntry, f: nat)
    requires IsRam(e) && e.base + PAGE_SIZE - 1 < TWO_64 <= e.base + e.length && f == RegionStart(e) / PAGE_SIZE
    ensures !Inside(e, f) && Covers(e, f)
  {
    assert (e.base + PAGE_SIZE - 1) % TWO_64 == e.base + PAGE_SIZE - 1;
    assert (e.base + e.length) % TWO_64 == e.base + e.length - TWO_64;
  }

  /** When only the start wraps, the entry seems to start at frame 0. */
  lemma NullFrameGained(e: MemmapEntry)
    requires IsRam(e) && e.base + PAGE_SIZE - 1 >= TWO_64 && !KeepsShape(e)
    ensures Inside(e, 0) && !Covers(e, 0)
  {
    assert (e.base + PAGE_SIZE - 1) % TWO_64 == e.base + PAGE_SIZE - 1 - TWO_64;
    assert e.base + e.length < TWO_64 ==> (e.base + e.length) % TWO_64 == e.base + e.length;
    assert e.base + e.length >= TWO_64 ==> (e.base + e.length) % TWO_64 == e.base + e.length - TWO_64;
  }

  lemma AvailableSnoc(done: seq<MemmapEntry>, e: MemmapEntry, placement: nat, f: nat)
    ensures Available(done + [e], placement, f)
       <==> Available(done, placement, f) || (f > 0 && !Reserved(placement, f * PAGE_SIZE) && Inside(e, f))
  {
    if Available(done, placement, f) {
      var i :| 0 <= i < |done| && Inside(done[i], f);
      assert (done + [e])[i] == done[i];
    }
    if f > 0 && !Reserved(placement, f * PAGE_SIZE) && Inside(e, f) {
      assert (done + [e])[|done|] == e;
    }
  }

  lemma NoneRegistered(done: seq<MemmapEntry>, e: MemmapEntry, placement: nat)
    requires IsRam(e)
    ensures PartialPools(done, e, RegionEnd(e), placement) == RamPools(done, placement)
  {
    forall f: nat
      ensures Registered(done, e, RegionEnd(e), placement, f) <==> Available(done, placement, f)
    {
    }
  }

  lemma AllRegistered(done: seq<MemmapEntry>, e: MemmapEntry, from: nat, placement: nat)
    requires IsRam(e) && from <= RegionStart(e)
    ensures PartialPools(done, e, from, placement) == RamPools(done + [e], placement)
  {
    forall f: nat
      ensures Registered(done, e, from, placement, f) <==> Available(done + [e], placement, f)
    {
      AvailableSnoc(done, e, placement, f);
    }
  }

  lemma NotRam(done: seq<MemmapEntry>, e: MemmapEntry, placement: nat)
    requires !IsRam(e)
    ensures RamPools(done + [e], placement) == RamPools(done, placement)
  {
    forall f: nat
      ensures Available(done + [e], placement, f) <==> Available(done, placement, f)
    {
      AvailableSnoc(done, e, placement, f);
    }
  }

  lemma StepBack(p: nat, q: nat)
    requires p % PAGE_SIZE == 0 && q % PAGE_SIZE == 0 && q < p
    ensures q + PAGE_SIZE <= p && (p - PAGE_SIZE) % PAGE_SIZE == 0
  {
  }

  /** One turn of the descending loop: the frame at `p` is released, unless null or reserved. */
  lemma NextFrame(done: seq<MemmapEntry>, e: MemmapEntry, p: nat, placement: nat)
    requires IsRam(e) && p % PAGE_SIZE == 0 && RegionStart(e) <= p && p + PAGE_SIZE <= RegionEnd(e)
    ensures PartialPools(done, e, p, placement)
         == var before := PartialPools(done, e, p + PAGE_SIZE, placement);
            if p == 0 || Reserved(placement, p) then before else AfterFree(before, p)
  {
    forall f: nat
      ensures Registered(done, e, p, placement, f)
         <==> Registered(done, e, p + PAGE_SIZE, placement, f) || (f == p / PAGE_SIZE && p > 0 && !Reserved(placement, p))
    {
    }
  }

  /** The bitmaps go to the first entry with room for them. */
  ghost predicate IsPlacement(entries: seq<MemmapEntry>, placement: nat)
  {
    exists k :: 0 <= k < |entries| && FitsBitmaps(entries[k]) && placement == RegionStart(entries[k])
             && (forall j | 0 <= j < k :: !FitsBitmaps(entries[j]))
  }

  method FindPlacement(entries: seq<MemmapEntry>) returns (placement: nat)
    ensures placement == 0 <==> forall e | e in entries :: !FitsBitmaps(e)
    ensures placement != 0 ==> IsPlacement(entries, placement)
  {
    placement := 0;
    for i := 0 to |entries|
      invariant placement == 0 ==> forall j | 0 <= j < i :: !FitsBitmaps(entries[j])
      invariant placement != 0 ==> IsPlacement(entries, placement)
    {
      if !IsRam(entries[i]) {
        continue;
      }
      var regionStart := RegionStart(entries[i]);
      var regionEnd := RegionEnd(entries[i]);
      if regionEnd > regionStart && regionEnd - regionStart >= REQ_SIZE {
        if placement == 0 {
          placement := regionStart;
        }
      }
    }
  }

  /** The number of frames the two bitmaps take; only the first 32 of them are reserved. */
  const BITMAP_FRAMES: nat := 128

  /** Frame `j` of those that hold the bitmaps is in a free pool exactly when it lies behind the reservation
      and in a frame of RAM that the bitmaps track. */
  lemma BitmapFrameIsFree(entries: seq<MemmapEntry>, placement: nat, j: nat)
    requires IsPlacement(entries, placement) && j < BITMAP_FRAMES
    ensures BITMAP_FRAMES * PAGE_SIZE == 2 * BITMAP_SIZE
    ensures var f, pools := placement / PAGE_SIZE + j, RamPools(entries, placement);
            f in pools.low + pools.high <==>
              32 <= j && f < LOW_FRAMES + MAX_PAGES && exists i :: 0 <= i < |entries| && Inside(entries[i], f)
  {
    var f := placement / PAGE_SIZE + j;
    assert placement % PAGE_SIZE == 0;
    assert Reserved(placement, f * PAGE_SIZE) <==> j < 32;
    assert f > 0;
  }

  /** What the reservation keeps out of the pools: 32 frames from the placement on, and no frame before or behind them. */
  lemma UsableFrames(entries: seq<MemmapEntry>, placement: nat, f: nat)
    requires IsPlacement(entries, placement)
    ensures Available(entries, placement, f) <==>
              && f > 0 && (exists i :: 0 <= i < |entries| && Inside(entries[i], f))
              && (f < placement / 4096 || placement / 4096 + 32 <= f)
  {
    var first := placement / PAGE_SIZE;
    assert placement == first * PAGE_SIZE;
    assert Reserved(placement, f * PAGE_SIZE) <==> first <= f < first + 32;
  }

  /** Frame `f` lies wholly inside a usable (0) or bootloader reclaimable (5) entry of the map. */
  ghost predicate InRam(entries: seq<MemmapEntry>, f: nat)
  {
    exists i :: 0 <= i < |entries| && (entries[i].kind == 0 || entries[i].kind == 5) && Covers(entries[i], f)
  }

  lemma InRamIff(entries: seq<MemmapEntry>, f: nat)
    requires forall e | e in entries :: KeepsShape(e)
    ensures InRam(entries, f) <==> exists i :: 0 <= i < |entries| && Inside(entries[i], f)
  {
    forall i | 0 <= i < |entries|
      ensures Inside(entries[i], f) <==> (entries[i].kind == 0 || entries[i].kind == 5) && Covers(entries[i], f)
    {
      assert entries[i] in entries;
      if IsRam(entries[i]) {
        ShapeKept(entries[i], f);
      }
    }
  }

  /** What a memory map without distorted entries gives the pools: its frames of RAM but frame 0, the 32 reserved ones
      and those the bitmaps do not track; below 4 GB to the low pool and above to the high one. */
  lemma FramesOfMap(entries: seq<MemmapEntry>, placement: nat, f: nat)
    requires IsPlacement(entries, placement) && forall e | e in entries :: KeepsShape(e)
    ensures var free := f > 0 && InRam(entries, f) && (f < placement / 4096 || placement / 4096 + 32 <= f);
            && (f in RamPools(entries, placement).low <==> free && f < 0x10_0000)
            && (f in RamPools(entries, placement).high <==> free && 0x10_0000 <= f < 0x30_0000)
  {
    UsableFrames(entries, placement, f);
    InRamIff(entries, f);
  }

  /** The cleared bitmaps lie inside the entry that hosts them exactly when it has 128 whole pages; 32 were asked for. */
  lemma BitmapsStayInsideIff(e: MemmapEntry)
    requires FitsBitmaps(e)
    ensures (forall f: nat | RegionStart(e) / PAGE_SIZE <= f < RegionStart(e) / PAGE_SIZE + BITMAP_FRAMES :: Inside(e, f))
       <==> RegionStart(e) + BITMAP_FRAMES * PAGE_SIZE <= RegionEnd(e)
  {
    var first := RegionStart(e) / PAGE_SIZE;
    assert RegionStart(e) == first * PAGE_SIZE;
    if RegionStart(e) + BITMAP_FRAMES * PAGE_SIZE > RegionEnd(e) {
      assert !Inside(e, first + BITMAP_FRAMES - 1);
    }
  }

  /** So an entry with room for more than the reservation gives part of its own bitmaps away. */
  lemma BitmapsAreGivenAway(entries: seq<MemmapEntry>, k: nat)
    requires k < |entries| && FitsBitmaps(entries[k]) && forall j | 0 <= j < k :: !FitsBitmaps(entries[j])
    requires RegionStart(entries[k]) + REQ_SIZE + PAGE_SIZE <= RegionEnd(entries[k])
    requires RegionStart(entries[k]) / PAGE_SIZE + 32 < LOW_FRAMES + MAX_PAGES
    ensures var placement := RegionStart(entries[k]);
            var pools := RamPools(entries, placement);
            IsPlacement(entries, placement) && placement / PAGE_SIZE + 32 in pools.low + pools.high
  {
    var placement := RegionStart(entries[k]);
    BitmapFrameIsFree(entries, placement, 32);
    assert Inside(entries[k], placement / PAGE_SIZE + 32);
  }

  /** Taking the least frame of a pool is an allocation, and one frame fewer. */
  lemma LowTaken(s: Pools, index: nat, s': Pools)
    requires IsLeast(index, s.low) && s' == s.(low := s.low - {index})
    ensures Step(s, Event(AllocLow, index * PAGE_SIZE), s') && |s'.low| == |s.low| - 1
  {
  }

  lemma HighTaken(s: Pools, index: nat, s': Pools)
    requires IsLeast(LOW_FRAMES + index, s.high) && s' == s.(high := s.high - {LOW_FRAMES + index})
    ensures Step(s, Event(AllocHigh, LOW_LIMIT + index * PAGE_SIZE), s') && |s'.high| == |s.high| - 1
  {
  }

  class Allocator {
    const lowBitmap: array<bv8>
    const bitmap: array<bv8>
    const bitmapBase: nat := LOW_LIMIT
    var lowFreeCount: nat
    var lowTotalCount: nat
    var freePagesCount: nat
    var totalPagesCount: nat

    ghost function View(): Pools
      reads lowBitmap, bitmap
    {
      Pools(FreeFrames(lowBitmap[..], 0), FreeFrames(bitmap[..], LOW_FRAMES))
    }

    /** Each free counter is the number of zero bits of its bitmap; no low bit above 4 GB is clear. */
    ghost predicate Valid()
      reads this, lowBitmap, bitmap
    {
      && lowBitmap != bitmap && lowBitmap.Length == BITMAP_SIZE && bitmap.Length == BITMAP_SIZE
      && lowFreeCount == |View().low| && freePagesCount == |View().high|
      && (forall f | f in View().low :: f < LOW_FRAMES)
    }

    constructor ()
      ensures fresh(lowBitmap) && fresh(bitmap) && lowBitmap != bitmap
      ensures lowBitmap.Length == BITMAP_SIZE && bitmap.Length == BITMAP_SIZE
      ensures lowFreeCount == lowTotalCount == freePagesCount == totalPagesCount == 0
    {
      lowBitmap := new bv8[BITMAP_SIZE];
      bitmap := new bv8[BITMAP_SIZE];
      lowFreeCount, lowTotalCount, freePagesCount, totalPagesCount := 0, 0, 0, 0;
    }

    method FreeLow(index: nat)
      requires Valid() && index < LOW_FRAMES
      modifies this`lowFreeCount, this`lowTotalCount, lowBitmap
      ensures Valid() && View() == old(View()).(low := old(View()).low + {index})
      ensures lowTotalCount == old(lowTotalCount) + |View().low| - |old(View()).low|
    {
      ghost var was := View();
      var counted := Release(lowBitmap, index, 0);
      assert View() == was.(low := was.low + {index});
      if counted {
        lowFreeCount := lowFreeCount + 1;
        lowTotalCount := lowTotalCount + 1;
      }
    }

    method FreeHigh(index: nat)
      requires Valid() && index < MAX_PAGES
      modifies this`freePagesCount, this`totalPagesCount, bitmap
      ensures Valid() && View() == old(View()).(high := old(View()).high + {LOW_FRAMES + index})
      ensures totalPagesCount == old(totalPagesCount) + |View().high| - |old(View()).high|
    {
      ghost var was := View();
      var counted := Release(bitmap, index, LOW_FRAMES);
      assert View() == was.(high := was.high + {LOW_FRAMES + index});
      if counted {
        freePagesCount := freePagesCount + 1;
        totalPagesCount := totalPagesCount + 1;
      }
    }

    /** The totals rise with every release that takes effect. */
    method PfaFree(paddr: nat)
      requires Valid()
      modifies this, lowBitmap, bitmap
      ensures Valid() && Step(old(View()), Event(Free(paddr), 0), View())
      ensures lowTotalCount == old(lowTotalCount) + |View().low| - |old(View()).low|
      ensures totalPagesCount == old(totalPagesCount) + |View().high| - |old(View()).high|
    {
      if paddr == 0 {
        return;
      }
      if paddr < LOW_LIMIT {
        var index := paddr / PAGE_SIZE;
        if index < MAX_PAGES {
          FreeLow(index);
        }
        return;
      }
      if paddr < bitmapBase {
        return;
      }
      var index := (paddr - bitmapBase) / PAGE_SIZE;
      if index >= MAX_PAGES {
        return;
      }
      assert LOW_FRAMES + index == paddr / PAGE_SIZE;
      FreeHigh(index);
    }

    /** Every frame registered so far is counted once. */
    ghost predicate CountedOnce()
      reads this
    {
      lowTotalCount == lowFreeCount && totalPagesCount == freePagesCount
    }

    /** The body of the loop over the frames of one entry. */
    method RegisterFrame(ghost done: seq<MemmapEntry>, ghost e: MemmapEntry, p: nat, placement: nat)
      requires IsRam(e) && p % PAGE_SIZE == 0 && RegionStart(e) <= p && p + PAGE_SIZE <= RegionEnd(e)
      requires Valid() && CountedOnce() && View() == PartialPools(done, e, p + PAGE_SIZE, placement)
      modifies this, lowBitmap, bitmap
      ensures Valid() && CountedOnce() && View() == PartialPools(done, e, p, placement)
    {
      NextFrame(done, e, p, placement);
      if p == 0 {
        return;
      }
      if Reserved(placement, p) {
        return;
      }
      PfaFree(p);
    }

    /** The descending loop over the frames of one usable entry. */
    method RegisterEntry(ghost done: seq<MemmapEntry>, e: MemmapEntry, placement: nat)
      requires Valid() && CountedOnce() && IsRam(e) && View() == RamPools(done, placement)
      modifies this, lowBitmap, bitmap
      ensures Valid() && CountedOnce() && View() == RamPools(done + [e], placement)
    {
      var firstPage := RegionStart(e);
      var p: nat := RegionEnd(e);
      NoneRegistered(done, e, placement);
      ghost var lastPage := p;
      while p > firstPage
        invariant Valid() && CountedOnce() && p % PAGE_SIZE == 0 && p <= lastPage
        invariant View() == PartialPools(done, e, p, placement)
      {
        StepBack(p, firstPage);
        p := p - PAGE_SIZE;
        RegisterFrame(done, e, p, placement);
      }
      AllRegistered(done, e, p, placement);
    }

    /** After a successful start, whatever the map, the free frames are exactly the non-null, unreserved frames
        that the loops see of the usable entries and the bitmaps can track, each counted once. It succeeds exactly when some
        entry has room for the bitmaps, and the first such entry hosts them. */
    method MmInit(entries: seq<MemmapEntry>) returns (ok: bool, placement: nat)
      requires lowBitmap != bitmap && lowBitmap.Length == BITMAP_SIZE && bitmap.Length == BITMAP_SIZE
      requires lowFreeCount == lowTotalCount == freePagesCount == totalPagesCount == 0
      modifies this, lowBitmap, bitmap
      ensures ok <==> exists e :: e in entries && FitsBitmaps(e)
      ensures ok ==> IsPlacement(entries, placement)
      ensures ok ==> Valid() && CountedOnce() && Proper(View()) && View() == RamPools(entries, placement)
    {
      placement := FindPlacement(entries);
      if placement == 0 {
        return false, 0;
      }
      forall i | 0 <= i < bitmap.Length { bitmap[i] := 0xFF; }
      forall i | 0 <= i < lowBitmap.Length { lowBitmap[i] := 0xFF; }
      AllUsed(lowBitmap[..], 0);
      AllUsed(bitmap[..], LOW_FRAMES);
      for i := 0 to |entries|
        invariant Valid() && CountedOnce() && View() == RamPools(entries[..i], placement)
      {
        assert entries[..i + 1] == entries[..i] + [entries[i]];
        if IsRam(entries[i]) {
          RegisterEntry(entries[..i], entries[i], placement);
        } else {
          NotRam(entries[..i], entries[i], placement);
        }
      }
      assert entries[..|entries|] == entries;
      return true, placement;
    }

    method PfaAllocLow() returns (paddr: nat)
      requires Valid()
      modifies this`lowFreeCount, lowBitmap
      ensures Valid() && Step(old(View()), Event(AllocLow, paddr), View())
    {
      ghost var was := View();
      var found, index := TakeLowest(lowBitmap, 0);
      if !found {
        return 0;
      }
      LowTaken(was, index, View());
      lowFreeCount := lowFreeCount - 1;
      return index * PAGE_SIZE;
    }

    method PfaAlloc() returns (paddr: nat)
      requires Valid()
      modifies this`freePagesCount, bitmap
      ensures Valid() && Step(old(View()), Event(AllocHigh, paddr), View())
    {
      ghost var was := View();
      var found, index := TakeLowest(bitmap, LOW_FRAMES);
      if !found {
        return 0;
      }
      HighTaken(was, index, View());
      freePagesCount := freePagesCount - 1;
      return bitmapBase + index * PAGE_SIZE;
    }
  }
}
