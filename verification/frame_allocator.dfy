/** The kernel's physical frame allocator (`BuddyFrameAllocator`). Despite
    its name it is a first-fit bitmap allocator: the Usable regions of the
    boot memory map are coalesced into a fixed table of entries, and each
    entry keeps a usage bitmap (one bit per 4 KiB page) inside the first
    pages of the memory it describes, a `skip` cursor below which every page
    is in use, and a `used` counter.

    The bitmap is modelled as a `seq<bool>` with one element per page of the
    entry; the bytes it occupies in memory are recovered by `BitmapByte`. */
module FrameAllocator {
  import opened Common
  import opened Regions

  /** `size_of::<BuddyEntry>()`: five 8-byte fields. */
  const ENTRY_SIZE: nat := 40
  /** `PAGE_SIZE / BuddyEntry::SIZE`: the entry table fills one page. */
  const TABLE_SLOTS: nat := PAGE_SIZE / ENTRY_SIZE

  /** `BuddyEntry`. `startVirt` is `startPhys` seen through the kernel's
      direct mapping of physical memory; the bitmap lives there. */
  datatype Entry = Entry(startPhys: nat, startVirt: nat, size: nat, skip: nat, used: nat, bitmap: seq<bool>)

  /** `BuddyEntry::empty()`. */
  const EMPTY_ENTRY: Entry := Entry(0, 0, 0, 0, 0, [])

  /** `total_pages`: `size >> PAGE_SHIFT`. */
  function TotalPages(e: Entry): nat {
    e.size / PAGE_SIZE
  }

  /** `usage_pages`: `(total_pages + PAGE_OFFSET_MASK) >> PAGE_SHIFT`. The
      rounding is by 4096 pages per bitmap page, not by 8 * 4096 bits, so it
      reserves more pages than the bitmap needs; the model keeps this. */
  function UsagePages(totalPages: nat): nat {
    (totalPages + PAGE_OFFSET_MASK) / PAGE_SIZE
  }

  /** The reserved pages never exceed the entry, and a non-empty entry
      reserves at least one page for its own bitmap. */
  lemma UsagePagesBounds(totalPages: nat)
    ensures UsagePages(totalPages) <= totalPages
    ensures totalPages > 0 ==> UsagePages(totalPages) >= 1
    ensures UsagePages(totalPages) * PAGE_SIZE >= totalPages
  {
  }

  /** `contains_addr`: the end of the entry is included. */
  function ContainsAddr(e: Entry, addr: nat): bool {
    e.startPhys <= addr <= e.startPhys + e.size
  }

  /** `page_is_used`. Bits past the entry's last page are not part of the
      model and read as free. */
  predicate PageIsUsed(e: Entry, page: nat) {
    page < |e.bitmap| && e.bitmap[page]
  }

  /** The invariant every entry keeps: one bit per page, every page below
      `skip` in use, and `used` equal to the number of set bits. */
  ghost predicate Valid(e: Entry) {
    && |e.bitmap| == TotalPages(e)
    && e.skip <= TotalPages(e)
    && (forall i :: 0 <= i < e.skip ==> e.bitmap[i])
    && e.used == CountTrue(e.bitmap)
  }

  //////////////////////////////////////////////////////////////////////////////
  // Bitmap bytes
  //////////////////////////////////////////////////////////////////////////////

  function BitValue(b: bool): nat { if b then 1 else 0 }

  /** The `n`-bit little-endian number whose bit `j` is the usage of page
      `from + j`. */
  function Bits(e: Entry, from: nat, n: nat): nat
    decreases n
  {
    if n == 0 then 0 else BitValue(PageIsUsed(e, from)) + 2 * Bits(e, from + 1, n - 1)
  }

  /** The byte at `start_virt + k`: bit `j` (LSB first) is page `8k + j`. */
  function BitmapByte(e: Entry, k: nat): (b: nat)
    ensures IsU8(b)
  {
    BitsBound(e, 8 * k, 8);
    Bits(e, 8 * k, 8)
  }

  lemma {:induction false} BitsBound(e: Entry, from: nat, n: nat)
    ensures Bits(e, from, n) < Pow2(n)
    decreases n
  {
    if n > 0 {
      BitsBound(e, from + 1, n - 1);
    }
  }

  function Pow2(n: nat): (p: nat)
    ensures p >= 1
  {
    if n == 0 then 1 else 2 * Pow2(n - 1)
  }

  /** `bit::BitIndex::bit(j)` on a number. */
  predicate TestBit(x: nat, j: nat)
    decreases j
  {
    if j == 0 then x % 2 == 1 else TestBit(x / 2, j - 1)
  }

  /** Reading bit `j` of the packed number gives back page `from + j`. */
  lemma {:induction false} BitsDecode(e: Entry, from: nat, n: nat, j: nat)
    requires j < n
    ensures TestBit(Bits(e, from, n), j) <==> PageIsUsed(e, from + j)
    decreases n
  {
    var rest := Bits(e, from + 1, n - 1);
    assert Bits(e, from, n) == BitValue(PageIsUsed(e, from)) + 2 * rest;
    assert (BitValue(PageIsUsed(e, from)) + 2 * rest) / 2 == rest;
    if j > 0 {
      BitsDecode(e, from + 1, n - 1, j - 1);
    }
  }

  /** `page_is_used(i)` reads bit `i % 8` of byte `i / 8` of the bitmap. */
  lemma BitmapByteDecode(e: Entry, page: nat)
    ensures TestBit(BitmapByte(e, page / 8), page % 8) <==> PageIsUsed(e, page)
  {
    var q, j := page / 8, page % 8;
    assert 8 * q + j == page;
    BitsDecode(e, 8 * q, 8, j);
  }

  //////////////////////////////////////////////////////////////////////////////
  // Counting set bits
  //////////////////////////////////////////////////////////////////////////////

  /** Changing one bit changes the count by the difference. */
  lemma {:induction false} CountTrueUpdate(s: seq<bool>, i: nat, v: bool)
    requires i < |s|
    ensures CountTrue(s[i := v]) == CountTrue(s) - BitValue(s[i]) + BitValue(v)
  {
    if i == 0 {
      assert s[i := v][1..] == s[1..];
    } else {
      assert s[i := v][1..] == s[1..][i - 1 := v];
      CountTrueUpdate(s[1..], i - 1, v);
    }
  }

  /** A bitmap whose first `n` pages are set and the rest clear has `n` set bits. */
  lemma {:induction false} CountTruePrefix(total: nat, n: nat)
    requires n <= total
    ensures CountTrue(seq(total, i => i < n)) == n
  {
    if total > 0 {
      var s := seq(total, i => i < n);
      if n > 0 {
        assert s[1..] == seq(total - 1, i => i < n - 1);
        CountTruePrefix(total - 1, n - 1);
      } else {
        assert s[1..] == seq(total - 1, i => i < 0);
        CountTruePrefix(total - 1, 0);
      }
    }
  }

  /** Sets (`v == true`) or clears pages `[s, s + len)` of a bitmap. */
  function MarkRun(bm: seq<bool>, s: nat, len: nat, v: bool): (r: seq<bool>)
    ensures |r| == |bm|
    ensures forall i :: 0 <= i < |bm| ==> r[i] == if s <= i < s + len then v else bm[i]
  {
    seq(|bm|, i requires 0 <= i < |bm| => if s <= i < s + len then v else bm[i])
  }

  /** Setting a run of clear bits adds its length to the count. */
  lemma {:induction false} CountMarkFreeRun(bm: seq<bool>, s: nat, len: nat)
    requires s + len <= |bm|
    requires forall i :: s <= i < s + len ==> !bm[i]
    ensures CountTrue(MarkRun(bm, s, len, true)) == CountTrue(bm) + len
  {
    if len > 0 {
      CountMarkFreeRun(bm, s, len - 1);
      var prev := MarkRun(bm, s, len - 1, true);
      assert MarkRun(bm, s, len, true) == prev[s + len - 1 := true];
      CountTrueUpdate(prev, s + len - 1, true);
    } else {
      assert MarkRun(bm, s, 0, true) == bm;
    }
  }

  //////////////////////////////////////////////////////////////////////////////
  // Construction
  //////////////////////////////////////////////////////////////////////////////

  /** A table slot while regions are being merged, before bitmaps exist. */
  datatype Slot = Slot(startPhys: nat, startVirt: nat, size: nat)

  const EMPTY_SLOT: Slot := Slot(0, 0, 0)

  /** Index (among the Usable regions) of the first region spanning at least
      one page: the page that will hold the entry table. */
  function TableRegion(usable: seq<MemoryRegion>, from: nat): (r: Option<nat>)
    requires WellformedMap(usable)
    decreases |usable| - from
    ensures r.Some? ==> from <= r.value < |usable| && usable[r.value].Length() >= PAGE_SIZE
    ensures r.Some? ==> forall j :: from <= j < r.value ==> usable[j].Length() < PAGE_SIZE
    ensures r.None? ==> forall j :: from <= j < |usable| ==> usable[j].Length() < PAGE_SIZE
  {
    if from >= |usable| then None
    else if usable[from].Length() >= PAGE_SIZE then Some(from)
    else TableRegion(usable, from + 1)
  }

  /** A slot takes a region when the region ends where the slot starts, starts
      where the slot ends, or the slot is still empty. */
  predicate Takes(s: Slot, start: nat, size: nat) {
    start + size == s.startPhys || start == s.startPhys + s.size || s.size == 0
  }

  /** The first slot, in table order, that takes the region. */
  function FirstTaker(slots: seq<Slot>, start: nat, size: nat, from: nat): (k: Option<nat>)
    decreases |slots| - from
    ensures k.Some? ==> from <= k.value < |slots| && Takes(slots[k.value], start, size)
    ensures k.Some? ==> forall j :: from <= j < k.value ==> !Takes(slots[j], start, size)
    ensures k.None? ==> forall j :: from <= j < |slots| ==> !Takes(slots[j], start, size)
  {
    if from >= |slots| then None
    else if Takes(slots[from], start, size) then Some(from)
    else FirstTaker(slots, start, size, from + 1)
  }

  /** What a taking slot becomes: prepend, append or fill, in that order. */
  function Absorb(s: Slot, start: nat, size: nat, physOffset: nat): Slot {
    if start + size == s.startPhys then Slot(start, physOffset + start, s.size + size)
    else if start == s.startPhys + s.size then s.(size := s.size + size)
    else Slot(start, physOffset + start, size)
  }

  /** Adding one region to the table: the first slot that takes it absorbs it;
      a region that no slot takes is dropped. */
  function MergeRegion(slots: seq<Slot>, start: nat, size: nat, physOffset: nat): (r: seq<Slot>)
    ensures |r| == |slots|
    ensures FirstTaker(slots, start, size, 0).None? ==> r == slots
    ensures FirstTaker(slots, start, size, 0).Some? ==>
              var k := FirstTaker(slots, start, size, 0).value;
              && (forall j :: 0 <= j < |slots| && j != k ==> r[j] == slots[j])
              && r[k].size == slots[k].size + size
              && (slots[k].size == 0 || r[k].startPhys == start || r[k].startPhys == slots[k].startPhys)
  {
    match FirstTaker(slots, start, size, 0)
    case None => slots
    case Some(k) => slots[k := Absorb(slots[k], start, size, physOffset)]
  }

  /** Byte `a` is one of the `size` bytes from `start`. */
  predicate Within(start: nat, size: nat, a: nat) {
    start <= a < start + size
  }

  /** A slot that absorbs a region next to it covers both, contiguously: the
      region's bytes and the slot's old bytes are exactly the slot's new bytes. */
  lemma AbsorbCovers(s: Slot, start: nat, size: nat, physOffset: nat)
    requires Takes(s, start, size)
    ensures var t := Absorb(s, start, size, physOffset);
            forall a :: Within(t.startPhys, t.size, a) <==> Within(s.startPhys, s.size, a) || Within(start, size, a)
  {
  }

  /** Byte `a` lies in some slot of the table. */
  ghost predicate SlotsCover(slots: seq<Slot>, a: nat) {
    exists i :: 0 <= i < |slots| && Within(slots[i].startPhys, slots[i].size, a)
  }

  /** A slot's `start_virt` is its address in the direct mapping, except for
      a slot at physical address 0 that kept the empty entry's null
      `start_virt`: the append test `region_start == start_phys + size`
      matches an empty entry before the fill test does. */
  predicate VirtMatches(s: Slot, physOffset: nat) {
    s.startVirt == physOffset + s.startPhys || (s.startPhys == 0 && s.startVirt == 0)
  }

  /** Merging a region adds exactly the region's bytes to the table when a
      slot takes it, and nothing otherwise; no byte is lost, and every slot
      keeps its `start_virt` in the direct mapping. */
  lemma MergeRegionCovers(slots: seq<Slot>, start: nat, size: nat, physOffset: nat)
    ensures var r := MergeRegion(slots, start, size, physOffset);
            && (forall a :: SlotsCover(r, a) ==> SlotsCover(slots, a) || Within(start, size, a))
            && (forall a :: SlotsCover(slots, a) ==> SlotsCover(r, a))
            && (FirstTaker(slots, start, size, 0).Some? ==> forall a :: Within(start, size, a) ==> SlotsCover(r, a))
            && ((forall i :: 0 <= i < |slots| ==> VirtMatches(slots[i], physOffset)) ==>
                  forall i :: 0 <= i < |r| ==> VirtMatches(r[i], physOffset))
  {
    var r := MergeRegion(slots, start, size, physOffset);
    if FirstTaker(slots, start, size, 0).Some? {
      var k := FirstTaker(slots, start, size, 0).value;
      assert r == slots[k := Absorb(slots[k], start, size, physOffset)];
      AbsorbCovers(slots[k], start, size, physOffset);
      forall a | SlotsCover(r, a) ensures SlotsCover(slots, a) || Within(start, size, a) {
        var i :| 0 <= i < |r| && Within(r[i].startPhys, r[i].size, a);
        if i != k {
          assert Within(slots[i].startPhys, slots[i].size, a);
        }
      }
      forall a | SlotsCover(slots, a) ensures SlotsCover(r, a) {
        var i :| 0 <= i < |slots| && Within(slots[i].startPhys, slots[i].size, a);
        assert Within(r[i].startPhys, r[i].size, a);
      }
      forall a | Within(start, size, a) ensures SlotsCover(r, a) {
        assert Within(r[k].startPhys, r[k].size, a);
      }
    }
  }

  /** Byte `a` of Usable region `idx` goes into the table: every byte of the
      region except, for the table region, those of its first page. */
  predicate PlacedByte(r: MemoryRegion, idx: nat, tableIdx: nat, a: nat) {
    r.start <= a < r.end && !(idx == tableIdx && a < r.start + PAGE_SIZE)
  }

  /** The part of Usable region `idx` that is added to the table: the table
      region loses its first page, and is skipped when it is exactly one page. */
  function Placed(r: MemoryRegion, idx: nat, tableIdx: nat): (p: Option<(nat, nat)>)
    requires r.Wellformed()
    requires idx == tableIdx ==> r.Length() >= PAGE_SIZE
    ensures p.None? <==> idx == tableIdx && r.Length() == PAGE_SIZE
    ensures p.Some? ==> forall a :: Within(p.value.0, p.value.1, a) <==> PlacedByte(r, idx, tableIdx, a)
    ensures p.None? ==> forall a :: !PlacedByte(r, idx, tableIdx, a)
  {
    if idx != tableIdx then Some((r.start, r.Length()))
    else if r.Length() == PAGE_SIZE then None
    else Some((r.start + PAGE_SIZE, r.Length() - PAGE_SIZE))
  }

  /** The merge loop over the Usable regions, from region `idx` on. */
  function PlaceRegions(usable: seq<MemoryRegion>, tableIdx: nat, physOffset: nat, slots: seq<Slot>, idx: nat): (r: seq<Slot>)
    requires WellformedMap(usable)
    requires tableIdx < |usable| ==> usable[tableIdx].Length() >= PAGE_SIZE
    decreases |usable| - idx
    ensures |r| == |slots|
  {
    if idx >= |usable| then slots
    else
      var next := match Placed(usable[idx], idx, tableIdx)
                  case None => slots
                  case Some(p) => MergeRegion(slots, p.0, p.1, physOffset);
      PlaceRegions(usable, tableIdx, physOffset, next, idx + 1)
  }

  /** "Allocate buddy maps": the first `usage_pages` pages of the entry are
      marked used (they hold the bitmap) and `used` and `skip` start there. */
  function BuildEntry(s: Slot): (e: Entry)
    ensures Valid(e)
    ensures e.startPhys == s.startPhys && e.startVirt == s.startVirt && e.size == s.size
    ensures e.used == e.skip == UsagePages(TotalPages(e))
    ensures forall i :: 0 <= i < TotalPages(e) ==> (PageIsUsed(e, i) <==> i < UsagePages(TotalPages(e)))
  {
    var total := s.size / PAGE_SIZE;
    var usage := UsagePages(total);
    UsagePagesBounds(total);
    CountTruePrefix(total, usage);
    Entry(s.startPhys, s.startVirt, s.size, usage, usage, seq(total, i => i < usage))
  }

  /** `BuddyFrameAllocator`: where its entry table lives, and the table. */
  datatype BuddyFrameAllocator = BuddyFrameAllocator(table: nat, entries: seq<Entry>)

  ghost predicate AllValid(a: BuddyFrameAllocator) {
    forall i :: 0 <= i < |a.entries| ==> Valid(a.entries[i])
  }

  const TABLE_NOT_FOUND: string := "MemoryRegion with size 4096 not found"

  /** `BuddyFrameAllocator::new`. */
  function New(physOffset: nat, regions: seq<MemoryRegion>): (r: Outcome<BuddyFrameAllocator>)
    requires WellformedMap(regions)
    ensures r.Panic? <==>
              || TableRegion(UsableRegions(regions), 0).None?
              || physOffset + UsableRegions(regions)[TableRegion(UsableRegions(regions), 0).value].start == 0
    ensures r.Ok? ==> var t := TableRegion(UsableRegions(regions), 0).value;
                      && r.value.table == physOffset + UsableRegions(regions)[t].start
                      && |r.value.entries| == TABLE_SLOTS
                      && AllValid(r.value)
    ensures r.Ok? ==> forall i :: 0 <= i < |r.value.entries| ==>
                        var e := r.value.entries[i];
                        && e.used == e.skip == UsagePages(TotalPages(e))
                        && (forall p :: 0 <= p < TotalPages(e) ==> (PageIsUsed(e, p) <==> p < UsagePages(TotalPages(e))))
  {
    var usable := UsableRegions(regions);
    assert WellformedMap(usable);
    match TableRegion(usable, 0)
    case None => Panic(TABLE_NOT_FOUND)
    case Some(t) =>
      if physOffset + usable[t].start == 0 then Panic(TABLE_NOT_FOUND)
      else
        var slots := PlaceRegions(usable, t, physOffset, seq(TABLE_SLOTS, _ => EMPTY_SLOT), 0);
        Ok(BuddyFrameAllocator(physOffset + usable[t].start, seq(TABLE_SLOTS, i requires 0 <= i < TABLE_SLOTS => BuildEntry(slots[i]))))
  }

  //////////////////////////////////////////////////////////////////////////////
  // Table layout
  //////////////////////////////////////////////////////////////////////////////

  /** Byte `a` comes from one of the Usable regions `lo .. hi - 1`. */
  ghost predicate PlacedIn(usable: seq<MemoryRegion>, tableIdx: nat, lo: nat, hi: nat, a: nat)
    requires hi <= |usable|
  {
    exists j :: lo <= j < hi && PlacedByte(usable[j], j, tableIdx, a)
  }

  /** From region `idx` on, every non-empty region placed into the table
      finds a slot that takes it: the merge loop drops no bytes. */
  ghost predicate EveryRegionTaken(usable: seq<MemoryRegion>, tableIdx: nat, physOffset: nat, slots: seq<Slot>, idx: nat)
    requires WellformedMap(usable)
    requires tableIdx < |usable| ==> usable[tableIdx].Length() >= PAGE_SIZE
    decreases |usable| - idx
  {
    idx >= |usable| ||
    match Placed(usable[idx], idx, tableIdx)
    case None => EveryRegionTaken(usable, tableIdx, physOffset, slots, idx + 1)
    case Some(p) =>
      && (p.1 == 0 || FirstTaker(slots, p.0, p.1, 0).Some?)
      && EveryRegionTaken(usable, tableIdx, physOffset, MergeRegion(slots, p.0, p.1, physOffset), idx + 1)
  }

  /** The merge loop from region `idx` on only adds placed bytes, loses none,
      keeps `start_virt` in the direct mapping, and, when no region is
      dropped, covers every placed byte of the remaining regions. */
  lemma {:induction false} PlaceRegionsLayout(usable: seq<MemoryRegion>, tableIdx: nat, physOffset: nat, slots: seq<Slot>, idx: nat)
    requires WellformedMap(usable)
    requires tableIdx < |usable| && usable[tableIdx].Length() >= PAGE_SIZE
    requires idx <= |usable|
    requires forall a :: SlotsCover(slots, a) ==> PlacedIn(usable, tableIdx, 0, idx, a)
    requires forall i :: 0 <= i < |slots| ==> VirtMatches(slots[i], physOffset)
    decreases |usable| - idx
    ensures var r := PlaceRegions(usable, tableIdx, physOffset, slots, idx);
            && (forall a :: SlotsCover(r, a) ==> PlacedIn(usable, tableIdx, 0, |usable|, a))
            && (forall i :: 0 <= i < |r| ==> VirtMatches(r[i], physOffset))
            && (forall a :: SlotsCover(slots, a) ==> SlotsCover(r, a))
            && (EveryRegionTaken(usable, tableIdx, physOffset, slots, idx) ==>
                  forall a :: PlacedIn(usable, tableIdx, idx, |usable|, a) ==> SlotsCover(r, a))
  {
    if idx < |usable| {
      var placed := Placed(usable[idx], idx, tableIdx);
      var next := match placed
                  case None => slots
                  case Some(p) => MergeRegion(slots, p.0, p.1, physOffset);
      assert PlaceRegions(usable, tableIdx, physOffset, slots, idx) == PlaceRegions(usable, tableIdx, physOffset, next, idx + 1);
      if placed.Some? {
        MergeRegionCovers(slots, placed.value.0, placed.value.1, physOffset);
      }
      forall a | SlotsCover(next, a) ensures PlacedIn(usable, tableIdx, 0, idx + 1, a) {
        if SlotsCover(slots, a) {
          var j :| 0 <= j < idx && PlacedByte(usable[j], j, tableIdx, a);
        } else {
          assert PlacedByte(usable[idx], idx, tableIdx, a);
        }
      }
      assert forall i :: 0 <= i < |next| ==> VirtMatches(next[i], physOffset);
      PlaceRegionsLayout(usable, tableIdx, physOffset, next, idx + 1);
      var r := PlaceRegions(usable, tableIdx, physOffset, next, idx + 1);
      assert PlaceRegions(usable, tableIdx, physOffset, slots, idx) == r;
      forall i | 0 <= i < |r| ensures VirtMatches(r[i], physOffset) {
        assert VirtMatches(PlaceRegions(usable, tableIdx, physOffset, next, idx + 1)[i], physOffset);
      }
      if EveryRegionTaken(usable, tableIdx, physOffset, slots, idx) {
        assert EveryRegionTaken(usable, tableIdx, physOffset, next, idx + 1);
        forall a | PlacedIn(usable, tableIdx, idx, |usable|, a) ensures SlotsCover(r, a) {
          var j :| idx <= j < |usable| && PlacedByte(usable[j], j, tableIdx, a);
          if j == idx {
            assert placed.Some? && Within(placed.value.0, placed.value.1, a);
            assert SlotsCover(next, a);
          } else {
            assert PlacedIn(usable, tableIdx, idx + 1, |usable|, a);
          }
        }
      }
    }
  }

  /** With no more Usable regions than table slots nothing is dropped: while
      region `idx` is merged, slot `idx` and all later ones are still empty,
      so some slot takes the region. */
  lemma {:induction false} FewRegionsAllTaken(usable: seq<MemoryRegion>, tableIdx: nat, physOffset: nat, slots: seq<Slot>, idx: nat)
    requires WellformedMap(usable)
    requires tableIdx < |usable| && usable[tableIdx].Length() >= PAGE_SIZE
    requires idx <= |usable| <= |slots|
    requires forall i :: idx <= i < |slots| ==> slots[i].size == 0
    decreases |usable| - idx
    ensures EveryRegionTaken(usable, tableIdx, physOffset, slots, idx)
  {
    if idx < |usable| {
      match Placed(usable[idx], idx, tableIdx)
      case None =>
        FewRegionsAllTaken(usable, tableIdx, physOffset, slots, idx + 1);
      case Some(p) =>
        assert Takes(slots[idx], p.0, p.1);
        var k := FirstTaker(slots, p.0, p.1, 0);
        assert k.Some? && k.value <= idx;
        var next := MergeRegion(slots, p.0, p.1, physOffset);
        assert forall i :: idx + 1 <= i < |next| ==> next[i] == slots[i];
        FewRegionsAllTaken(usable, tableIdx, physOffset, next, idx + 1);
    }
  }

  /** The table `new` builds holds exactly the Usable memory minus the page
      the table occupies: every byte of every entry comes from a Usable
      region and is not in the table region's first page, and with at most
      102 Usable regions every such byte lies in some entry. Each entry's
      `start_virt` is its address in the direct mapping (or null, for an
      entry at physical address 0). */
  lemma NewLayout(physOffset: nat, regions: seq<MemoryRegion>)
    requires WellformedMap(regions)
    requires New(physOffset, regions).Ok?
    ensures var usable := UsableRegions(regions);
            var t := TableRegion(usable, 0).value;
            var es := New(physOffset, regions).value.entries;
            && AllPlaced(usable, t, es)
            && (forall i :: 0 <= i < |es| ==>
                  es[i].startVirt == physOffset + es[i].startPhys || (es[i].startPhys == 0 && es[i].startVirt == 0))
            && (|usable| <= TABLE_SLOTS ==>
                  forall a :: PlacedIn(usable, t, 0, |usable|, a) ==>
                    exists i :: 0 <= i < |es| && Within(es[i].startPhys, es[i].size, a))
  {
    var usable := UsableRegions(regions);
    var t := TableRegion(usable, 0).value;
    var empty := seq(TABLE_SLOTS, _ => EMPTY_SLOT);
    var slots := PlaceRegions(usable, t, physOffset, empty, 0);
    var es := New(physOffset, regions).value.entries;
    assert es == seq(TABLE_SLOTS, i requires 0 <= i < TABLE_SLOTS => BuildEntry(slots[i]));
    assert forall a :: !SlotsCover(empty, a);
    PlaceRegionsLayout(usable, t, physOffset, empty, 0);
    forall i, a | 0 <= i < |es| && Within(es[i].startPhys, es[i].size, a)
      ensures PlacedIn(usable, t, 0, |usable|, a)
    {
      assert Within(slots[i].startPhys, slots[i].size, a);
    }
    if |usable| <= TABLE_SLOTS {
      FewRegionsAllTaken(usable, t, physOffset, empty, 0);
      forall a | PlacedIn(usable, t, 0, |usable|, a)
        ensures exists i :: 0 <= i < |es| && Within(es[i].startPhys, es[i].size, a)
      {
        var i :| 0 <= i < |slots| && Within(slots[i].startPhys, slots[i].size, a);
        assert Within(es[i].startPhys, es[i].size, a);
      }
    }
  }

  /** When the Usable regions do not overlap, no entry of the table `new`
      builds reaches into the page that holds the table itself. */
  lemma NewAvoidsTablePage(physOffset: nat, regions: seq<MemoryRegion>)
    requires WellformedMap(regions)
    requires New(physOffset, regions).Ok?
    requires Disjoint(UsableRegions(regions))
    ensures var usable := UsableRegions(regions);
            var t := TableRegion(usable, 0).value;
            AvoidsPage(New(physOffset, regions).value.entries, usable[t].start)
  {
    var usable := UsableRegions(regions);
    var t := TableRegion(usable, 0).value;
    var es := New(physOffset, regions).value.entries;
    NewLayout(physOffset, regions);
    EntriesAvoidTablePage(usable, t, es);
  }

  /** Every byte of every entry is a placed byte. */
  ghost predicate AllPlaced(usable: seq<MemoryRegion>, tableIdx: nat, es: seq<Entry>) {
    forall i, a: nat :: 0 <= i < |es| && Within(es[i].startPhys, es[i].size, a) ==> PlacedIn(usable, tableIdx, 0, |usable|, a)
  }

  /** No byte of any entry lies in the page starting at `page`. */
  ghost predicate AvoidsPage(es: seq<Entry>, page: nat) {
    forall i, a: nat :: 0 <= i < |es| && Within(es[i].startPhys, es[i].size, a) ==> !(page <= a < page + PAGE_SIZE)
  }

  /** Lifts `PlacedAvoidsTablePage` to every byte of a list of entries whose
      bytes are all placed. */
  lemma EntriesAvoidTablePage(usable: seq<MemoryRegion>, tableIdx: nat, es: seq<Entry>)
    requires WellformedMap(usable) && Disjoint(usable)
    requires tableIdx < |usable| && usable[tableIdx].Length() >= PAGE_SIZE
    requires AllPlaced(usable, tableIdx, es)
    ensures AvoidsPage(es, usable[tableIdx].start)
  {
    PlacedAvoidsTablePage(usable, tableIdx);
    forall i, a: nat | 0 <= i < |es| && Within(es[i].startPhys, es[i].size, a)
      ensures !(usable[tableIdx].start <= a < usable[tableIdx].start + PAGE_SIZE)
    {
      assert PlacedIn(usable, tableIdx, 0, |usable|, a);
    }
  }

  /** When the Usable regions do not overlap, no placed byte lies in the page
      that holds the entry table. */
  lemma PlacedAvoidsTablePage(usable: seq<MemoryRegion>, tableIdx: nat)
    requires WellformedMap(usable) && Disjoint(usable)
    requires tableIdx < |usable| && usable[tableIdx].Length() >= PAGE_SIZE
    ensures forall a: nat :: PlacedIn(usable, tableIdx, 0, |usable|, a) ==>
              !(usable[tableIdx].start <= a < usable[tableIdx].start + PAGE_SIZE)
  {
    forall a: nat | PlacedIn(usable, tableIdx, 0, |usable|, a)
      ensures !(usable[tableIdx].start <= a < usable[tableIdx].start + PAGE_SIZE)
    {
      var j :| 0 <= j < |usable| && PlacedByte(usable[j], j, tableIdx, a);
      if j != tableIdx {
        assert usable[j].end <= usable[tableIdx].start || usable[tableIdx].end <= usable[j].start;
      }
    }
  }

  //////////////////////////////////////////////////////////////////////////////
  // Allocation
  //////////////////////////////////////////////////////////////////////////////

  /** Pages `[s, s + length)` all exist and are all free. */
  predicate IsFreeRun(e: Entry, s: nat, length: nat) {
    s + length <= TotalPages(e) && forall k :: s <= k < s + length ==> !PageIsUsed(e, k)
  }

  /** Reference first fit: the lowest `s >= from` starting a free run of
      `length` pages; there is none for `length == 0`. */
  function FirstFreeRun(e: Entry, from: nat, length: nat): (r: Option<nat>)
    decreases TotalPages(e) - from
    ensures r.Some? ==> length > 0 && from <= r.value && IsFreeRun(e, r.value, length)
    ensures r.Some? ==> forall s :: from <= s < r.value ==> !IsFreeRun(e, s, length)
    ensures r.None? ==> length == 0 || forall s :: from <= s ==> !IsFreeRun(e, s, length)
  {
    if length == 0 || from + length > TotalPages(e) then None
    else if IsFreeRun(e, from, length) then Some(from)
    else FirstFreeRun(e, from + 1, length)
  }

  /** `find_free_range`, as the source scans: from `skip`, counting the free
      pages since the last used one. */
  method FindFreeRange(e: Entry, length: nat) returns (r: Option<nat>)
    ensures r == FirstFreeRun(e, e.skip, length)
    ensures r.Some? ==> e.skip <= r.value && IsFreeRun(e, r.value, length)
    ensures r.None? <==> length == 0 || forall s :: e.skip <= s ==> !IsFreeRun(e, s, length)
  {
    var freePage := 0;
    var freeCount := 0;
    var page := e.skip;
    while page < TotalPages(e)
      invariant e.skip <= page
      invariant page <= TotalPages(e) || page == e.skip
      invariant freeCount <= page - e.skip
      invariant forall k :: page - freeCount <= k < page ==> !PageIsUsed(e, k)
      invariant page - freeCount == e.skip || PageIsUsed(e, page - freeCount - 1)
      invariant freeCount > 0 ==> freePage == page - freeCount
      invariant length > 0 ==> freeCount < length
      invariant length > 0 ==> forall s :: e.skip <= s && s + length <= page ==> !IsFreeRun(e, s, length)
    {
      if PageIsUsed(e, page) {
        freeCount := 0;
        page := page + 1;
        continue;
      }
      if freeCount == 0 {
        freePage := page;
      }
      freeCount := freeCount + 1;
      if freeCount == length {
        assert IsFreeRun(e, freePage, length);
        return Some(freePage);
      }
      page := page + 1;
    }
    return None;
  }

  /** The outcome of `allocate_range` on one entry: the entry afterwards, the
      physical address returned, and the virtual addresses of the pages it
      zeroed, in order. */
  datatype AllocStep = AllocStep(entry: Entry, addr: Option<nat>, zeroed: seq<nat>)

  /** `allocate_range`. The early exit compares the entry's size in bytes with
      its used count in pages, as the source does. */
  function AllocateRange(e: Entry, length: nat): (r: AllocStep)
    ensures r.addr.None? ==> r.entry == e && r.zeroed == []
    ensures r.addr.Some? <==> e.size - e.used >= length && FirstFreeRun(e, e.skip, length).Some?
    ensures r.addr.Some? ==>
              var s := FirstFreeRun(e, e.skip, length).value;
              && r.addr.value == e.startPhys + s * PAGE_SIZE
              && r.entry.startPhys == e.startPhys && r.entry.startVirt == e.startVirt && r.entry.size == e.size
              && r.entry.used == e.used + length
              && r.entry.skip == (if e.skip == s then e.skip + length else e.skip)
              && (forall i :: 0 <= i < |e.bitmap| ==> (PageIsUsed(r.entry, i) <==> PageIsUsed(e, i) || s <= i < s + length))
              && |r.zeroed| == length
              && (forall k :: 0 <= k < length ==> r.zeroed[k] == e.startVirt + (s + k) * PAGE_SIZE)
  {
    if e.size - e.used < length then AllocStep(e, None, [])
    else match FirstFreeRun(e, e.skip, length)
      case None => AllocStep(e, None, [])
      case Some(s) =>
        var e' := e.(bitmap := MarkRun(e.bitmap, s, length, true),
                     skip := if e.skip == s then e.skip + length else e.skip,
                     used := e.used + length);
        AllocStep(e', Some(e.startPhys + s * PAGE_SIZE), seq(length, k => e.startVirt + (s + k) * PAGE_SIZE))
  }

  /** Allocation keeps the entry's invariant. */
  lemma AllocateRangeValid(e: Entry, length: nat)
    requires Valid(e)
    ensures Valid(AllocateRange(e, length).entry)
  {
    var r := AllocateRange(e, length);
    if r.addr.Some? {
      var s := FirstFreeRun(e, e.skip, length).value;
      assert IsFreeRun(e, s, length);
      forall i | s <= i < s + length ensures !e.bitmap[i] {
        assert !PageIsUsed(e, i);
      }
      CountMarkFreeRun(e.bitmap, s, length);
    }
  }

  /** Because every page below `skip` is used, scanning from `skip` finds the
      lowest free run of the whole entry: `skip` only saves work. */
  lemma SkipIsOnlyAShortcut(e: Entry, length: nat)
    requires Valid(e)
    ensures FirstFreeRun(e, e.skip, length) == FirstFreeRun(e, 0, length)
  {
    forall s | 0 <= s < e.skip && length > 0
      ensures !IsFreeRun(e, s, length)
    {
      assert PageIsUsed(e, s);
    }
  }

  //////////////////////////////////////////////////////////////////////////////
  // Deallocation
  //////////////////////////////////////////////////////////////////////////////

  const ALREADY_FREE: string := "tried to free already free page"
  const SUB_OVERFLOW: string := "attempt to subtract with overflow"

  /** `deallocate_range` in closed form. The source's loop checks and clears
      `start_page` on every iteration, so any `length >= 2` panics on the
      second iteration; only `length <= 1` can complete. */
  function DeallocateRange(e: Entry, addr: nat, length: nat): (r: Outcome<Entry>)
    ensures addr < e.startPhys ==> r.Panic?
    ensures addr >= e.startPhys && length == 0 ==> r == Ok(e)
    ensures length >= 2 ==> r.Panic?
    ensures addr >= e.startPhys && length >= 1 && !PageIsUsed(e, (addr - e.startPhys) / PAGE_SIZE) ==>
              r == Panic(ALREADY_FREE)
    ensures r.Ok? && length == 1 ==>
              var p := (addr - e.startPhys) / PAGE_SIZE;
              && PageIsUsed(e, p) && !PageIsUsed(r.value, p)
              && (forall i :: i != p ==> (PageIsUsed(r.value, i) <==> PageIsUsed(e, i)))
              && r.value.used + 1 == e.used
              && r.value.skip == (if p < e.skip then p else e.skip)
  {
    if addr < e.startPhys then Panic(SUB_OVERFLOW)
    else
      var p := (addr - e.startPhys) / PAGE_SIZE;
      if length == 0 then Ok(e)
      else if !PageIsUsed(e, p) then Panic(ALREADY_FREE)
      else if e.used == 0 then Panic(SUB_OVERFLOW)
      else if length >= 2 then Panic(ALREADY_FREE)
      else Ok(e.(bitmap := e.bitmap[p := false], skip := if p < e.skip then p else e.skip, used := e.used - 1))
  }

  /** Nothing stops a caller from freeing a page that holds an entry's own
      bitmap: the first page of a fresh entry passes the free check, and the
      next one-page allocation hands it out again and zeroes it at the
      entry's `start_virt`, where the bitmap lives. */
  lemma BitmapPageCanBeReallocated(s: Slot)
    requires s.size >= PAGE_SIZE
    ensures var e := BuildEntry(s);
            && 0 < UsagePages(TotalPages(e)) && PageIsUsed(e, 0)
            && DeallocateRange(e, s.startPhys, 1).Ok?
            && AllocateRange(DeallocateRange(e, s.startPhys, 1).value, 1).addr == Some(s.startPhys)
            && AllocateRange(DeallocateRange(e, s.startPhys, 1).value, 1).zeroed == [s.startVirt]
  {
    var e := BuildEntry(s);
    UsagePagesBounds(TotalPages(e));
    assert PageIsUsed(e, 0);
    var e2 := DeallocateRange(e, s.startPhys, 1).value;
    assert e2.skip == 0 && !PageIsUsed(e2, 0);
    assert IsFreeRun(e2, 0, 1);
    assert FirstFreeRun(e2, 0, 1) == Some(0);
    assert e2.used < e.used <= TotalPages(e);
  }

  /** `deallocate_range` as the source writes it: a loop over
      `start_page..start_page + length` that tests and clears `start_page`. */
  method DeallocateRangeLoop(e: Entry, addr: nat, length: nat) returns (r: Outcome<Entry>)
    ensures r == DeallocateRange(e, addr, length)
  {
    if addr < e.startPhys {
      return Panic(SUB_OVERFLOW);
    }
    var startPage := (addr - e.startPhys) / PAGE_SIZE;
    var cur := e;
    var page := startPage;
    while page < startPage + length
      invariant startPage <= page <= startPage + length
      invariant page == startPage ==> cur == e
      invariant page > startPage ==> page == startPage + 1 && PageIsUsed(e, startPage) && e.used > 0
      invariant page > startPage ==> cur == e.(bitmap := e.bitmap[startPage := false],
                                               skip := if startPage < e.skip then startPage else e.skip,
                                               used := e.used - 1)
      decreases startPage + length - page
    {
      if !PageIsUsed(cur, startPage) {
        return Panic(ALREADY_FREE);
      }
      var cleared := cur.bitmap[startPage := false];
      var skip := if page < cur.skip then page else cur.skip;
      if cur.used == 0 {
        return Panic(SUB_OVERFLOW);
      }
      cur := cur.(bitmap := cleared, skip := skip, used := cur.used - 1);
      page := page + 1;
    }
    return Ok(cur);
  }

  /** Freeing a single used page keeps the entry's invariant. */
  lemma DeallocateRangeValid(e: Entry, addr: nat, length: nat)
    requires Valid(e)
    requires DeallocateRange(e, addr, length).Ok?
    ensures Valid(DeallocateRange(e, addr, length).value)
  {
    if length == 1 {
      var p := (addr - e.startPhys) / PAGE_SIZE;
      CountTrueUpdate(e.bitmap, p, false);
    }
  }

  //////////////////////////////////////////////////////////////////////////////
  // The allocator
  //////////////////////////////////////////////////////////////////////////////

  /** The outcome of `allocate_frames_range`. */
  datatype Allocation = Allocation(allocator: BuddyFrameAllocator, frame: Option<nat>, zeroed: seq<nat>)

  /** `find_map` over the entries from index `from`: the first entry whose
      `allocate_range` succeeds; a failing entry is left unchanged. */
  function AllocateFrom(entries: seq<Entry>, from: nat, length: nat): (r: (seq<Entry>, Option<nat>, Option<nat>, seq<nat>))
    decreases |entries| - from
    ensures |r.0| == |entries|
    ensures r.1.None? ==> r.0 == entries && r.2.None?
    ensures r.1.Some? ==> from <= r.1.value < |entries|
    ensures r.1.Some? ==> var k := r.1.value;
              && AllocateRange(entries[k], length).addr.Some?
              && (forall j :: from <= j < k ==> AllocateRange(entries[j], length).addr.None?)
              && r.0 == entries[k := AllocateRange(entries[k], length).entry]
              && r.2 == AllocateRange(entries[k], length).addr
              && r.3 == AllocateRange(entries[k], length).zeroed
    ensures r.1.None? ==> forall j :: from <= j < |entries| ==> AllocateRange(entries[j], length).addr.None?
  {
    if from >= |entries| then (entries, None, None, [])
    else
      var step := AllocateRange(entries[from], length);
      if step.addr.Some? then (entries[from := step.entry], Some(from), step.addr, step.zeroed)
      else AllocateFrom(entries, from + 1, length)
  }

  /** `allocate_frames_range`: the frame containing the address the first
      successful entry returns. */
  function AllocateFramesRange(a: BuddyFrameAllocator, length: nat): (r: Allocation)
    ensures r.allocator.table == a.table && |r.allocator.entries| == |a.entries|
    ensures r.frame.None? ==> r.allocator == a
    ensures r.frame.Some? ==> r.frame.value % PAGE_SIZE == 0
    ensures r.frame.Some? <==> exists k :: 0 <= k < |a.entries| && AllocateRange(a.entries[k], length).addr.Some?
    ensures r.frame.Some? ==>
              exists k :: 0 <= k < |a.entries|
                          && AllocateRange(a.entries[k], length).addr.Some?
                          && (forall j :: 0 <= j < k ==> AllocateRange(a.entries[j], length).addr.None?)
                          && r.allocator.entries == a.entries[k := AllocateRange(a.entries[k], length).entry]
                          && r.frame.value == ContainingFrame(AllocateRange(a.entries[k], length).addr.value)
                          && r.zeroed == AllocateRange(a.entries[k], length).zeroed
  {
    var (entries, k, addr, zeroed) := AllocateFrom(a.entries, 0, length);
    Allocation(BuddyFrameAllocator(a.table, entries), if addr.Some? then Some(ContainingFrame(addr.value)) else None, zeroed)
  }

  /** `FrameAllocator::allocate_frame`: a run of one page. */
  function AllocateFrame(a: BuddyFrameAllocator): (r: Allocation)
    ensures r.frame.Some? ==> r.frame.value % PAGE_SIZE == 0 && |r.zeroed| == 1
    ensures r.frame.None? <==> forall k :: 0 <= k < |a.entries| ==> AllocateRange(a.entries[k], 1).addr.None?
    ensures r.frame.None? ==> r.allocator == a
  {
    AllocateFramesRange(a, 1)
  }

  /** The first entry, in table order, whose range contains `addr`. */
  function FirstContaining(entries: seq<Entry>, addr: nat, from: nat): (k: Option<nat>)
    decreases |entries| - from
    ensures k.Some? ==> from <= k.value < |entries| && ContainsAddr(entries[k.value], addr)
    ensures k.Some? ==> forall j :: from <= j < k.value ==> !ContainsAddr(entries[j], addr)
    ensures k.None? ==> forall j :: from <= j < |entries| ==> !ContainsAddr(entries[j], addr)
  {
    if from >= |entries| then None
    else if ContainsAddr(entries[from], addr) then Some(from)
    else FirstContaining(entries, addr, from + 1)
  }

  /** `deallocate_frames_range`: the first entry containing the frame frees
      it; a frame no entry contains is ignored. */
  function DeallocateFramesRange(a: BuddyFrameAllocator, frame: nat, length: nat): (r: Outcome<BuddyFrameAllocator>)
    ensures FirstContaining(a.entries, frame, 0).None? ==> r == Ok(a)
    ensures FirstContaining(a.entries, frame, 0).Some? ==>
              var k := FirstContaining(a.entries, frame, 0).value;
              match DeallocateRange(a.entries[k], frame, length)
              case Panic(m) => r == Panic(m)
              case Ok(e) => r == Ok(a.(entries := a.entries[k := e]))
  {
    match FirstContaining(a.entries, frame, 0)
    case None => Ok(a)
    case Some(k) =>
      match DeallocateRange(a.entries[k], frame, length)
      case Panic(m) => Panic(m)
      case Ok(e) => Ok(a.(entries := a.entries[k := e]))
  }

  /** `FrameDeallocator::deallocate_frame`: a run of one page. */
  function DeallocateFrame(a: BuddyFrameAllocator, frame: nat): (r: Outcome<BuddyFrameAllocator>)
    ensures r.Ok? ==> |r.value.entries| == |a.entries| && r.value.table == a.table
    ensures FirstContaining(a.entries, frame, 0).None? ==> r == Ok(a)
    ensures FirstContaining(a.entries, frame, 0).Some? ==>
              (r.Panic? <==> DeallocateRange(a.entries[FirstContaining(a.entries, frame, 0).value], frame, 1).Panic?)
  {
    DeallocateFramesRange(a, frame, 1)
  }

  /** `free_pages`: the sum of `total_pages - used` over the entries. */
  function FreePages(entries: seq<Entry>): int {
    if entries == [] then 0 else TotalPages(entries[0]) - entries[0].used + FreePages(entries[1..])
  }

  /** The number of clear bits of every entry's bitmap. */
  function FreeBits(entries: seq<Entry>): nat {
    if entries == [] then 0 else |entries[0].bitmap| - CountTrue(entries[0].bitmap) + FreeBits(entries[1..])
  }

  /** Under the invariant `free_pages` counts exactly the free pages. */
  lemma {:induction false} FreePagesCountsFreeBits(entries: seq<Entry>)
    requires forall i :: 0 <= i < |entries| ==> Valid(entries[i])
    ensures FreePages(entries) == FreeBits(entries)
  {
    if entries != [] {
      assert forall i :: 0 <= i < |entries[1..]| ==> entries[1..][i] == entries[i + 1];
      FreePagesCountsFreeBits(entries[1..]);
    }
  }

  /** Replacing one entry changes `free_pages` by that entry's change. */
  lemma {:induction false} FreePagesUpdate(entries: seq<Entry>, k: nat, e: Entry)
    requires k < |entries|
    ensures FreePages(entries[k := e]) == FreePages(entries)
              - (TotalPages(entries[k]) - entries[k].used) + (TotalPages(e) - e.used)
  {
    if k == 0 {
      assert entries[k := e][1..] == entries[1..];
    } else {
      assert entries[k := e][1..] == entries[1..][k - 1 := e];
      FreePagesUpdate(entries[1..], k - 1, e);
    }
  }

  /** A successful allocation of `length` pages keeps every entry valid and
      lowers `free_pages` by exactly `length`; a failed one changes nothing. */
  lemma AllocateFramesRangeAccounting(a: BuddyFrameAllocator, length: nat)
    requires AllValid(a)
    ensures AllValid(AllocateFramesRange(a, length).allocator)
    ensures AllocateFramesRange(a, length).frame.Some? ==>
              FreePages(AllocateFramesRange(a, length).allocator.entries) == FreePages(a.entries) - length
    ensures AllocateFramesRange(a, length).frame.None? ==> AllocateFramesRange(a, length).allocator == a
  {
    var (entries, k, addr, zeroed) := AllocateFrom(a.entries, 0, length);
    if k.Some? {
      AllocateRangeValid(a.entries[k.value], length);
      FreePagesUpdate(a.entries, k.value, AllocateRange(a.entries[k.value], length).entry);
    }
  }

  /** A successful free keeps every entry valid and raises `free_pages` by the
      number of pages freed (one, or none for a frame outside every entry). */
  lemma DeallocateFramesRangeAccounting(a: BuddyFrameAllocator, frame: nat, length: nat)
    requires AllValid(a)
    requires DeallocateFramesRange(a, frame, length).Ok?
    ensures AllValid(DeallocateFramesRange(a, frame, length).value)
    ensures FreePages(DeallocateFramesRange(a, frame, length).value.entries)
            == FreePages(a.entries) + (if FirstContaining(a.entries, frame, 0).Some? then length else 0)
  {
    match FirstContaining(a.entries, frame, 0)
    case None =>
    case Some(k) =>
      DeallocateRangeValid(a.entries[k], frame, length);
      var e := DeallocateRange(a.entries[k], frame, length).value;
      FreePagesUpdate(a.entries, k, e);
  }
}
