/** The scenarios of the frame allocator's own unit tests, proved for every
    placement of the 5-page, page-aligned test areas rather than for one. */
module FrameAllocatorExamples {
  import opened Common
  import opened Regions
  import opened FrameAllocator

  /** A Usable area of five pages at `a` (`TestMemoryArea::region`). */
  function Area(a: nat): MemoryRegion {
    MemoryRegion(a, a + 5 * PAGE_SIZE, Usable)
  }

  /** The entry the tests expect for an area whose first page went to the
      entry table: four pages, the first one holding the bitmap. */
  function RootEntry(a: nat): Entry {
    Entry(a + PAGE_SIZE, a + PAGE_SIZE, 4 * PAGE_SIZE, 1, 1, [true, false, false, false])
  }

  lemma EmptySlotBuildsEmptyEntry()
    ensures BuildEntry(EMPTY_SLOT) == EMPTY_ENTRY
  {
  }

  /** The slots `new` fills for one area. */
  lemma OneAreaSlots(a: nat) returns (slots: seq<Slot>)
    requires a > 0
    ensures WellformedMap(UsableRegions([Area(a)]))
    ensures TableRegion(UsableRegions([Area(a)]), 0) == Some(0)
    ensures slots == PlaceRegions(UsableRegions([Area(a)]), 0, 0, seq(TABLE_SLOTS, _ => EMPTY_SLOT), 0)
    ensures slots[0] == Slot(a + PAGE_SIZE, a + PAGE_SIZE, 4 * PAGE_SIZE) && slots[1] == EMPTY_SLOT
  {
    var usable := UsableRegions([Area(a)]);
    assert usable == [Area(a)];
    assert TableRegion(usable, 0) == Some(0);
    var empty := seq(TABLE_SLOTS, _ => EMPTY_SLOT);
    assert FirstTaker(empty, a + PAGE_SIZE, 4 * PAGE_SIZE, 0) == Some(0);
    slots := MergeRegion(empty, a + PAGE_SIZE, 4 * PAGE_SIZE, 0);
    assert PlaceRegions(usable, 0, 0, empty, 0) == slots;
  }

  /** `one_memory_region`: the area loses its first page to the table and the
      next slot stays empty. */
  lemma OneMemoryRegion(a: nat)
    requires a > 0
    ensures New(0, [Area(a)]).Ok?
    ensures New(0, [Area(a)]).value.entries[0] == RootEntry(a)
    ensures New(0, [Area(a)]).value.entries[1] == EMPTY_ENTRY
  {
    var slots := OneAreaSlots(a);
    assert BuildEntry(slots[0]).bitmap == [true, false, false, false];
    EmptySlotBuildsEmptyEntry();
  }

  /** The slots `new` fills for two areas that do not touch. */
  lemma SeparateAreaSlots(a: nat, b: nat) returns (slots: seq<Slot>)
    requires a > 0 && b > a + 5 * PAGE_SIZE
    ensures WellformedMap(UsableRegions([Area(a), Area(b)]))
    ensures TableRegion(UsableRegions([Area(a), Area(b)]), 0) == Some(0)
    ensures slots == PlaceRegions(UsableRegions([Area(a), Area(b)]), 0, 0, seq(TABLE_SLOTS, _ => EMPTY_SLOT), 0)
    ensures slots[0] == Slot(a + PAGE_SIZE, a + PAGE_SIZE, 4 * PAGE_SIZE) && slots[1] == Slot(b, b, 5 * PAGE_SIZE)
    ensures forall i :: 2 <= i < TABLE_SLOTS ==> slots[i] == EMPTY_SLOT
  {
    var usable := UsableRegions([Area(a), Area(b)]);
    assert usable == [Area(a), Area(b)];
    assert TableRegion(usable, 0) == Some(0);
    var empty := seq(TABLE_SLOTS, _ => EMPTY_SLOT);
    assert FirstTaker(empty, a + PAGE_SIZE, 4 * PAGE_SIZE, 0) == Some(0);
    var slots1 := MergeRegion(empty, a + PAGE_SIZE, 4 * PAGE_SIZE, 0);
    assert slots1[0] == Slot(a + PAGE_SIZE, a + PAGE_SIZE, 4 * PAGE_SIZE);
    assert !Takes(slots1[0], b, 5 * PAGE_SIZE);
    assert FirstTaker(slots1, b, 5 * PAGE_SIZE, 1) == Some(1);
    assert FirstTaker(slots1, b, 5 * PAGE_SIZE, 0) == Some(1);
    slots := MergeRegion(slots1, b, 5 * PAGE_SIZE, 0);
    assert PlaceRegions(usable, 0, 0, slots1, 1) == slots;
  }

  /** `several_memory_regions`: two areas that do not touch take one slot each. */
  lemma SeveralMemoryRegions(a: nat, b: nat)
    requires a > 0 && b > a + 5 * PAGE_SIZE
    ensures New(0, [Area(a), Area(b)]).Ok?
    ensures New(0, [Area(a), Area(b)]).value.entries[0] == RootEntry(a)
    ensures New(0, [Area(a), Area(b)]).value.entries[1] == Entry(b, b, 5 * PAGE_SIZE, 1, 1, [true, false, false, false, false])
    ensures forall i :: 2 <= i < TABLE_SLOTS ==> New(0, [Area(a), Area(b)]).value.entries[i] == EMPTY_ENTRY
  {
    var slots := SeparateAreaSlots(a, b);
    assert BuildEntry(slots[0]).bitmap == [true, false, false, false];
    assert BuildEntry(slots[1]).bitmap == [true, false, false, false, false];
    EmptySlotBuildsEmptyEntry();
  }

  /** `combined_memory_regions`: an area starting where the previous one ends
      is appended to its slot, giving one entry of nine pages. */
  lemma CombinedMemoryRegions(a: nat)
    requires a > 0
    ensures New(0, [Area(a), Area(a + 5 * PAGE_SIZE)]).Ok?
    ensures New(0, [Area(a), Area(a + 5 * PAGE_SIZE)]).value.entries[0]
            == Entry(a + PAGE_SIZE, a + PAGE_SIZE, 9 * PAGE_SIZE, 1, 1, [true] + seq(8, _ => false))
    ensures var entries := New(0, [Area(a), Area(a + 5 * PAGE_SIZE)]).value.entries;
            forall i :: 1 <= i < TABLE_SLOTS ==> entries[i] == EMPTY_ENTRY
  {
    var b := a + 5 * PAGE_SIZE;
    var usable := UsableRegions([Area(a), Area(b)]);
    assert usable == [Area(a), Area(b)];
    assert TableRegion(usable, 0) == Some(0);
    var empty := seq(TABLE_SLOTS, _ => EMPTY_SLOT);
    assert FirstTaker(empty, a + PAGE_SIZE, 4 * PAGE_SIZE, 0) == Some(0);
    var slots1 := MergeRegion(empty, a + PAGE_SIZE, 4 * PAGE_SIZE, 0);
    assert slots1[0] == Slot(a + PAGE_SIZE, a + PAGE_SIZE, 4 * PAGE_SIZE);
    assert FirstTaker(slots1, b, 5 * PAGE_SIZE, 0) == Some(0);
    var slots2 := MergeRegion(slots1, b, 5 * PAGE_SIZE, 0);
    assert PlaceRegions(usable, 0, 0, slots1, 1) == slots2;
    assert PlaceRegions(usable, 0, 0, empty, 0) == slots2;
    assert slots2[0] == Slot(a + PAGE_SIZE, a + PAGE_SIZE, 9 * PAGE_SIZE);
    assert BuildEntry(slots2[0]).bitmap == [true] + seq(8, _ => false);
    EmptySlotBuildsEmptyEntry();
  }

  /** `allocate_frames`: three single frames come from pages 1, 2 and 3 of the
      entry, i.e. 2, 3 and 4 pages past the area; the fourth request fails.
      The bitmap's first byte goes 0b1, 0b11, 0b111, 0b1111. */
  lemma AllocateFrames(a: nat)
    ensures var e0 := RootEntry(a);
            var s1 := AllocateRange(e0, 1);
            var s2 := AllocateRange(s1.entry, 1);
            var s3 := AllocateRange(s2.entry, 1);
            var s4 := AllocateRange(s3.entry, 1);
            && BitmapByte(e0, 0) == 0x01
            && s1.addr == Some(a + 2 * PAGE_SIZE) && BitmapByte(s1.entry, 0) == 0x03
            && s2.addr == Some(a + 3 * PAGE_SIZE) && BitmapByte(s2.entry, 0) == 0x07
            && s3.addr == Some(a + 4 * PAGE_SIZE) && BitmapByte(s3.entry, 0) == 0x0F
            && s4.addr == None && s4.entry == s3.entry
            && s1.zeroed == [a + 2 * PAGE_SIZE] && s2.zeroed == [a + 3 * PAGE_SIZE] && s3.zeroed == [a + 4 * PAGE_SIZE]
  {
    var e0 := RootEntry(a);
    assert FirstFreeRun(e0, 1, 1) == Some(1);
    var s1 := AllocateRange(e0, 1);
    assert s1.entry == e0.(bitmap := [true, true, false, false], skip := 2, used := 2);
    assert FirstFreeRun(s1.entry, 2, 1) == Some(2);
    var s2 := AllocateRange(s1.entry, 1);
    assert s2.entry == e0.(bitmap := [true, true, true, false], skip := 3, used := 3);
    assert FirstFreeRun(s2.entry, 3, 1) == Some(3);
    var s3 := AllocateRange(s2.entry, 1);
    assert s3.entry == e0.(bitmap := [true, true, true, true], skip := 4, used := 4);
    assert FirstFreeRun(s3.entry, 4, 1) == None;
  }

  /** `deallocate_frames`: freeing the first of three frames rewinds `skip`
      to it (0b1101); freeing the other two leaves only the bitmap page. */
  lemma DeallocateFrames(a: nat)
    ensures var full := RootEntry(a).(bitmap := [true, true, true, true], skip := 4, used := 4);
            var d1 := DeallocateRange(full, a + 2 * PAGE_SIZE, 1);
            && d1.Ok? && d1.value.used == 3 && d1.value.skip == 1 && BitmapByte(d1.value, 0) == 0x0D
            && (var d2 := DeallocateRange(d1.value, a + 3 * PAGE_SIZE, 1);
                && d2.Ok?
                && (var d3 := DeallocateRange(d2.value, a + 4 * PAGE_SIZE, 1);
                    d3.Ok? && d3.value == RootEntry(a) && BitmapByte(d3.value, 0) == 0x01))
  {
    var full := RootEntry(a).(bitmap := [true, true, true, true], skip := 4, used := 4);
    assert (a + 2 * PAGE_SIZE - (a + PAGE_SIZE)) / PAGE_SIZE == 1;
    assert (a + 3 * PAGE_SIZE - (a + PAGE_SIZE)) / PAGE_SIZE == 2;
    assert (a + 4 * PAGE_SIZE - (a + PAGE_SIZE)) / PAGE_SIZE == 3;
    var d1 := DeallocateRange(full, a + 2 * PAGE_SIZE, 1);
    assert d1.value.bitmap == [true, false, true, true];
    var d2 := DeallocateRange(d1.value, a + 3 * PAGE_SIZE, 1);
    assert d2.value.bitmap == [true, false, false, true];
    var d3 := DeallocateRange(d2.value, a + 4 * PAGE_SIZE, 1);
    assert d3.value.bitmap == [true, false, false, false];
  }

  /** Freeing an already free page, or more than one page at a time, panics. */
  lemma DoubleFreeAndRangeFreePanic(a: nat)
    ensures DeallocateRange(RootEntry(a), a + 2 * PAGE_SIZE, 1) == Panic(ALREADY_FREE)
    ensures DeallocateRange(RootEntry(a).(bitmap := [true, true, true, true], skip := 4, used := 4), a + 2 * PAGE_SIZE, 2).Panic?
  {
    assert (a + 2 * PAGE_SIZE - (a + PAGE_SIZE)) / PAGE_SIZE == 1;
  }
}
