/** The architecture crate's `MemoryManager`: an optional page-table mapper
    and an optional bump frame allocator, and the kernel-heap set-up built on
    them. The x86_64 crate's `map_to` page-table walk is not visible; it is
    described by a `Walk` that says how many intermediate-table frames it
    draws from the allocator and whether the final step fails. */
module MemoryManager {
  import opened Common
  import opened Regions
  import opened Bump

  const KERNEL_HEAP_OFFSET: nat := 0xffff_fe80_0000_0000
  const KERNEL_HEAP_SIZE: nat := 1024 * 1024

  /** `MapToError`. */
  datatype MapError = FrameAllocationFailed | ParentEntryHugePage | PageAlreadyMapped(frame: nat)

  /** `Result<T, MapToError>`. */
  datatype MapResult<T> = Success(value: T) | Failure(error: MapError)

  /** `OffsetPageTable`: of its state only the physical-memory offset is used here. */
  datatype Mapper = Mapper(physOffset: nat)

  datatype Manager = Manager(mapper: Option<Mapper>, allocator: Option<BumpAllocator>)

  /** The behaviour of one `map_to` call: it allocates `tableFrames` frames
      for missing intermediate tables, one at a time, then finishes with
      `error` (or succeeds). */
  datatype Walk = Walk(tableFrames: nat, error: Option<MapError>)

  /** `MemoryManager::empty`. */
  const EMPTY: Manager := Manager(None, None)

  /** `MemoryManager::init`: installs both parts, replacing any previous ones. */
  function Install(m: Manager, mapper: Mapper, allocator: BumpAllocator): (r: Manager)
    ensures r.mapper == Some(mapper) && r.allocator == Some(allocator)
  {
    m.(mapper := Some(mapper), allocator := Some(allocator))
  }

  /** The module-level `init`: the memory it reports (Usable regions only)
      and the manager it installs, with a fresh bump allocator. */
  function Init(m: Manager, physOffset: nat, regions: seq<MemoryRegion>): (r: (Manager, nat))
    requires WellformedMap(regions)
    ensures r.0.mapper == Some(Mapper(physOffset))
    ensures r.0.allocator == Some(Bump.Init(regions))
    ensures r.1 == AvailableMemory(regions)
    ensures r.1 <= KernelMemorySize(regions)
    ensures r.1 == KernelMemorySize(regions) <==> forall i :: 0 <= i < |regions| && regions[i].kind != Usable ==> regions[i].Length() == 0
  {
    AvailableMemoryIsUsablePart(regions);
    (Install(m, Mapper(physOffset), Bump.Init(regions)), AvailableMemory(regions))
  }

  /** Up to `n` successive `allocate_frame` calls, stopping at the first that
      returns `None`; the flag says whether all `n` succeeded. */
  function DrawRun(b: BumpAllocator, n: nat): (r: (BumpAllocator, bool))
    decreases n
    ensures r.0.regions == b.regions
    ensures r.1 <==> n == 0 || b.next + n <= |UsableFrames(b.regions)|
    ensures r.1 ==> r.0.next == b.next + n
    ensures !r.1 ==> r.0.next == (if b.next < |UsableFrames(b.regions)| then |UsableFrames(b.regions)| else b.next) + 1
  {
    if n == 0 then (b, true)
    else
      var d := AllocateFrame(b);
      if d.frame.None? then (d.allocator, false) else DrawRun(d.allocator, n - 1)
  }

  /** `map_to` with the walk's behaviour: a frame shortage while creating
      tables is `FrameAllocationFailed`. */
  function MapTo(b: BumpAllocator, frame: nat, walk: Walk): (r: (BumpAllocator, MapResult<nat>))
    ensures r.0.regions == b.regions && b.next <= r.0.next <= b.next + walk.tableFrames + 1
    ensures r.1.Success? ==> r.1.value == frame && walk.error.None? && r.0.next == b.next + walk.tableFrames
    ensures r.1.Success? <==> walk.error.None? && (walk.tableFrames == 0 || b.next + walk.tableFrames <= |UsableFrames(b.regions)|)
  {
    var (b', ok) := DrawRun(b, walk.tableFrames);
    if !ok then (b', Failure(FrameAllocationFailed))
    else match walk.error
      case Some(e) => (b', Failure(e))
      case None => (b', Success(frame))
  }

  /** `MemoryManager::map`: the leaf frame is drawn first, then `map_to` runs
      with the same allocator. The result is the mapped frame. */
  function Map(m: Manager, page: nat, walk: Walk): (r: (Manager, MapResult<nat>))
    ensures m.mapper.None? || m.allocator.None? ==> r == (m, Failure(FrameAllocationFailed))
    ensures r.0.mapper == m.mapper
    ensures r.1.Success? ==> m.mapper.Some? && m.allocator.Some?
    ensures m.mapper.Some? && m.allocator.Some? ==>
              var b := m.allocator.value;
              var frames := UsableFrames(b.regions);
              && r.0.allocator.Some? && r.0.allocator.value.regions == b.regions
              && (b.next >= |frames| ==> r.1 == Failure(FrameAllocationFailed) && r.0.allocator.value.next == b.next + 1)
              && (r.1.Success? <==> b.next < |frames| && MapTo(b.(next := b.next + 1), frames[b.next], walk).1.Success?)
              && (r.1.Success? <==> walk.error.None? && b.next + 1 + walk.tableFrames <= |frames|)
              && (r.1.Success? ==> r.1.value == frames[b.next] && r.0.allocator.value.next == b.next + 1 + walk.tableFrames)
  {
    match (m.mapper, m.allocator)
    case (Some(_), Some(b)) =>
      var d := AllocateFrame(b);
      if d.frame.None? then (m.(allocator := Some(d.allocator)), Failure(FrameAllocationFailed))
      else
        var (b', res) := MapTo(d.allocator, d.frame.value, walk);
        (m.(allocator := Some(b')), res)
    case _ => (m, Failure(FrameAllocationFailed))
  }

  /** A failed `map` after the leaf frame was drawn does not give the frame
      back: the bump counter stays advanced. */
  lemma MapFailureKeepsLeafFrame(m: Manager, page: nat, walk: Walk)
    requires m.mapper.Some? && m.allocator.Some?
    ensures Map(m, page, walk).0.allocator.value.next >= m.allocator.value.next + 1
  {
  }

  /** `MemoryManager::allocate_frames`: draws `count + 1` frames, returns the
      first, and stops at the first failed draw (earlier draws stay consumed). */
  method AllocateFrames(m: Manager, count: nat) returns (m': Manager, r: MapResult<nat>)
    ensures m.allocator.None? ==> m' == m && r == Failure(FrameAllocationFailed)
    ensures m'.mapper == m.mapper
    ensures m.allocator.Some? ==>
              var b := m.allocator.value;
              var frames := UsableFrames(b.regions);
              && m'.allocator.Some? && m'.allocator.value.regions == b.regions
              && (r.Success? <==> b.next + count < |frames|)
              && (r.Success? ==> r.value == frames[b.next] && m'.allocator.value.next == b.next + count + 1)
              && (r.Failure? ==> r.error == FrameAllocationFailed
                                 && m'.allocator.value.next == (if b.next < |frames| then |frames| else b.next) + 1)
  {
    if m.allocator.None? {
      return m, Failure(FrameAllocationFailed);
    }
    var b0 := m.allocator.value;
    ghost var frames := UsableFrames(b0.regions);
    var d := AllocateFrame(b0);
    var b := d.allocator;
    if d.frame.None? {
      return m.(allocator := Some(b)), Failure(FrameAllocationFailed);
    }
    var first := d.frame.value;
    var i := 0;
    while i < count
      invariant i <= count
      invariant b == b0.(next := b0.next + 1 + i)
      invariant b0.next + i < |frames|
    {
      d := AllocateFrame(b);
      b := d.allocator;
      if d.frame.None? {
        return m.(allocator := Some(b)), Failure(FrameAllocationFailed);
      }
      i := i + 1;
    }
    return m.(allocator := Some(b)), Success(first);
  }

  /** `page_size`. */
  function PageSize(m: Manager): (r: nat)
    ensures r == PAGE_SIZE && r == Pow2Shift(PAGE_SHIFT)
  {
    4096
  }

  function Pow2Shift(n: nat): nat {
    if n == 0 then 1 else 2 * Pow2Shift(n - 1)
  }

  const UNWRAP_NONE: string := "called `Option::unwrap()` on a `None` value"

  /** `phys_to_virt`: the direct-mapping offset plus the address; the
      `unwrap` panics before `init`. */
  function PhysToVirt(m: Manager, phys: nat): (r: Outcome<nat>)
    ensures r.Panic? <==> m.mapper.None?
    ensures r.Ok? ==> r.value - m.mapper.value.physOffset == phys
  {
    match m.mapper
    case None => Panic(UNWRAP_NONE)
    case Some(mp) => Ok(mp.physOffset + phys)
  }

  /** `Page::range_inclusive(containing(start), containing(end))`: empty
      only when the last page is below the first, so two addresses in one
      page give that page. */
  function PageRangeInclusive(start: nat, end: nat): (r: seq<nat>)
    ensures forall k :: 0 <= k < |r| ==> r[k] % PAGE_SIZE == 0
    ensures forall k :: 0 <= k < |r| ==> ContainingFrame(start) <= r[k] <= ContainingFrame(end)
    ensures forall k :: 0 < k < |r| ==> r[k] == r[k - 1] + PAGE_SIZE
    ensures ContainingFrame(start) <= ContainingFrame(end) ==>
              |r| > 0 && r[0] == ContainingFrame(start) && r[|r| - 1] == ContainingFrame(end)
    ensures r == [] <==> ContainingFrame(end) < ContainingFrame(start)
  {
    var first := ContainingFrame(start);
    var last := ContainingFrame(end);
    if last < first then []
    else seq((last - first) / PAGE_SIZE + 1, k => first + 4096 * k)
  }

  /** The range holds exactly the page-aligned addresses from the page of
      `start` to the page of `end`. */
  lemma PageRangeMembers(start: nat, end: nat, a: nat)
    ensures a in PageRangeInclusive(start, end) <==>
              a % PAGE_SIZE == 0 && ContainingFrame(start) <= a <= ContainingFrame(end)
  {
    var first, last := ContainingFrame(start), ContainingFrame(end);
    if a % PAGE_SIZE == 0 && first <= a <= last {
      var r := PageRangeInclusive(start, end);
      var qa, qf, ql := a / PAGE_SIZE, first / PAGE_SIZE, last / PAGE_SIZE;
      assert a == qa * PAGE_SIZE && first == qf * PAGE_SIZE && last == ql * PAGE_SIZE;
      assert qf <= qa <= ql;
      DivModUnique(a - first, PAGE_SIZE, qa - qf, 0);
      DivModUnique(last - first, PAGE_SIZE, ql - qf, 0);
      assert r[qa - qf] == a;
    }
  }

  /** Two addresses in one page give that page alone. */
  lemma SamePageRange()
    ensures PageRangeInclusive(4097, 4096) == [4096]
  {
    assert ContainingFrame(4097) == 4096 && ContainingFrame(4096) == 4096;
  }

  /** The pages `init_heap` maps: 256 pages up from the heap's start. */
  function HeapPages(): seq<nat> {
    seq(256, k => KERNEL_HEAP_OFFSET + PAGE_SIZE * k)
  }

  /** The heap pages are `Page::range_inclusive` from the page of the heap's
      start to the page of `heap_end`, its last byte: the 1 MiB heap is 256
      pages, from its first page up. */
  lemma HeapPagesCount()
    ensures HeapPages() == PageRangeInclusive(KERNEL_HEAP_OFFSET, KERNEL_HEAP_OFFSET + KERNEL_HEAP_SIZE - 1)
    ensures |HeapPages()| == 256
    ensures HeapPages()[0] == KERNEL_HEAP_OFFSET
    ensures HeapPages()[255] == KERNEL_HEAP_OFFSET + 255 * PAGE_SIZE
  {
    assert ContainingFrame(KERNEL_HEAP_OFFSET) == KERNEL_HEAP_OFFSET;
    assert ContainingFrame(KERNEL_HEAP_OFFSET + KERNEL_HEAP_SIZE - 1) == KERNEL_HEAP_OFFSET + 255 * PAGE_SIZE;
    var r := PageRangeInclusive(KERNEL_HEAP_OFFSET, KERNEL_HEAP_OFFSET + KERNEL_HEAP_SIZE - 1);
    assert |r| == 256;
  }

  /** The frames a run of `map` calls draws when all succeed: one leaf frame
      per page and the intermediate-table frames of each walk. */
  function WalkFrames(walks: seq<Walk>): nat {
    if walks == [] then 0 else 1 + walks[0].tableFrames + WalkFrames(walks[1..])
  }

  /** No walk ends in an error. */
  predicate WalksSucceed(walks: seq<Walk>) {
    forall k :: 0 <= k < |walks| ==> walks[k].error.None?
  }

  /** `mapped[k]` is the usable frame the `k`-th `map` call drew as its leaf:
      the one after the frames drawn by the earlier calls, from `start` on. */
  predicate MappedInDrawOrder(frames: seq<nat>, start: nat, walks: seq<Walk>, mapped: seq<nat>) {
    && |mapped| == |walks|
    && forall k :: 0 <= k < |walks| ==>
         var i := start + WalkFrames(walks[..k]);
         i < |frames| && mapped[k] == frames[i]
  }

  /** The `map` loop of `init_heap` over `pages`, with `walks[k]` describing
      the walk for `pages[k]`. Returns the manager, the frames mapped (in
      page order), and whether every call succeeded. */
  function MapAll(m: Manager, pages: seq<nat>, walks: seq<Walk>): (r: (Manager, seq<nat>, bool))
    requires |walks| == |pages|
    decreases |pages|
    ensures r.0.mapper == m.mapper
    ensures r.2 ==> |r.1| == |pages|
    ensures |pages| > 0 && r.2 ==> m.mapper.Some? && m.allocator.Some?
    ensures m.allocator.Some? ==> r.0.allocator.Some? && r.0.allocator.value.regions == m.allocator.value.regions
    ensures r.2 && m.allocator.Some? ==> r.0.allocator.value.next >= m.allocator.value.next + |pages|
    ensures m.allocator.Some? ==> forall k :: 0 <= k < |r.1| ==> r.1[k] in UsableFrames(m.allocator.value.regions)
  {
    if pages == [] then (m, [], true)
    else
      var (m1, res) := Map(m, pages[0], walks[0]);
      if res.Failure? then (m1, [], false)
      else
        var (m2, frames, ok) := MapAll(m1, pages[1..], walks[1..]);
        (m2, [res.value] + frames, ok)
  }

  /** How far a run of `map` calls gets on an initialised manager: it
      succeeds exactly when no walk fails and the bump allocator still holds
      every leaf and table frame the walks draw, and a full run advances the
      counter by exactly that many frames. */
  lemma {:induction false} MapAllDraws(m: Manager, pages: seq<nat>, walks: seq<Walk>)
    requires |walks| == |pages|
    decreases |pages|
    ensures m.mapper.Some? && m.allocator.Some? ==>
              var r := MapAll(m, pages, walks);
              var b := m.allocator.value;
              && (|pages| > 0 ==> (r.2 <==> WalksSucceed(walks) && b.next + WalkFrames(walks) <= |UsableFrames(b.regions)|))
              && (r.2 ==> r.0.allocator.value.next == b.next + WalkFrames(walks))
  {
    if pages != [] && m.mapper.Some? && m.allocator.Some? {
      var step := Map(m, pages[0], walks[0]);
      MapAllStep(walks);
      if step.1.Success? {
        MapAllDraws(step.0, pages[1..], walks[1..]);
        var rest := MapAll(step.0, pages[1..], walks[1..]);
        assert MapAll(m, pages, walks) == (rest.0, [step.1.value] + rest.1, rest.2);
      }
    }
  }

  /** In a full run the `k`-th page is mapped to the usable frame the `k`-th
      call drew as its leaf. */
  lemma {:induction false} MapAllInDrawOrder(m: Manager, pages: seq<nat>, walks: seq<Walk>)
    requires |walks| == |pages|
    decreases |pages|
    ensures m.mapper.Some? && m.allocator.Some? && MapAll(m, pages, walks).2 ==>
              MappedInDrawOrder(UsableFrames(m.allocator.value.regions), m.allocator.value.next, walks, MapAll(m, pages, walks).1)
  {
    if pages != [] && m.mapper.Some? && m.allocator.Some? {
      var b := m.allocator.value;
      var step := Map(m, pages[0], walks[0]);
      if step.1.Success? {
        MapAllInDrawOrder(step.0, pages[1..], walks[1..]);
        var rest := MapAll(step.0, pages[1..], walks[1..]);
        assert MapAll(m, pages, walks) == (rest.0, [step.1.value] + rest.1, rest.2);
        MappedInDrawOrderCons(UsableFrames(b.regions), b.next, walks, step.1.value, rest.1);
      }
    }
  }

  /** The first call's leaf frame followed by the later calls' frames. */
  lemma MappedInDrawOrderCons(frames: seq<nat>, start: nat, walks: seq<Walk>, first: nat, rest: seq<nat>)
    requires walks != []
    ensures start < |frames| && first == frames[start]
            && MappedInDrawOrder(frames, start + 1 + walks[0].tableFrames, walks[1..], rest)
            ==> MappedInDrawOrder(frames, start, walks, [first] + rest)
  {
    if !(start < |frames| && first == frames[start]
         && MappedInDrawOrder(frames, start + 1 + walks[0].tableFrames, walks[1..], rest)) {
      return;
    }
    MapAllStep(walks);
    assert walks[..0] == [];
    forall k | 1 <= k < |walks|
      ensures start + WalkFrames(walks[..k]) < |frames| && ([first] + rest)[k] == frames[start + WalkFrames(walks[..k])]
    {
      assert ([first] + rest)[k] == rest[k - 1];
    }
  }

  /** The counts of a walk sequence split at its head, for every prefix. */
  lemma MapAllStep(walks: seq<Walk>)
    requires walks != []
    ensures WalkFrames(walks) == 1 + walks[0].tableFrames + WalkFrames(walks[1..])
    ensures WalksSucceed(walks) <==> walks[0].error.None? && WalksSucceed(walks[1..])
    ensures forall k :: 1 <= k <= |walks| ==>
              WalkFrames(walks[..k]) == 1 + walks[0].tableFrames + WalkFrames(walks[1..][..k - 1])
  {
    forall k | 1 <= k <= |walks|
      ensures WalkFrames(walks[..k]) == 1 + walks[0].tableFrames + WalkFrames(walks[1..][..k - 1])
    {
      assert walks[..k][1..] == walks[1..][..k - 1];
    }
    assert forall k :: 1 <= k < |walks| ==> walks[1..][k - 1] == walks[k];
  }

  const HEAP_MAP_FAILED: string := "failed to map kernel heap"

  /** `init_heap`: every heap page is mapped, in ascending order, or the
      kernel panics. It succeeds exactly when no walk fails and the bump
      allocator still holds the leaf and table frames all 256 pages need. */
  function InitHeap(m: Manager, walks: seq<Walk>): (r: Outcome<(Manager, seq<nat>)>)
    requires |walks| == 256
    ensures m.mapper.None? || m.allocator.None? ==> r == Panic(HEAP_MAP_FAILED)
    ensures r.Panic? ==> r == Panic(HEAP_MAP_FAILED)
    ensures r.Ok? ==> |r.value.1| == 256 && r.value.0.mapper == m.mapper
    ensures m.mapper.Some? && m.allocator.Some? ==>
              var b := m.allocator.value;
              var frames := UsableFrames(b.regions);
              && (r.Ok? <==> WalksSucceed(walks) && b.next + WalkFrames(walks) <= |frames|)
              && (r.Ok? ==> r.value.0.allocator.Some? && r.value.0.allocator.value.regions == b.regions)
              && (r.Ok? ==> r.value.0.allocator.value.next == b.next + WalkFrames(walks) >= b.next + 256)
              && (r.Ok? ==> MappedInDrawOrder(frames, b.next, walks, r.value.1))
  {
    var run := MapAll(m, HeapPages(), walks);
    MapAllDraws(m, HeapPages(), walks);
    MapAllInDrawOrder(m, HeapPages(), walks);
    if run.2 then Ok((run.0, run.1)) else Panic(HEAP_MAP_FAILED)
  }

  /** The frame counts of a split walk sequence add up. */
  lemma {:induction false} WalkFramesAppend(a: seq<Walk>, b: seq<Walk>)
    ensures WalkFrames(a + b) == WalkFrames(a) + WalkFrames(b)
  {
    if a == [] {
      assert a + b == b;
    } else {
      assert (a + b)[0] == a[0];
      assert (a + b)[1..] == a[1..] + b;
      WalkFramesAppend(a[1..], b);
    }
  }

  /** Each page draws at least its leaf frame, so later pages start further
      into the usable frames. */
  lemma WalkFramesPrefixIncreasing(walks: seq<Walk>, j: nat, k: nat)
    requires j < k <= |walks|
    ensures WalkFrames(walks[..j]) < WalkFrames(walks[..k])
  {
    assert walks[..k] == walks[..j] + walks[j..k];
    WalkFramesAppend(walks[..j], walks[j..k]);
  }

  /** With page-aligned, non-overlapping Usable regions a successful heap
      set-up maps the 256 heap pages onto 256 distinct frames. */
  lemma InitHeapFramesDistinct(m: Manager, walks: seq<Walk>)
    requires |walks| == 256
    requires m.allocator.Some? && AlignedDisjoint(m.allocator.value.regions)
    ensures InitHeap(m, walks).Ok? ==> Distinct(InitHeap(m, walks).value.1)
  {
    if InitHeap(m, walks).Panic? {
      return;
    }
    var frames := UsableFrames(m.allocator.value.regions);
    var mapped := InitHeap(m, walks).value.1;
    UsableFramesDistinct(m.allocator.value.regions);
    forall j, k | 0 <= j < k < |mapped| ensures mapped[j] != mapped[k] {
      WalkFramesPrefixIncreasing(walks, j, k);
    }
  }

  /** On the empty manager every operation fails without drawing a frame, and
      `phys_to_virt` panics. */
  lemma UninitialisedUseFails(page: nat, walk: Walk, phys: nat)
    ensures Map(EMPTY, page, walk) == (EMPTY, Failure(FrameAllocationFailed))
    ensures PhysToVirt(EMPTY, phys).Panic?
  {
  }
}
