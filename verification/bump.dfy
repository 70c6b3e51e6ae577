/** The bump frame allocator. The kernel carries three copies of it that
    differ only in their names (`BumpFrameAllocator` in
    kernel/src/memory/bump.rs, `BumpAllocator` in
    arch/src/amd64/memory/bump.rs and `BootInfoFrameAllocator` in
    kernel/src/memory/mod.rs); this module models them once. Frames are
    handed out in memory-map order and never taken back. */
module Bump {
  import opened Common
  import opened Regions

  /** `(start..end).step_by(4096)` mapped through `containing_address`,
      written as the iterator walks it. */
  function StepFrames(addr: nat, end: nat): seq<nat>
    decreases end - addr
  {
    if addr < end then [ContainingFrame(addr)] + StepFrames(addr + PAGE_SIZE, end) else []
  }

  /** How many steps of 4096 from `start` stay below `end`. */
  function StepCount(start: nat, end: nat): nat {
    if start < end then (end - start + PAGE_OFFSET_MASK) / PAGE_SIZE else 0
  }

  lemma {:induction false} StepCountLength(addr: nat, end: nat)
    ensures |StepFrames(addr, end)| == StepCount(addr, end)
    decreases end - addr
  {
    if addr < end {
      StepCountLength(addr + PAGE_SIZE, end);
      assert StepCount(addr, end) == StepCount(addr + PAGE_SIZE, end) + 1;
    }
  }

  /** The frames of one region: element `k` is the frame containing
      `start + 4096*k`, for exactly the `k` with `start + 4096*k < end`. */
  lemma {:induction false} StepFramesClosedForm(addr: nat, end: nat)
    ensures |StepFrames(addr, end)| == StepCount(addr, end)
    ensures forall k :: 0 <= k < |StepFrames(addr, end)| ==>
              StepFrames(addr, end)[k] == ContainingFrame(addr + 4096 * k)
              && addr + 4096 * k < end
    decreases end - addr
  {
    StepCountLength(addr, end);
    if addr < end {
      StepFramesClosedForm(addr + 4096, end);
      var rest := StepFrames(addr + 4096, end);
      assert StepFrames(addr, end) == [ContainingFrame(addr)] + rest;
      forall k | 1 <= k < |StepFrames(addr, end)|
        ensures StepFrames(addr, end)[k] == ContainingFrame(addr + 4096 * k)
        ensures addr + 4096 * k < end
      {
        assert StepFrames(addr, end)[k] == rest[k - 1];
        assert addr + 4096 + 4096 * (k - 1) == addr + 4096 * k;
      }
    }
  }

  /** `usable_frames`: the frames of every Usable region, in map order. */
  function UsableFrames(regions: seq<MemoryRegion>): seq<nat> {
    if regions == [] then []
    else (if regions[0].kind == Usable then StepFrames(regions[0].start, regions[0].end) else [])
         + UsableFrames(regions[1..])
  }

  /** The frames of every region of a map, whatever its kind, in map order. */
  function FramesOf(regions: seq<MemoryRegion>): seq<nat> {
    if regions == [] then [] else StepFrames(regions[0].start, regions[0].end) + FramesOf(regions[1..])
  }

  /** The usable frames are the frames of the map's Usable regions: the
      filter in `usable_frames` is the one `Regions.UsableRegions` defines. */
  lemma {:induction false} UsableFramesOfUsableRegions(regions: seq<MemoryRegion>)
    ensures UsableFrames(regions) == FramesOf(UsableRegions(regions))
  {
    if regions != [] {
      var head := if regions[0].kind == Usable then [regions[0]] else [];
      UsableFramesOfUsableRegions(regions[1..]);
      assert UsableRegions(regions) == head + UsableRegions(regions[1..]);
      FramesOfAppend(head, UsableRegions(regions[1..]));
      if regions[0].kind == Usable {
        assert head[1..] == [];
        assert FramesOf(head) == StepFrames(regions[0].start, regions[0].end) + [];
      }
    }
  }

  lemma {:induction false} FramesOfAppend(a: seq<MemoryRegion>, b: seq<MemoryRegion>)
    ensures FramesOf(a + b) == FramesOf(a) + FramesOf(b)
  {
    if a == [] {
      assert a + b == b;
    } else {
      assert (a + b)[0] == a[0];
      assert (a + b)[1..] == a[1..] + b;
      FramesOfAppend(a[1..], b);
    }
  }

  /** State shared by the three allocators: the map and the call counter. */
  datatype BumpAllocator = BumpAllocator(regions: seq<MemoryRegion>, next: nat)

  /** The result of one `allocate_frame` call and the allocator after it. */
  datatype Draw = Draw(frame: Option<nat>, allocator: BumpAllocator)

  /** `init`: the counter starts at zero. */
  function Init(regions: seq<MemoryRegion>): (b: BumpAllocator)
    ensures b.regions == regions && b.next == 0
  {
    BumpAllocator(regions, 0)
  }

  /** `allocate_frame`: element `next` of the frame sequence (or `None` past
      its end); the counter is incremented in both cases. */
  function AllocateFrame(b: BumpAllocator): (d: Draw)
    ensures d.allocator == b.(next := b.next + 1)
    ensures d.frame.Some? <==> b.next < |UsableFrames(b.regions)|
    ensures d.frame.Some? ==> d.frame.value in UsableFrames(b.regions)
  {
    var frames := UsableFrames(b.regions);
    Draw(if b.next < |frames| then Some(frames[b.next]) else None, b.(next := b.next + 1))
  }

  /** `deallocate_frame`: `unimplemented!`, so every call panics. */
  function DeallocateFrame(b: BumpAllocator, frame: nat): (r: Outcome<BumpAllocator>)
    ensures r.Panic?
  {
    Panic("BumpFrameAllocator::deallocate_frame not implemented")
  }

  /** The results of `n` successive `allocate_frame` calls. */
  function DrawMany(b: BumpAllocator, n: nat): (rs: seq<Option<nat>>)
    ensures |rs| == n
    decreases n
  {
    if n == 0 then [] else [AllocateFrame(b).frame] + DrawMany(AllocateFrame(b).allocator, n - 1)
  }

  /** The call numbered `k` (counting from 0, failed calls included) returns
      element `next + k` of the frame sequence, or `None` past its end. */
  lemma {:induction false} DrawManyIsIndexing(b: BumpAllocator, n: nat)
    decreases n
    ensures forall k :: 0 <= k < n ==>
              DrawMany(b, n)[k] == if b.next + k < |UsableFrames(b.regions)|
                                   then Some(UsableFrames(b.regions)[b.next + k]) else None
  {
    if n > 0 {
      var b' := AllocateFrame(b).allocator;
      DrawManyIsIndexing(b', n - 1);
      forall k | 1 <= k < n
        ensures DrawMany(b, n)[k] == DrawMany(b', n - 1)[k - 1]
      {
      }
    }
  }

  /** Exhaustion is permanent: once a call returns `None`, so does every
      later call. */
  lemma ExhaustionIsPermanent(b: BumpAllocator, n: nat)
    requires AllocateFrame(b).frame.None?
    ensures forall k :: 0 <= k < n ==> DrawMany(AllocateFrame(b).allocator, n)[k].None?
  {
    DrawManyIsIndexing(AllocateFrame(b).allocator, n);
  }

  /** Every frame handed out is 4 KiB aligned and lies in a Usable region
      (or in the frame containing a Usable region's unaligned start). */
  lemma {:induction false} UsableFramesInUsableRegions(regions: seq<MemoryRegion>)
    ensures forall x :: x in UsableFrames(regions) ==>
              x % PAGE_SIZE == 0
              && exists i :: 0 <= i < |regions| && regions[i].kind == Usable
                             && ContainingFrame(regions[i].start) <= x < regions[i].end
  {
    if regions != [] {
      UsableFramesInUsableRegions(regions[1..]);
      var r := regions[0];
      StepFramesClosedForm(r.start, r.end);
      forall x | x in UsableFrames(regions)
        ensures x % PAGE_SIZE == 0
        ensures exists i :: 0 <= i < |regions| && regions[i].kind == Usable
                            && ContainingFrame(regions[i].start) <= x < regions[i].end
      {
        if r.kind == Usable && x in StepFrames(r.start, r.end) {
          var k :| 0 <= k < |StepFrames(r.start, r.end)| && StepFrames(r.start, r.end)[k] == x;
          assert ContainingFrame(r.start) <= x < r.end;
        } else {
          assert x in UsableFrames(regions[1..]);
          var i :| 0 <= i < |regions[1..]| && regions[1..][i].kind == Usable
                   && ContainingFrame(regions[1..][i].start) <= x < regions[1..][i].end;
          assert regions[i + 1] == regions[1..][i];
        }
      }
    }
  }

  predicate Distinct(s: seq<nat>) {
    forall i, j :: 0 <= i < j < |s| ==> s[i] != s[j]
  }

  /** Usable regions whose starts are page aligned and that do not overlap. */
  predicate AlignedDisjoint(regions: seq<MemoryRegion>) {
    && (forall i :: 0 <= i < |regions| && regions[i].kind == Usable ==> regions[i].start % PAGE_SIZE == 0)
    && (forall i, j :: 0 <= i < j < |regions| && regions[i].kind == Usable && regions[j].kind == Usable ==>
          regions[i].end <= regions[j].start || regions[j].end <= regions[i].start)
  }

  lemma DistinctAppend(a: seq<nat>, b: seq<nat>)
    requires Distinct(a) && Distinct(b)
    requires forall x :: x in a ==> x !in b
    ensures Distinct(a + b)
  {
    forall i, j | 0 <= i < j < |a + b|
      ensures (a + b)[i] != (a + b)[j]
    {
      if j >= |a| && i < |a| {
        assert (a + b)[i] in a && (a + b)[j] in b;
      }
    }
  }

  /** For page-aligned, non-overlapping Usable regions no frame is handed
      out twice. */
  lemma {:induction false} UsableFramesDistinct(regions: seq<MemoryRegion>)
    requires AlignedDisjoint(regions)
    ensures Distinct(UsableFrames(regions))
  {
    if regions != [] {
      var r := regions[0];
      var rest := regions[1..];
      assert forall i :: 0 <= i < |rest| ==> rest[i] == regions[i + 1];
      assert AlignedDisjoint(rest);
      UsableFramesDistinct(rest);
      if r.kind == Usable {
        var head := StepFrames(r.start, r.end);
        StepFramesClosedForm(r.start, r.end);
        forall k | 0 <= k < |head| ensures head[k] == r.start + 4096 * k {
          assert (r.start + 4096 * k) % PAGE_SIZE == 0;
        }
        assert Distinct(head);
        UsableFramesInUsableRegions(rest);
        forall x | x in head ensures x !in UsableFrames(rest) {
          var k :| 0 <= k < |head| && head[k] == x;
          assert r.start <= x < r.end;
        }
        DistinctAppend(head, UsableFrames(rest));
      } else {
        assert UsableFrames(regions) == UsableFrames(rest);
      }
    }
  }
}
