/** The boot loader's physical memory map: `(start, end, kind)` descriptors
    with `end` exclusive, and the memory totals the two `init` routines log. */
module Regions {

  /** `bootloader_api::info::MemoryRegionKind`. */
  datatype RegionKind = Usable | Bootloader | UnknownUefi(uefiType: nat) | UnknownBios(biosType: nat)

  /** `bootloader_api::info::MemoryRegion`: the physical range [start, end). */
  datatype MemoryRegion = MemoryRegion(start: nat, end: nat, kind: RegionKind)
  {
    predicate Wellformed() { start <= end }
    function Length(): nat requires Wellformed() { end - start }
  }

  /** The boot loader hands over ranges whose end is not below their start. */
  predicate WellformedMap(regions: seq<MemoryRegion>) {
    forall i :: 0 <= i < |regions| ==> regions[i].Wellformed()
  }

  /** No two regions of the sequence overlap. */
  predicate Disjoint(regions: seq<MemoryRegion>) {
    forall i, j :: 0 <= i < |regions| && 0 <= j < |regions| && i != j ==>
      regions[i].end <= regions[j].start || regions[j].end <= regions[i].start
  }

  /** `regions.iter().filter(|r| r.kind == MemoryRegionKind::Usable)`. */
  function UsableRegions(regions: seq<MemoryRegion>): (u: seq<MemoryRegion>)
    ensures forall i :: 0 <= i < |u| ==> u[i].kind == Usable && u[i] in regions
    ensures forall r :: r in regions && r.kind == Usable ==> r in u
    ensures |u| <= |regions|
  {
    if regions == [] then []
    else (if regions[0].kind == Usable then [regions[0]] else []) + UsableRegions(regions[1..])
  }

  /** The filter is a homomorphism over concatenation and keeps a single
      region exactly when it is Usable: together these fix the order and the
      multiplicity of the regions it keeps. */
  lemma {:induction false} UsableRegionsAppend(a: seq<MemoryRegion>, b: seq<MemoryRegion>)
    ensures UsableRegions(a + b) == UsableRegions(a) + UsableRegions(b)
    ensures |a| == 1 ==> UsableRegions(a) == (if a[0].kind == Usable then a else [])
    decreases |a|
  {
    if a == [] {
      assert a + b == b;
    } else {
      var head := if a[0].kind == Usable then [a[0]] else [];
      assert (a + b)[0] == a[0];
      assert (a + b)[1..] == a[1..] + b;
      UsableRegionsAppend(a[1..], b);
      calc {
        UsableRegions(a + b);
        head + UsableRegions(a[1..] + b);
        head + (UsableRegions(a[1..]) + UsableRegions(b));
        (head + UsableRegions(a[1..])) + UsableRegions(b);
        UsableRegions(a) + UsableRegions(b);
      }
      if |a| == 1 {
        assert a[1..] == [];
        assert UsableRegions(a) == head + [];
        assert a == [a[0]];
      }
    }
  }

  /** Sum of `end - start` over the given regions. */
  function TotalLength(regions: seq<MemoryRegion>): nat
    requires WellformedMap(regions)
  {
    if regions == [] then 0 else regions[0].Length() + TotalLength(regions[1..])
  }

  /** The memory size `kernel::memory::init` logs: every region, whatever its kind. */
  function KernelMemorySize(regions: seq<MemoryRegion>): nat
    requires WellformedMap(regions)
  {
    TotalLength(regions)
  }

  /** The "available memory" `arch::amd64::memory::init` logs: Usable regions only. */
  function AvailableMemory(regions: seq<MemoryRegion>): nat
    requires WellformedMap(regions)
  {
    TotalLength(UsableRegions(regions))
  }

  /** Available memory is the part of the kernel's total that lies in Usable
      regions: the two totals agree exactly when every non-empty region is
      Usable, and the available total never exceeds the full one. */
  lemma {:induction false} AvailableMemoryIsUsablePart(regions: seq<MemoryRegion>)
    requires WellformedMap(regions)
    ensures AvailableMemory(regions) <= KernelMemorySize(regions)
    ensures AvailableMemory(regions) == KernelMemorySize(regions)
            <==> forall i :: 0 <= i < |regions| && regions[i].kind != Usable ==> regions[i].start == regions[i].end
  {
    if regions != [] {
      var rest := regions[1..];
      AvailableMemoryIsUsablePart(rest);
      var head: seq<MemoryRegion> := if regions[0].kind == Usable then [regions[0]] else [];
      assert UsableRegions(regions) == head + UsableRegions(rest);
      TotalLengthAppend(head, UsableRegions(rest));
      assert TotalLength(head) == if regions[0].kind == Usable then regions[0].Length() else 0 by {
        if regions[0].kind == Usable {
          assert head[1..] == [];
        }
      }
      assert KernelMemorySize(regions) == regions[0].Length() + KernelMemorySize(rest);
      assert AvailableMemory(regions) == TotalLength(head) + AvailableMemory(rest);
      assert forall i :: 1 <= i < |regions| ==> regions[i] == rest[i - 1];
    }
  }

  /** Both totals add up over a concatenation of maps. */
  lemma {:induction false} TotalLengthAppend(a: seq<MemoryRegion>, b: seq<MemoryRegion>)
    requires WellformedMap(a) && WellformedMap(b)
    ensures WellformedMap(a + b)
    ensures TotalLength(a + b) == TotalLength(a) + TotalLength(b)
  {
    if a == [] {
      assert a + b == b;
    } else {
      assert (a + b)[1..] == a[1..] + b;
      TotalLengthAppend(a[1..], b);
    }
  }
}
