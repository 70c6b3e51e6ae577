/** Routing of the legacy ISA interrupts through the IO-APICs, following the
    MADT Interrupt Source Override entries (section 5.2.12.5 of the ACPI
    specification). Register access and the mapping of the IO-APIC's page
    are outside the model: a redirection-table write is returned as data. */
module IoApic {
  import opened Common

  /** MPS INTI trigger-mode flags of an override. */
  datatype TriggerMode = TriggerSameAsBus | Edge | Level

  /** MPS INTI polarity flags of an override. */
  datatype Polarity = PolaritySameAsBus | ActiveHigh | ActiveLow

  /** `InterruptSourceOverride`: ISA IRQ `isaSource` arrives on global system
      interrupt `gsi`. */
  datatype Override = Override(isaSource: nat, gsi: nat, triggerMode: TriggerMode, polarity: Polarity)

  /** The two `IrqFlags` bits the kernel sets. */
  datatype IrqFlag = LevelTriggered | LowActive

  /** What `prepare_override` resolves an IRQ to. */
  datatype Route = Route(gsi: nat, triggerMode: TriggerMode, polarity: Polarity)

  const UNWRAP_ERR: string := "called `Result::unwrap()` on an `Err` value"
  const ADD_OVERFLOW: string := "attempt to add with overflow"

  /** The first override, in table order, whose ISA source is `irq`. */
  function FirstOverrideFor(irq: nat, overrides: seq<Override>, from: nat): (k: Option<nat>)
    decreases |overrides| - from
    ensures k.Some? ==> from <= k.value < |overrides| && overrides[k.value].isaSource == irq
    ensures k.Some? ==> forall j :: from <= j < k.value ==> overrides[j].isaSource != irq
    ensures k.None? ==> forall j :: from <= j < |overrides| ==> overrides[j].isaSource != irq
  {
    if from >= |overrides| then None
    else if overrides[from].isaSource == irq then Some(from)
    else FirstOverrideFor(irq, overrides, from + 1)
  }

  /** `prepare_override`: an override of `irq` wins (its GSI must fit in a
      `u8`); otherwise the line is dropped when another ISA source was moved
      onto GSI `irq`; otherwise the identity route with bus defaults. */
  function PrepareOverride(irq: nat, overrides: seq<Override>): (r: Outcome<Option<Route>>)
    ensures (exists j :: 0 <= j < |overrides| && overrides[j].isaSource == irq) ==>
              var ov := overrides[FirstOverrideFor(irq, overrides, 0).value];
              r == if IsU8(ov.gsi) then Ok(Some(Route(ov.gsi, ov.triggerMode, ov.polarity))) else Panic(UNWRAP_ERR)
    ensures r == Ok(None) <==>
              && (forall j :: 0 <= j < |overrides| ==> overrides[j].isaSource != irq)
              && (exists j :: 0 <= j < |overrides| && overrides[j].gsi == irq)
    ensures (forall j :: 0 <= j < |overrides| ==> overrides[j].isaSource != irq && overrides[j].gsi != irq) ==>
              r == Ok(Some(Route(irq, TriggerSameAsBus, PolaritySameAsBus)))
  {
    match FirstOverrideFor(irq, overrides, 0)
    case Some(k) =>
      var ov := overrides[k];
      if IsU8(ov.gsi) then Ok(Some(Route(ov.gsi, ov.triggerMode, ov.polarity))) else Panic(UNWRAP_ERR)
    case None =>
      if exists j :: 0 <= j < |overrides| && overrides[j].gsi == irq && overrides[j].isaSource != irq then Ok(None)
      else Ok(Some(Route(irq, TriggerSameAsBus, PolaritySameAsBus)))
  }

  /** `irq_frags`: the redirection-entry flags of a trigger mode and polarity. */
  function IrqFlags(t: TriggerMode, p: Polarity): (f: set<IrqFlag>)
    ensures f <= {LevelTriggered, LowActive}
    ensures LevelTriggered in f <==> t == Level
    ensures LowActive in f <==> p == ActiveLow
  {
    match (t, p)
    case (Level, PolaritySameAsBus) => {LevelTriggered}
    case (Level, ActiveHigh) => {LevelTriggered}
    case (Edge, ActiveLow) => {LowActive}
    case (TriggerSameAsBus, ActiveLow) => {LowActive}
    case (Level, ActiveLow) => {LevelTriggered, LowActive}
    case _ => {}
  }

  /** The flag table is two independent bits, the trigger bit set exactly
      for `Level` and the polarity bit exactly for `ActiveLow`; bus defaults
      are edge triggered, active high. */
  function FlagBits(t: TriggerMode, p: Polarity): set<IrqFlag> {
    (if t == Level then {LevelTriggered} else {}) + (if p == ActiveLow then {LowActive} else {})
  }

  lemma IrqFlagsAreIndependentBits(t: TriggerMode, p: Polarity)
    ensures IrqFlags(t, p) == FlagBits(t, p)
  {
  }

  /** `IoApicWrapper`: the GSIs an IO-APIC serves, both ends inclusive. */
  datatype IoApicUnit = IoApicUnit(gsiStart: nat, gsiEnd: nat)

  /** `init_io_apic` and `IoApicWrapper::new`: the GSI base must fit in a
      `u8`, and so must `gsi_start + max_table_entry`. */
  function NewIoApic(gsiBase: nat, maxTableEntry: nat): (r: Outcome<IoApicUnit>)
    requires IsU8(maxTableEntry)
    ensures r.Ok? <==> gsiBase + maxTableEntry < 0x100
    ensures r.Ok? ==> r.value.gsiStart == gsiBase && r.value.gsiEnd - r.value.gsiStart == maxTableEntry
  {
    if !IsU8(gsiBase) then Panic(UNWRAP_ERR)
    else if gsiBase + maxTableEntry >= 0x100 then Panic(ADD_OVERFLOW)
    else Ok(IoApicUnit(gsiBase, gsiBase + maxTableEntry))
  }

  /** A redirection-table entry: vector, destination APIC id and flags. */
  datatype RedirectionEntry = RedirectionEntry(vector: nat, dest: nat, flags: set<IrqFlag>)

  /** `set_table_entry(gsi, entry)` on IO-APIC number `unit`. */
  datatype TableWrite = TableWrite(unit: nat, gsi: nat, entry: RedirectionEntry)

  predicate Serves(u: IoApicUnit, gsi: nat) { u.gsiStart <= gsi <= u.gsiEnd }

  /** The first IO-APIC whose range contains `gsi`. */
  function FirstServing(units: seq<IoApicUnit>, gsi: nat, from: nat): (k: Option<nat>)
    decreases |units| - from
    ensures k.Some? ==> from <= k.value < |units| && Serves(units[k.value], gsi)
    ensures k.Some? ==> forall j :: from <= j < k.value ==> !Serves(units[j], gsi)
    ensures k.None? ==> forall j :: from <= j < |units| ==> !Serves(units[j], gsi)
  {
    if from >= |units| then None
    else if Serves(units[from], gsi) then Some(from)
    else FirstServing(units, gsi, from + 1)
  }

  /** `init_override`: a resolved IRQ is written with vector `32 + irq`
      (a `u8` sum) and the boot processor as destination into the first
      IO-APIC serving its GSI; otherwise nothing is written. */
  function InitOverride(irq: nat, bspApicId: nat, overrides: seq<Override>, units: seq<IoApicUnit>): (r: Outcome<Option<TableWrite>>)
    requires IsU8(irq)
    ensures PrepareOverride(irq, overrides).Panic? ==> r.Panic?
    ensures PrepareOverride(irq, overrides) == Ok(None) ==> r == Ok(None)
    ensures r.Ok? && r.value.Some? ==>
              var w := r.value.value;
              var route := PrepareOverride(irq, overrides).value.value;
              && w.gsi == route.gsi && w.unit < |units| && Serves(units[w.unit], w.gsi)
              && (forall j :: 0 <= j < w.unit ==> !Serves(units[j], w.gsi))
              && w.entry == RedirectionEntry(32 + irq, bspApicId, IrqFlags(route.triggerMode, route.polarity))
    ensures r.Ok? && r.value.None? && PrepareOverride(irq, overrides).Ok? && PrepareOverride(irq, overrides).value.Some? ==>
              forall j :: 0 <= j < |units| ==> !Serves(units[j], PrepareOverride(irq, overrides).value.value.gsi)
    ensures r.Panic? <==>
              || PrepareOverride(irq, overrides).Panic?
              || (PrepareOverride(irq, overrides).value.Some? && 32 + irq >= 0x100)
    ensures r.Ok? ==>
              (r.value.Some? <==> PrepareOverride(irq, overrides).value.Some?
                                  && exists j :: 0 <= j < |units| && Serves(units[j], PrepareOverride(irq, overrides).value.value.gsi))
  {
    match PrepareOverride(irq, overrides)
    case Panic(m) => Panic(m)
    case Ok(None) => Ok(None)
    case Ok(Some(route)) =>
      if 32 + irq >= 0x100 then Panic(ADD_OVERFLOW)
      else
        var entry := RedirectionEntry(32 + irq, bspApicId, IrqFlags(route.triggerMode, route.polarity));
        match FirstServing(units, route.gsi, 0)
        case None => Ok(None)
        case Some(k) => Ok(Some(TableWrite(k, route.gsi, entry)))
  }

  //////////////////////////////////////////////////////////////////////////////
  // The legacy-IRQ run
  //////////////////////////////////////////////////////////////////////////////

  /** The writes a sequence of `init_override` outcomes produces when taken
      in order: each resolved IRQ adds its write, an unresolved one adds
      nothing, and the first panic ends the run. */
  function RunOutcomes(steps: seq<Outcome<Option<TableWrite>>>): (r: Outcome<seq<TableWrite>>)
    decreases |steps|
    ensures r.Ok? ==> |r.value| <= |steps|
    ensures r.Ok? ==> forall w :: w in r.value ==> exists i :: 0 <= i < |steps| && steps[i] == Ok(Some(w))
  {
    if steps == [] then Ok([])
    else
      match RunOutcomes(steps[..|steps| - 1])
      case Panic(m) => Panic(m)
      case Ok(ws) =>
        match steps[|steps| - 1]
        case Panic(m) => Panic(m)
        case Ok(None) => Ok(ws)
        case Ok(Some(w)) => Ok(ws + [w])
  }

  /** The run is Ok exactly when every outcome is. */
  lemma {:induction false} RunOutcomesOkIff(steps: seq<Outcome<Option<TableWrite>>>)
    decreases |steps|
    ensures RunOutcomes(steps).Ok? <==> forall i :: 0 <= i < |steps| ==> steps[i].Ok?
  {
    if steps != [] {
      var init := steps[..|steps| - 1];
      RunOutcomesOkIff(init);
      assert forall i :: 0 <= i < |init| ==> init[i] == steps[i];
    }
  }

  /** A panicking run carries the message of the first panicking outcome. */
  lemma {:induction false} RunOutcomesFirstPanic(steps: seq<Outcome<Option<TableWrite>>>)
    decreases |steps|
    ensures RunOutcomes(steps).Panic? ==>
              exists i :: 0 <= i < |steps|
                          && steps[i].Panic?
                          && (forall j :: 0 <= j < i ==> steps[j].Ok?)
                          && RunOutcomes(steps).message == steps[i].message
  {
    if steps != [] {
      var init := steps[..|steps| - 1];
      assert forall i :: 0 <= i < |init| ==> init[i] == steps[i];
      if RunOutcomes(init).Panic? {
        RunOutcomesFirstPanic(init);
        var i :| 0 <= i < |init| && init[i].Panic? && (forall j :: 0 <= j < i ==> init[j].Ok?)
                 && RunOutcomes(init).message == init[i].message;
        assert steps[i].Panic? && RunOutcomes(steps).message == steps[i].message;
      } else {
        RunOutcomesOkIff(init);
        assert RunOutcomes(steps).Panic? ==> steps[|init|].Panic?;
      }
    }
  }

  /** Once a prefix of the run has panicked, the whole run ends in that
      panic. */
  lemma {:induction false} RunOutcomesPanicPersists(steps: seq<Outcome<Option<TableWrite>>>, n: nat)
    requires n <= |steps|
    requires RunOutcomes(steps[..n]).Panic?
    decreases |steps|
    ensures RunOutcomes(steps) == RunOutcomes(steps[..n])
  {
    if n == |steps| {
      assert steps[..n] == steps;
    } else {
      var init := steps[..|steps| - 1];
      assert init[..n] == steps[..n];
      RunOutcomesPanicPersists(init, n);
    }
  }

  /** The outcomes of `init_override` for IRQs `0 .. k - 1`, in order. */
  function LegacyOutcomes(bspApicId: nat, overrides: seq<Override>, units: seq<IoApicUnit>, k: nat): (s: seq<Outcome<Option<TableWrite>>>)
    requires k <= 0x100
    ensures |s| == k
    ensures forall i :: 0 <= i < k ==> s[i] == InitOverride(i, bspApicId, overrides, units)
  {
    seq(k, i requires 0 <= i < k => InitOverride(i, bspApicId, overrides, units))
  }

  /** The outcomes for fewer IRQs are a prefix of those for more. */
  lemma LegacyOutcomesPrefix(bspApicId: nat, overrides: seq<Override>, units: seq<IoApicUnit>, i: nat, k: nat)
    requires i <= k <= 0x100
    ensures LegacyOutcomes(bspApicId, overrides, units, k)[..i] == LegacyOutcomes(bspApicId, overrides, units, i)
  {
    var long := LegacyOutcomes(bspApicId, overrides, units, k);
    var short := LegacyOutcomes(bspApicId, overrides, units, i);
    assert forall j :: 0 <= j < i ==> long[..i][j] == short[j];
  }

  /** Reference run of the legacy-IRQ loop over IRQs `0 .. k - 1`: the
      writes of the resolved IRQs in IRQ order, or the first panic. */
  function LegacyRoute(bspApicId: nat, overrides: seq<Override>, units: seq<IoApicUnit>, k: nat): (r: Outcome<seq<TableWrite>>)
    requires k <= 0x100
    ensures r.Ok? ==> |r.value| <= k
    ensures r.Ok? ==> forall w :: w in r.value ==> 32 <= w.entry.vector < 32 + k && w.entry.dest == bspApicId
  {
    RunOutcomes(LegacyOutcomes(bspApicId, overrides, units, k))
  }

  /** The run panics exactly when some IRQ's override panics, and then with
      the message of the first such IRQ. */
  lemma LegacyRouteFirstPanic(bspApicId: nat, overrides: seq<Override>, units: seq<IoApicUnit>, k: nat)
    requires k <= 0x100
    ensures LegacyRoute(bspApicId, overrides, units, k).Ok?
            <==> forall i :: 0 <= i < k ==> InitOverride(i, bspApicId, overrides, units).Ok?
    ensures LegacyRoute(bspApicId, overrides, units, k).Panic? ==>
              exists i :: 0 <= i < k
                          && InitOverride(i, bspApicId, overrides, units).Panic?
                          && (forall j :: 0 <= j < i ==> InitOverride(j, bspApicId, overrides, units).Ok?)
                          && LegacyRoute(bspApicId, overrides, units, k).message == InitOverride(i, bspApicId, overrides, units).message
  {
    var steps := LegacyOutcomes(bspApicId, overrides, units, k);
    RunOutcomesOkIff(steps);
    RunOutcomesFirstPanic(steps);
  }

  /** Once the run has panicked, running further IRQs keeps that panic. */
  lemma LegacyRoutePanicPersists(bspApicId: nat, overrides: seq<Override>, units: seq<IoApicUnit>, i: nat, k: nat)
    requires i <= k <= 0x100
    requires LegacyRoute(bspApicId, overrides, units, i).Panic?
    ensures LegacyRoute(bspApicId, overrides, units, k) == LegacyRoute(bspApicId, overrides, units, i)
  {
    LegacyOutcomesPrefix(bspApicId, overrides, units, i, k);
    RunOutcomesPanicPersists(LegacyOutcomes(bspApicId, overrides, units, k), i);
  }

  /** One IRQ more after a run without panic. */
  lemma LegacyRouteStep(bspApicId: nat, overrides: seq<Override>, units: seq<IoApicUnit>, k: nat, ws: seq<TableWrite>)
    requires k < 0x100
    requires LegacyRoute(bspApicId, overrides, units, k) == Ok(ws)
    ensures var step := InitOverride(k, bspApicId, overrides, units);
            LegacyRoute(bspApicId, overrides, units, k + 1)
            == match step
               case Panic(m) => Panic(m)
               case Ok(None) => Ok(ws)
               case Ok(Some(w)) => Ok(ws + [w])
  {
    var steps := LegacyOutcomes(bspApicId, overrides, units, k + 1);
    LegacyOutcomesPrefix(bspApicId, overrides, units, k, k + 1);
    assert steps[..|steps| - 1] == LegacyOutcomes(bspApicId, overrides, units, k);
    assert steps[|steps| - 1] == InitOverride(k, bspApicId, overrides, units);
  }

  /** What the run over the sixteen legacy IRQs promises. */
  lemma LegacyRouteSixteen(bspApicId: nat, overrides: seq<Override>, units: seq<IoApicUnit>, r: Outcome<seq<TableWrite>>)
    requires r == LegacyRoute(bspApicId, overrides, units, 16)
    ensures r.Ok? <==> forall irq :: 0 <= irq <= 15 ==> InitOverride(irq, bspApicId, overrides, units).Ok?
    ensures r.Ok? ==> |r.value| <= 16
    ensures r.Ok? ==> forall w :: w in r.value ==> 32 <= w.entry.vector <= 47 && w.entry.dest == bspApicId
    ensures r.Panic? ==> exists irq :: 0 <= irq <= 15 && InitOverride(irq, bspApicId, overrides, units).Panic?
  {
    LegacyRouteFirstPanic(bspApicId, overrides, units, 16);
  }

  /** The legacy-IRQ loop of `init`: IRQs 0 to 15 in order, collecting the
      table writes; a panic stops the loop. */
  method RouteLegacyIrqs(bspApicId: nat, overrides: seq<Override>, units: seq<IoApicUnit>)
    returns (r: Outcome<seq<TableWrite>>)
    ensures r == LegacyRoute(bspApicId, overrides, units, 16)
    ensures r.Ok? <==> forall irq :: 0 <= irq <= 15 ==> InitOverride(irq, bspApicId, overrides, units).Ok?
    ensures r.Ok? ==> |r.value| <= 16
    ensures r.Ok? ==> forall w :: w in r.value ==> 32 <= w.entry.vector <= 47 && w.entry.dest == bspApicId
    ensures r.Panic? ==> exists irq :: 0 <= irq <= 15 && InitOverride(irq, bspApicId, overrides, units).Panic?
  {
    r := RunLegacyLoop(bspApicId, overrides, units);
    LegacyRouteSixteen(bspApicId, overrides, units, r);
  }

  /** The loop itself, run against the reference `LegacyRoute`. */
  method RunLegacyLoop(bspApicId: nat, overrides: seq<Override>, units: seq<IoApicUnit>)
    returns (r: Outcome<seq<TableWrite>>)
    ensures r == LegacyRoute(bspApicId, overrides, units, 16)
  {
    var writes: seq<TableWrite> := [];
    var irq := 0;
    while irq <= 15
      invariant 0 <= irq <= 16
      invariant LegacyRoute(bspApicId, overrides, units, irq) == Ok(writes)
    {
      var step := InitOverride(irq, bspApicId, overrides, units);
      LegacyRouteStep(bspApicId, overrides, units, irq, writes);
      if step.Panic? {
        LegacyRoutePanicPersists(bspApicId, overrides, units, irq + 1, 16);
        return Panic(step.message);
      }
      if step.value.Some? {
        writes := writes + [step.value.value];
      }
      irq := irq + 1;
    }
    r := Ok(writes);
  }

  /** With no overrides every legacy IRQ keeps its own line, edge triggered
      and active high by bus default. */
  lemma NoOverridesIsIdentity(irq: nat)
    ensures PrepareOverride(irq, []) == Ok(Some(Route(irq, TriggerSameAsBus, PolaritySameAsBus)))
    ensures IrqFlags(TriggerSameAsBus, PolaritySameAsBus) == {}
  {
  }

  /** The usual PC override of the timer, IRQ 0 onto GSI 2: IRQ 0 goes to
      line 2 and IRQ 2 is dropped. */
  lemma TimerOverrideExample()
    ensures var ovs := [Override(0, 2, TriggerSameAsBus, PolaritySameAsBus)];
            && PrepareOverride(0, ovs) == Ok(Some(Route(2, TriggerSameAsBus, PolaritySameAsBus)))
            && PrepareOverride(2, ovs) == Ok(None)
            && PrepareOverride(1, ovs) == Ok(Some(Route(1, TriggerSameAsBus, PolaritySameAsBus)))
  {
    var ovs := [Override(0, 2, TriggerSameAsBus, PolaritySameAsBus)];
    assert FirstOverrideFor(0, ovs, 0) == Some(0);
    assert ovs[0].gsi == 2;
  }
}
