/** The per-core performance-monitoring registers and the four routines that
    inspect, program, clean and reset them. */
module PmuRegisters {

  /** IA32_PERFEVTSELx by fields. */
  datatype EventSelect = EventSelect(eventSelect: nat, umask: nat, usr: bool, os: bool, edge: bool, pinControl: bool,
                                     apicInt: bool, anyThread: bool, enable: bool, invert: bool, cmask: nat,
                                     inTx: bool, inTxcp: bool, reserved: nat)

  /** One fixed counter's share of IA32_FIXED_CTR_CTRL. */
  datatype FixedField = FixedField(os: bool, usr: bool, anyThread: bool, enablePmi: bool)

  datatype FixedControl = FixedControl(ctr0: FixedField, ctr1: FixedField, ctr2: FixedField, reserved: nat)

  /** What a core's control registers say, and its counters, which the hardware advances. */
  datatype Config = Config(globalCtrl: nat, fixedCtrl: FixedControl, evtSel: seq<EventSelect>)

  datatype CoreRegs = CoreRegs(config: Config, pmc: seq<nat>)

  const ZERO_SELECT := EventSelect(0, 0, false, false, false, false, false, false, false, false, 0, false, false, 0)
  const ZERO_FIELD := FixedField(false, false, false, false)
  const ZERO_FIXED := FixedControl(ZERO_FIELD, ZERO_FIELD, ZERO_FIELD, 0)

  /** The three fixed counters' bits of IA32_PERF_GLOBAL_CTRL. */
  const FIXED_BITS: nat := 0x7_0000_0000

  datatype Event = Event(number: nat, umask: nat)

  datatype Family = ATOM | SANDY_BRIDGE_FAMILY | NEHALEM_EP_FAMILY | NEHALEM_EX_FAMILY

  const ARCH_LLC_MISS: Event := Event(0x2E, 0x41)
  const ARCH_LLC_REFERENCE: Event := Event(0x2E, 0x4F)
  const MEM_LOAD_UOPS_LLC_HIT_RETIRED_XSNP_NONE: Event := Event(0xD2, 0x08)
  const MEM_LOAD_UOPS_LLC_HIT_RETIRED_XSNP: Event := Event(0xD2, 0x07)
  const MEM_LOAD_UOPS_RETIRED_L2_HIT: Event := Event(0xD1, 0x02)
  const MEM_LOAD_RETIRED_L3_MISS: Event := Event(0xCB, 0x10)
  const MEM_LOAD_RETIRED_L3_UNSHAREDHIT: Event := Event(0xCB, 0x04)
  const MEM_LOAD_RETIRED_L2_HITM: Event := Event(0xCB, 0x08)
  const MEM_LOAD_RETIRED_L2_HIT: Event := Event(0xCB, 0x02)

  /** The events of the default mode. */
  function DefaultEvents(m: Family): (events: seq<Event>)
    ensures |events| == if m.ATOM? then 2 else 4
    ensures forall j :: 0 <= j < |events| ==> events[j].number != 0
  {
    match m
    case ATOM => [ARCH_LLC_MISS, ARCH_LLC_REFERENCE]
    case SANDY_BRIDGE_FAMILY =>
      [ARCH_LLC_MISS, MEM_LOAD_UOPS_LLC_HIT_RETIRED_XSNP_NONE, MEM_LOAD_UOPS_LLC_HIT_RETIRED_XSNP,
       MEM_LOAD_UOPS_RETIRED_L2_HIT]
    case NEHALEM_EP_FAMILY =>
      [MEM_LOAD_RETIRED_L3_MISS, MEM_LOAD_RETIRED_L3_UNSHAREDHIT, MEM_LOAD_RETIRED_L2_HITM, MEM_LOAD_RETIRED_L2_HIT]
    case NEHALEM_EX_FAMILY =>
      [ARCH_LLC_MISS, MEM_LOAD_RETIRED_L3_UNSHAREDHIT, MEM_LOAD_RETIRED_L2_HITM, MEM_LOAD_RETIRED_L2_HIT]
  }

  /** Register files large enough for every counter the routines touch. */
  ghost predicate Fits(cores: seq<CoreRegs>, numMax: nat, m: Family)
  {
    forall i :: 0 <= i < |cores| ==>
      && numMax <= |cores[i].config.evtSel|
      && |DefaultEvents(m)| <= |cores[i].config.evtSel|
      && |DefaultEvents(m)| <= |cores[i].pmc|
  }

  // ---------- When a core is in use ----------

  /** An event is selected or its overflow interrupt is on. */
  predicate SelectBusy(e: EventSelect)
  {
    e.eventSelect != 0 || e.apicInt
  }

  /** Running with a handler, or in one ring only. */
  predicate FieldBusy(f: FixedField)
  {
    f.enablePmi || f.os != f.usr
  }

  predicate FixedBusy(c: FixedControl)
  {
    FieldBusy(c.ctr0) || FieldBusy(c.ctr1) || FieldBusy(c.ctr2)
  }

  ghost predicate CoreInUse(c: Config, numMax: nat)
    requires numMax <= |c.evtSel|
  {
    FixedBusy(c.fixedCtrl) || exists j :: 0 <= j < numMax && SelectBusy(c.evtSel[j])
  }

  ghost predicate InUse(cores: seq<CoreRegs>, numMax: nat)
    requires forall i :: 0 <= i < |cores| ==> numMax <= |cores[i].config.evtSel|
  {
    exists i :: 0 <= i < |cores| && CoreInUse(cores[i].config, numMax)
  }

  // ---------- What the routines write ----------

  function ZeroSelects(evtSel: seq<EventSelect>, n: nat): (r: seq<EventSelect>)
    requires n <= |evtSel|
    ensures |r| == |evtSel|
    ensures forall j :: 0 <= j < |r| ==> r[j] == if j < n then ZERO_SELECT else evtSel[j]
  {
    seq(|evtSel|, j requires 0 <= j < |evtSel| => if j < n then ZERO_SELECT else evtSel[j])
  }

  /** Disable the generic counters and let the fixed ones run free. */
  function Cleaned(c: CoreRegs, numMax: nat): CoreRegs
    requires numMax <= |c.config.evtSel|
  {
    c.(config := Config(FIXED_BITS, c.config.fixedCtrl, ZeroSelects(c.config.evtSel, numMax)))
  }

  predicate FieldOn(f: FixedField)
  {
    f.os || f.usr || f.enablePmi
  }

  function Reset(c: CoreRegs, numMax: nat): CoreRegs
    requires numMax <= |c.config.evtSel|
  {
    var f := c.config.fixedCtrl;
    var on := FieldOn(f.ctr0) || FieldOn(f.ctr1) || FieldOn(f.ctr2);
    c.(config := Config(0, if on then ZERO_FIXED else f, ZeroSelects(c.config.evtSel, numMax)))
  }

  /** An event select as `program` leaves it; reserved bits are kept. */
  function Selected(e: EventSelect, ev: Event): EventSelect
  {
    EventSelect(ev.number, ev.umask, true, true, false, false, false, false, true, false, 0, false, false, e.reserved)
  }

  const COUNTING := FixedField(true, true, false, false)

  function GlobalEnable(m: Family): nat
  {
    if m.ATOM? then FIXED_BITS + 3 else FIXED_BITS + 15
  }

  /** A core as `program` in the default mode leaves it. */
  function Programmed(c: CoreRegs, m: Family): CoreRegs
    requires |DefaultEvents(m)| <= |c.config.evtSel| && |DefaultEvents(m)| <= |c.pmc|
  {
    var events := DefaultEvents(m);
    CoreRegs(Config(GlobalEnable(m),
                    FixedControl(COUNTING, COUNTING, COUNTING, c.config.fixedCtrl.reserved),
                    SelectedUpTo(c.config.evtSel, events, |events|)),
             ZeroUpTo(c.pmc, |events|))
  }

  function SelectedUpTo(evtSel: seq<EventSelect>, events: seq<Event>, n: nat): (r: seq<EventSelect>)
    requires n <= |events| <= |evtSel|
    ensures |r| == |evtSel|
    ensures forall j :: 0 <= j < |r| ==> r[j] == if j < n then Selected(evtSel[j], events[j]) else evtSel[j]
  {
    seq(|evtSel|, j requires 0 <= j < |evtSel| => if j < n then Selected(evtSel[j], events[j]) else evtSel[j])
  }

  function ZeroUpTo(pmc: seq<nat>, n: nat): (r: seq<nat>)
    requires n <= |pmc|
    ensures |r| == |pmc| && forall j :: 0 <= j < |r| ==> r[j] == if j < n then 0 else pmc[j]
  {
    seq(|pmc|, j requires 0 <= j < |pmc| => if j < n then 0 else pmc[j])
  }

  ghost function AllProgrammed(cores: seq<CoreRegs>, numMax: nat, m: Family): (r: seq<CoreRegs>)
    requires Fits(cores, numMax, m)
    ensures |r| == |cores| && forall i :: 0 <= i < |r| ==> r[i] == Programmed(cores[i], m)
  {
    seq(|cores|, i requires 0 <= i < |cores| => Programmed(cores[i], m))
  }

  ghost function AllCleaned(cores: seq<CoreRegs>, numMax: nat, m: Family): (r: seq<CoreRegs>)
    requires Fits(cores, numMax, m)
    ensures |r| == |cores| && forall i :: 0 <= i < |r| ==> r[i] == Cleaned(cores[i], numMax)
  {
    seq(|cores|, i requires 0 <= i < |cores| => Cleaned(cores[i], numMax))
  }

  ghost function AllReset(cores: seq<CoreRegs>, numMax: nat, m: Family): (r: seq<CoreRegs>)
    requires Fits(cores, numMax, m)
    ensures |r| == |cores| && forall i :: 0 <= i < |r| ==> r[i] == Reset(cores[i], numMax)
  {
    seq(|cores|, i requires 0 <= i < |cores| => Reset(cores[i], numMax))
  }

  // ---------- What that means for the next user ----------

  /** From any register state, a reset leaves no core in use. */
  lemma ResetFrees(cores: seq<CoreRegs>, numMax: nat, m: Family)
    requires Fits(cores, numMax, m)
    ensures !InUse(AllReset(cores, numMax, m), numMax)
  {
  }

  /** Programming a machine and cleaning it up again leaves no core in use: the fixed
      counters stay on, but in the one way that does not count as use. */
  lemma ProgramThenCleanFrees(cores: seq<CoreRegs>, numMax: nat, m: Family)
    requires Fits(cores, numMax, m)
    ensures var p := AllProgrammed(cores, numMax, m);
            Fits(p, numMax, m) && !InUse(AllCleaned(p, numMax, m), numMax)
  {
  }

  /** A programmed machine is in use, as long as it has a core and a counter to look at. */
  lemma ProgrammedIsInUse(cores: seq<CoreRegs>, numMax: nat, m: Family)
    requires Fits(cores, numMax, m)
    ensures InUse(AllProgrammed(cores, numMax, m), numMax) <==> |cores| > 0 && numMax > 0
  {
    if |cores| > 0 && numMax > 0 {
      var p := AllProgrammed(cores, numMax, m);
      assert SelectBusy(p[0].config.evtSel[0]);
      assert CoreInUse(p[0].config, numMax);
    }
  }

  /** Cleaning up clears every event select that programming wrote exactly when the
      machine reports at least as many counters as programming uses. */
  lemma CleanupClearsAllWritten(c: CoreRegs, numMax: nat, m: Family)
    requires numMax <= |c.config.evtSel| && |DefaultEvents(m)| <= |c.config.evtSel| && |DefaultEvents(m)| <= |c.pmc|
    ensures var cleaned := Cleaned(Programmed(c, m), numMax).config.evtSel;
      (forall j :: 0 <= j < |DefaultEvents(m)| ==> cleaned[j] == ZERO_SELECT) <==> |DefaultEvents(m)| <= numMax
  {
    var used := |DefaultEvents(m)|;
    var cleaned := Cleaned(Programmed(c, m), numMax).config.evtSel;
    if numMax < used {
      assert cleaned[numMax].eventSelect == DefaultEvents(m)[numMax].number;
    }
  }

  /** With two counters reported and four programmed, the third stays selected. */
  lemma ThirdSelectStays(pmc: seq<nat>)
    requires |pmc| == 4
    ensures var c := CoreRegs(Config(0, ZERO_FIXED, [ZERO_SELECT, ZERO_SELECT, ZERO_SELECT, ZERO_SELECT]), pmc);
      Cleaned(Programmed(c, SANDY_BRIDGE_FAMILY), 2).config.evtSel[2].eventSelect == 0xD2
  {
  }
}
