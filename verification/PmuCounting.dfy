/** Which counters of a core run, read off its control registers: what programming,
    cleaning up and resetting mean for the counts. */
module PmuCounting {
  import opened PmuProtocol
  import opened PmuRegisters
  import opened Words

  /** The generic counters have the low bits of the global control, the fixed ones those
      from bit 32 on. */
  const GENERIC_BITS: nat := 32

  /** A generic counter runs: enabled globally, in its select, and for some ring. */
  predicate GenericOn(c: Config, j: nat)
  {
    && j < |c.evtSel| && j < GENERIC_BITS && Bit(c.globalCtrl, j)
    && c.evtSel[j].enable && (c.evtSel[j].usr || c.evtSel[j].os)
  }

  /** It counts every occurrence of the event in both rings, and interrupts nobody. */
  predicate GenericCounts(c: Config, j: nat, ev: Event)
    requires j < |c.evtSel|
  {
    var e := c.evtSel[j];
    && GenericOn(c, j) && e.usr && e.os && e.eventSelect == ev.number && e.umask == ev.umask
    && !e.edge && !e.pinControl && !e.apicInt && !e.anyThread && !e.invert && e.cmask == 0 && !e.inTx && !e.inTxcp
  }

  function FieldOf(c: Config, k: nat): FixedField
    requires k < 3
  {
    if k == 0 then c.fixedCtrl.ctr0 else if k == 1 then c.fixedCtrl.ctr1 else c.fixedCtrl.ctr2
  }

  predicate FixedOn(c: Config, k: nat)
    requires k < 3
  {
    Bit(c.globalCtrl, GENERIC_BITS + k) && (FieldOf(c, k).os || FieldOf(c, k).usr)
  }

  predicate FixedCounts(c: Config, k: nat)
    requires k < 3
  {
    FixedOn(c, k) && FieldOf(c, k).os && FieldOf(c, k).usr && !FieldOf(c, k).anyThread && !FieldOf(c, k).enablePmi
  }

  /** The generic counters that run are one for each default event, each counting its own,
      and all three fixed counters count. */
  ghost predicate CountsDefaults(c: Config, m: Family)
  {
    && |DefaultEvents(m)| <= |c.evtSel|
    && (forall j: nat :: GenericOn(c, j) <==> j < |DefaultEvents(m)|)
    && (forall j: nat :: j < |DefaultEvents(m)| ==> GenericCounts(c, j, DefaultEvents(m)[j]))
    && (forall k: nat :: k < 3 ==> FixedCounts(c, k))
  }

  ghost predicate NoGenericOn(c: Config)
  {
    forall j: nat :: !GenericOn(c, j)
  }

  ghost predicate OnlyFixedCount(c: Config)
  {
    NoGenericOn(c) && forall k: nat :: k < 3 ==> FixedCounts(c, k)
  }

  ghost predicate NothingOn(c: Config)
  {
    NoGenericOn(c) && forall k: nat :: k < 3 ==> !FixedOn(c, k)
  }

  // ---------- The global control ----------

  /** Enabling the first n generic counters and the three fixed ones. */
  lemma EnableBits(n: nat, k: nat)
    requires n <= 4
    ensures Bit(FIXED_BITS + (Pow2(n) - 1), k) <==> k < n || GENERIC_BITS <= k < GENERIC_BITS + 3
  {
    Pow2Of32();
    assert FIXED_BITS == Pow2(32) * (Pow2(3) - 1);
    Pow2AtMost(n, 31);
    BitsOfParts(Pow2(n) - 1, Pow2(3) - 1, 32, k);
    OnesBits(n, k);
    if k >= 32 {
      OnesBits(3, k - 32);
    }
  }

  lemma Pow2AtMost(n: nat, w: nat)
    requires n <= w
    ensures Pow2(n) - 1 < Pow2(w + 1)
  {
    Pow2Grows(n, w + 1);
  }

  // ---------- What the routines leave running ----------

  /** A programmed core counts the default events, from zero. */
  lemma ProgrammedCounts(c: CoreRegs, m: Family)
    requires |DefaultEvents(m)| <= |c.config.evtSel| && |DefaultEvents(m)| <= |c.pmc|
    ensures CountsDefaults(Programmed(c, m).config, m)
    ensures forall j :: 0 <= j < |DefaultEvents(m)| ==> Programmed(c, m).pmc[j] == 0
  {
    var p, n := Programmed(c, m).config, |DefaultEvents(m)|;
    assert p.globalCtrl == FIXED_BITS + (Pow2(n) - 1) by {
      assert Pow2(2) == 4 && Pow2(4) == 16;
    }
    forall k: nat ensures Bit(p.globalCtrl, k) <==> k < n || GENERIC_BITS <= k < GENERIC_BITS + 3 {
      EnableBits(n, k);
    }
  }

  /** A cleaned core runs no generic counter; of the fixed ones it runs exactly those that
      its fixed control has on. */
  lemma CleanedKeepsFixed(c: CoreRegs, numMax: nat)
    requires numMax <= |c.config.evtSel|
    ensures var d := Cleaned(c, numMax).config;
            NoGenericOn(d) && forall k: nat :: k < 3 ==>
              (FixedOn(d, k) <==> FieldOf(c.config, k).os || FieldOf(c.config, k).usr)
  {
    assert Pow2(0) == 1;
    forall k: nat ensures Bit(FIXED_BITS, k) <==> GENERIC_BITS <= k < GENERIC_BITS + 3 {
      EnableBits(0, k);
    }
  }

  /** A reset core runs no counter at all, and no fixed one has a field left that would
      start it with the global control. */
  lemma ResetStopsAll(c: CoreRegs, numMax: nat)
    requires numMax <= |c.config.evtSel|
    ensures var d := Reset(c, numMax).config;
            NothingOn(d) && forall k: nat :: k < 3 ==>
              !FieldOf(d, k).os && !FieldOf(d, k).usr && !FieldOf(d, k).enablePmi
  {
    forall k: nat ensures !Bit(0, k) {
      ZeroBits(k);
    }
  }

  // ---------- When a core is in use ----------

  /** Read off the registers: an event selected, an overflow interrupt, a fixed counter
      with a handler, or one that runs in one ring only. */
  lemma InUseIff(c: Config, numMax: nat)
    requires numMax <= |c.evtSel|
    ensures CoreInUse(c, numMax) <==>
      || (exists j :: 0 <= j < numMax && (c.evtSel[j].eventSelect != 0 || c.evtSel[j].apicInt))
      || (exists k: nat :: k < 3 && (FieldOf(c, k).enablePmi || FieldOf(c, k).os != FieldOf(c, k).usr))
  {
    assert FieldOf(c, 0) == c.fixedCtrl.ctr0 && FieldOf(c, 1) == c.fixedCtrl.ctr1 && FieldOf(c, 2) == c.fixedCtrl.ctr2;
    if CoreInUse(c, numMax) && !FixedBusy(c.fixedCtrl) {
      var j :| 0 <= j < numMax && SelectBusy(c.evtSel[j]);
      assert c.evtSel[j].eventSelect != 0 || c.evtSel[j].apicInt;
    }
    if j :| 0 <= j < numMax && (c.evtSel[j].eventSelect != 0 || c.evtSel[j].apicInt) {
      assert SelectBusy(c.evtSel[j]);
    }
  }

  // ---------- In every run ----------

  /** While the semaphore is positive, every core counts the default events. */
  lemma HeldCounts(r: Run, j: nat, numMax: nat, m: Family)
    requires IsRun(r, numMax, m) && j < |r.states| && r.states[j].shared.instances > 0
    ensures forall i :: 0 <= i < |r.states[j].shared.cores| ==> CountsDefaults(r.states[j].shared.cores[i].config, m)
  {
    var k := HeldIsAsProgrammed(r, j, numMax, m);
    var cores, before := r.states[j].shared.cores, r.states[k].shared.cores;
    var programmed := AllProgrammed(before, numMax, m);
    assert |cores| == |Configs(cores)| == |Configs(programmed)| == |before|;
    forall i | 0 <= i < |cores| ensures CountsDefaults(cores[i].config, m) {
      assert Configs(cores)[i] == Configs(programmed)[i];
      ProgrammedCounts(before[i], m);
    }
  }

  /** What the cache getters find in the events: on an ATOM L2 misses and references;
      elsewhere L3 misses, L3 hits without and with a snoop, and L2 hits. */
  lemma CountedEvents(c: Config, m: Family)
    requires CountsDefaults(c, m)
    ensures m.ATOM? ==> GenericCounts(c, 0, ARCH_LLC_MISS) && GenericCounts(c, 1, ARCH_LLC_REFERENCE)
    ensures m.NEHALEM_EP_FAMILY? ==> GenericCounts(c, 0, MEM_LOAD_RETIRED_L3_MISS)
    ensures m.NEHALEM_EX_FAMILY? || m.SANDY_BRIDGE_FAMILY? ==> GenericCounts(c, 0, ARCH_LLC_MISS)
    ensures m.NEHALEM_EP_FAMILY? || m.NEHALEM_EX_FAMILY? ==>
      && GenericCounts(c, 1, MEM_LOAD_RETIRED_L3_UNSHAREDHIT) && GenericCounts(c, 2, MEM_LOAD_RETIRED_L2_HITM)
      && GenericCounts(c, 3, MEM_LOAD_RETIRED_L2_HIT)
    ensures m.SANDY_BRIDGE_FAMILY? ==>
      && GenericCounts(c, 1, MEM_LOAD_UOPS_LLC_HIT_RETIRED_XSNP_NONE)
      && GenericCounts(c, 2, MEM_LOAD_UOPS_LLC_HIT_RETIRED_XSNP)
      && GenericCounts(c, 3, MEM_LOAD_UOPS_RETIRED_L2_HIT)
  {
    var events := DefaultEvents(m);
    assert GenericCounts(c, 0, events[0]) && GenericCounts(c, 1, events[1]);
    if !m.ATOM? {
      assert GenericCounts(c, 2, events[2]) && GenericCounts(c, 3, events[3]);
    }
  }

  lemma CleanedCounts(c: CoreRegs, numMax: nat, m: Family)
    requires numMax <= |c.config.evtSel| && CountsDefaults(c.config, m)
    ensures OnlyFixedCount(Cleaned(c, numMax).config)
  {
    CleanedKeepsFixed(c, numMax);
    forall k: nat | k < 3 ensures FixedCounts(Cleaned(c, numMax).config, k) {
      assert FixedCounts(c.config, k) && FieldOf(Cleaned(c, numMax).config, k) == FieldOf(c.config, k);
    }
  }

  /** The step that takes it to zero leaves the fixed counters counting and nothing else. */
  lemma LastLeavesFixed(r: Run, j: nat, numMax: nat, m: Family)
    requires IsRun(r, numMax, m) && j + 1 < |r.states|
    requires r.states[j].shared.instances > 0 && r.states[j + 1].shared.instances == 0
    ensures forall c :: c in r.states[j + 1].shared.cores ==> OnlyFixedCount(c.config)
  {
    SemaphoreCounts(r, j, numMax, m);
    HeldCounts(r, j, numMax, m);
    assert Next(r.states[j], r.actions[j], r.states[j + 1], numMax, m);
    OnlyFirstAndLastWrite(r.states[j], r.actions[j], r.states[j + 1], numMax, m);
    var before, after := r.states[j].shared.cores, r.states[j + 1].shared.cores;
    forall c | c in after ensures OnlyFixedCount(c.config) {
      var i :| 0 <= i < |after| && after[i] == c;
      CleanedCounts(before[i], numMax, m);
    }
  }
}
