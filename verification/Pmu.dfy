/** The register routines as loops over the cores, and program and cleanup on top
    of them. The lock is held throughout each call of Program and Cleanup. */
module Pmu {
  import opened PmuCounting
  import opened PmuProtocol
  import opened PmuRegisters

  class PCM {
    const numMax: nat
    const model: Family
    var cores: seq<CoreRegs>
    var instances: nat

    ghost predicate Valid()
      reads this
    {
      Fits(cores, numMax, model)
    }

    ghost function Value(): Shared
      reads this
    {
      Shared(cores, instances)
    }

    constructor (cores: seq<CoreRegs>, numMax: nat, model: Family)
      requires Fits(cores, numMax, model)
      ensures Valid() && this.cores == cores && instances == 0 && this.numMax == numMax && this.model == model
    {
      this.cores, this.numMax, this.model := cores, numMax, model;
      instances := 0;
    }

    method PMUinUse() returns (busy: bool)
      requires Valid()
      ensures busy <==> InUse(cores, numMax)
    {
      for i := 0 to |cores|
        invariant forall k :: 0 <= k < i ==> !CoreInUse(cores[k].config, numMax)
      {
        var c := cores[i].config;
        for j := 0 to numMax
          invariant forall k :: 0 <= k < j ==> !SelectBusy(c.evtSel[k])
        {
          if c.evtSel[j].eventSelect != 0 || c.evtSel[j].apicInt {
            assert SelectBusy(c.evtSel[j]);
            assert CoreInUse(cores[i].config, numMax);
            return true;
          }
        }
        if c.fixedCtrl.ctr0.enablePmi || c.fixedCtrl.ctr1.enablePmi || c.fixedCtrl.ctr2.enablePmi {
          assert CoreInUse(cores[i].config, numMax);
          return true;
        }
        if c.fixedCtrl.ctr0.os != c.fixedCtrl.ctr0.usr || c.fixedCtrl.ctr1.os != c.fixedCtrl.ctr1.usr
           || c.fixedCtrl.ctr2.os != c.fixedCtrl.ctr2.usr {
          assert CoreInUse(cores[i].config, numMax);
          return true;
        }
      }
      return false;
    }

    /** Zero the event selects that the machine reports. */
    method ClearSelects(evtSel: seq<EventSelect>) returns (r: seq<EventSelect>)
      requires numMax <= |evtSel|
      ensures r == ZeroSelects(evtSel, numMax)
    {
      r := evtSel;
      for j := 0 to numMax
        invariant |r| == |evtSel|
        invariant forall k :: 0 <= k < |r| ==> r[k] == if k < j then ZERO_SELECT else evtSel[k]
      {
        r := r[j := ZERO_SELECT];
      }
    }

    method CleanupPMU()
      requires Valid()
      modifies this`cores
      ensures Valid() && cores == AllCleaned(old(cores), numMax, model)
      ensures forall i :: 0 <= i < |cores| ==> NoGenericOn(cores[i].config)
    {
      for i := 0 to |cores|
        invariant |cores| == |old(cores)|
        invariant forall k :: 0 <= k < |cores| ==>
          cores[k] == if k < i then Cleaned(old(cores)[k], numMax) else old(cores)[k]
      {
        var evtSel := ClearSelects(cores[i].config.evtSel);
        cores := cores[i := cores[i].(config := Config(FIXED_BITS, cores[i].config.fixedCtrl, evtSel))];
      }
      forall i | 0 <= i < |cores| ensures NoGenericOn(cores[i].config) {
        CleanedKeepsFixed(old(cores)[i], numMax);
      }
    }

    method ResetPMU()
      requires Valid()
      modifies this`cores
      ensures Valid() && cores == AllReset(old(cores), numMax, model)
      ensures forall i :: 0 <= i < |cores| ==> NothingOn(cores[i].config)
    {
      for i := 0 to |cores|
        invariant |cores| == |old(cores)|
        invariant forall k :: 0 <= k < |cores| ==>
          cores[k] == if k < i then Reset(old(cores)[k], numMax) else old(cores)[k]
      {
        var evtSel := ClearSelects(cores[i].config.evtSel);
        var f := cores[i].config.fixedCtrl;
        if f.ctr0.os || f.ctr0.usr || f.ctr0.enablePmi || f.ctr1.os || f.ctr1.usr || f.ctr1.enablePmi
           || f.ctr2.os || f.ctr2.usr || f.ctr2.enablePmi {
          f := ZERO_FIXED;
        }
        cores := cores[i := cores[i].(config := Config(0, f, evtSel))];
      }
      forall i | 0 <= i < |cores| ensures NothingOn(cores[i].config) {
        ResetStopsAll(old(cores)[i], numMax);
      }
    }

    /** One core's share of program's loop. */
    method ProgramCore(c: CoreRegs) returns (r: CoreRegs)
      requires |DefaultEvents(model)| <= |c.config.evtSel| && |DefaultEvents(model)| <= |c.pmc|
      ensures r == Programmed(c, model) && CountsDefaults(r.config, model)
    {
      var events := DefaultEvents(model);
      var f := c.config.fixedCtrl;
      f := f.(ctr0 := COUNTING, ctr1 := COUNTING, ctr2 := COUNTING);
      var evtSel, pmc := c.config.evtSel, c.pmc;
      for j := 0 to |events|
        invariant |evtSel| == |c.config.evtSel| && |pmc| == |c.pmc|
        invariant forall k :: 0 <= k < |evtSel| ==>
          evtSel[k] == if k < j then Selected(c.config.evtSel[k], events[k]) else c.config.evtSel[k]
        invariant forall k :: 0 <= k < |pmc| ==> pmc[k] == if k < j then 0 else c.pmc[k]
      {
        pmc := pmc[j := 0];
        var reg := evtSel[j].(eventSelect := events[j].number, umask := events[j].umask, usr := true, os := true,
                              edge := false, pinControl := false, apicInt := false, anyThread := false,
                              enable := true, invert := false, cmask := 0, inTx := false, inTxcp := false);
        evtSel := evtSel[j := reg];
      }
      r := CoreRegs(Config(GlobalEnable(model), f, evtSel), pmc);
      assert evtSel == SelectedUpTo(c.config.evtSel, events, |events|);
      assert pmc == ZeroUpTo(c.pmc, |events|);
      ProgrammedCounts(c, model);
    }

    /** True for the last instance. */
    method DecrementInstanceSemaphore() returns (isLastInstance: bool)
      modifies this`instances
      ensures instances == if old(instances) == 0 then 0 else old(instances) - 1
      ensures isLastInstance <==> old(instances) == 1
    {
      if instances == 0 {
        return false;
      }
      instances := instances - 1;
      isLastInstance := instances == 0;
    }

    method Program() returns (code: ErrorCode)
      requires Valid()
      modifies this`cores, this`instances
      ensures Valid() && (Value(), code) == ProgramShared(old(Value()), numMax, model)
      ensures code == Success && old(instances) == 0 ==>
        forall i :: 0 <= i < |cores| ==> CountsDefaults(cores[i].config, model)
    {
      instances := instances + 1;
      if instances > 1 {
        return Success;
      }
      var busy := PMUinUse();
      if busy {
        var last := DecrementInstanceSemaphore();
        return PMUBusy;
      }
      for i := 0 to |cores|
        invariant instances == 1 && |cores| == |old(cores)|
        invariant forall k :: 0 <= k < |cores| ==>
          cores[k] == if k < i then Programmed(old(cores)[k], model) else old(cores)[k]
      {
        var c := ProgramCore(cores[i]);
        cores := cores[i := c];
      }
      assert cores == AllProgrammed(old(cores), numMax, model);
      forall i | 0 <= i < |cores| ensures CountsDefaults(cores[i].config, model) {
        ProgrammedCounts(old(cores)[i], model);
      }
      return Success;
    }

    method Cleanup()
      requires Valid()
      modifies this`cores, this`instances
      ensures Valid() && Value() == CleanupShared(old(Value()), numMax, model)
    {
      var last := DecrementInstanceSemaphore();
      if last {
        CleanupPMU();
      }
    }
  }
}
