/** The counter state objects and the three ways of filling them. A core's, a
    socket's and the system's state share one class; a core's uncore part is unused. */
module CounterStates {
  import opened Counters
  import opened Aggregation

  class CounterState {
    var basic: Basic
    var uncore: Uncore
    var thermalHeadroom: int

    ghost function Value(): Counts
      reads this
    {
      Counts(basic, uncore)
    }

    constructor ()
      ensures Value() == Zero() && thermalHeadroom == INVALID_THERMAL_HEADROOM
    {
      basic, uncore := NoBasic(), NoUncore();
      thermalHeadroom := INVALID_THERMAL_HEADROOM;
    }

    /** BasicCounterState's readAndAggregate on a core. */
    method ReadBasic(snap: Snapshot, core: nat)
      requires WellFormed(snap) && core < |snap.cores|
      modifies this
      ensures basic == old(basic).Plus(snap.cores[core]) && thermalHeadroom == snap.headroom[core]
      ensures uncore == old(uncore)
    {
      basic := basic.Plus(snap.cores[core]);
      thermalHeadroom := snap.headroom[core];
    }

    /** UncoreCounterState's readAndAggregate on a core: its package C-states. */
    method ReadPackage(snap: Snapshot, core: nat)
      requires WellFormed(snap) && core < |snap.cores|
      modifies this`uncore
      ensures uncore == old(uncore).Plus(PackageCounts(snap.packages[core]))
      ensures forall i: CState ::
        uncore.cStateResidency[i] == Add(old(uncore).cStateResidency[i], snap.packages[core][i])
      ensures uncore == old(uncore).(cStateResidency := uncore.cStateResidency)
    {
      uncore := uncore.(cStateResidency := AddResidency(uncore.cStateResidency, snap.packages[core]));
      AddZeros(old(uncore), snap.packages[core]);
    }

    lemma AddZeros(u: Uncore, r: Residency)
      ensures u.(cStateResidency := AddResidency(u.cStateResidency, r)) == u.Plus(PackageCounts(r))
    {
    }

    /** readAndAggregateUncoreMCCounters and readAndAggregateEnergyCounters on a socket. */
    method ReadSocket(snap: Snapshot, s: nat)
      requires WellFormed(snap) && s < |snap.mcReads|
      modifies this`uncore
      ensures Value() == old(Value()).Plus(SocketCounts(snap, s))
      ensures uncore == old(uncore).(mcNormalReads := Add(old(uncore).mcNormalReads, snap.mcReads[s]),
                                     mcFullWrites := Add(old(uncore).mcFullWrites, snap.writes[s]),
                                     packageEnergy := Add(old(uncore).packageEnergy, snap.packageEnergy[s]),
                                     dramEnergy := Add(old(uncore).dramEnergy, snap.dramEnergy[s]))
    {
      uncore := uncore.(mcNormalReads := Add(uncore.mcNormalReads, snap.mcReads[s]),
                        mcFullWrites := Add(uncore.mcFullWrites, snap.writes[s]));
      uncore := uncore.(packageEnergy := Add(uncore.packageEnergy, snap.packageEnergy[s]));
      uncore := uncore.(dramEnergy := Add(uncore.dramEnergy, snap.dramEnergy[s]));
      BasicLaws(basic, NoBasic(), NoBasic());
      ResidencyLaws(uncore.cStateResidency, uncore.cStateResidency, uncore.cStateResidency);
    }

    /** BasicCounterState's operator +=. */
    method AddBasic(o: CounterState)
      modifies this`basic
      ensures basic == old(basic).Plus(old(o.basic))
    {
      basic := basic.Plus(o.basic);
    }

    /** accumulateSocketState: both base classes' operator +=. */
    method AccumulateSocketState(o: CounterState)
      modifies this`basic, this`uncore
      ensures Value() == old(Value()).Plus(old(o.Value()))
    {
      AddBasic(o);
      uncore := uncore.Plus(o.uncore);
    }
  }

  ghost predicate Apart(states: seq<CounterState>)
  {
    forall i, j :: 0 <= i < j < |states| ==> states[i] != states[j]
  }

  /** A vector of default states. */
  method Resize(n: nat) returns (states: seq<CounterState>)
    ensures |states| == n && Apart(states) && fresh(states)
    ensures forall i :: 0 <= i < n ==>
      states[i].Value() == Zero() && states[i].thermalHeadroom == INVALID_THERMAL_HEADROOM
  {
    states := [];
    for i := 0 to n
      invariant |states| == i && Apart(states) && fresh(states)
      invariant forall j :: 0 <= j < i ==>
        states[j].Value() == Zero() && states[j].thermalHeadroom == INVALID_THERMAL_HEADROOM
    {
      var x := new CounterState();
      states := states + [x];
    }
  }

  // ---------- Flat totals ----------

  /** getSystemCounterState, without the QPI counters. */
  method GetSystemCounterState(snap: Snapshot) returns (result: CounterState)
    requires WellFormed(snap)
    ensures fresh(result) && result.Value() == SystemTotal(snap)
    ensures result.thermalHeadroom == INVALID_THERMAL_HEADROOM
  {
    result := new CounterState();
    for core := 0 to |snap.cores|
      invariant result.Value() == AllCores(snap, core)
    {
      result.ReadBasic(snap, core);
      result.ReadPackage(snap, core);
    }
    ghost var cores := result.Value();
    Swap(cores, Zero(), Zero());
    for s := 0 to |snap.mcReads|
      invariant result.Value() == cores.Plus(AllSocketCounts(snap, s))
    {
      result.ReadSocket(snap, s);
      PlusLaws(cores, AllSocketCounts(snap, s), SocketCounts(snap, s));
    }
    result.thermalHeadroom := INVALID_THERMAL_HEADROOM;
  }

  /** getSocketCounterState. */
  method GetSocketCounterState(snap: Snapshot, socket: nat) returns (result: CounterState)
    requires WellFormed(snap) && socket < |snap.mcReads|
    ensures fresh(result) && result.Value() == SocketTotal(snap, socket)
    ensures result.thermalHeadroom == snap.packageHeadroom[socket]
  {
    result := new CounterState();
    for core := 0 to |snap.cores|
      invariant result.Value() == CoresOn(snap, core, socket)
    {
      if snap.socketOf[core] == socket {
        result.ReadBasic(snap, core);
        result.ReadPackage(snap, core);
      }
    }
    result.ReadSocket(snap, socket);
    result.thermalHeadroom := snap.packageHeadroom[socket];
  }

  // ---------- From cores to sockets to the system ----------

  /** Two vectors of pairwise different objects. */
  ghost predicate TwoVectors(cores: seq<CounterState>, sockets: seq<CounterState>)
  {
    Apart(cores) && Apart(sockets) && forall i, j :: 0 <= i < |cores| && 0 <= j < |sockets| ==> cores[i] != sockets[j]
  }

  /** The first loop: every core's basic counters, and its package C-states into its
      socket. */
  method ReadCores(snap: Snapshot, cores: seq<CounterState>, sockets: seq<CounterState>)
    requires WellFormed(snap) && TwoVectors(cores, sockets)
    requires |cores| == |snap.cores| && |sockets| == |snap.mcReads|
    requires forall i :: 0 <= i < |cores| ==> cores[i].Value() == Zero()
    requires forall s :: 0 <= s < |sockets| ==> sockets[s].Value() == Zero()
    modifies cores, sockets`uncore
    ensures forall i :: 0 <= i < |cores| ==>
      cores[i].Value() == Counts(snap.cores[i], NoUncore()) && cores[i].thermalHeadroom == snap.headroom[i]
    ensures forall s :: 0 <= s < |sockets| ==>
      sockets[s].Value() == Counts(NoBasic(), CoresOn(snap, |cores|, s).uncore)
  {
    for core := 0 to |cores|
      invariant forall i :: 0 <= i < core ==>
        cores[i].Value() == Counts(snap.cores[i], NoUncore()) && cores[i].thermalHeadroom == snap.headroom[i]
      invariant forall i :: core <= i < |cores| ==> cores[i].Value() == Zero()
      invariant forall s :: 0 <= s < |sockets| ==>
        sockets[s].Value() == Counts(NoBasic(), CoresOn(snap, core, s).uncore)
    {
      cores[core].ReadBasic(snap, core);
      BasicLaws(NoBasic(), snap.cores[core], NoBasic());
      sockets[snap.socketOf[core]].ReadPackage(snap, core);
    }
  }

  /** The second loop: every socket's own counters. */
  method ReadSockets(snap: Snapshot, sockets: seq<CounterState>)
    requires WellFormed(snap) && Apart(sockets) && |sockets| == |snap.mcReads|
    requires forall s :: 0 <= s < |sockets| ==>
      sockets[s].Value() == Counts(NoBasic(), CoresOn(snap, |snap.cores|, s).uncore)
    modifies sockets`uncore, sockets`thermalHeadroom
    ensures forall s :: 0 <= s < |sockets| ==>
      && sockets[s].Value() == Counts(NoBasic(), SocketTotal(snap, s).uncore)
      && sockets[s].thermalHeadroom == snap.packageHeadroom[s]
  {
    for s := 0 to |sockets|
      invariant forall t :: 0 <= t < s ==>
        && sockets[t].Value() == Counts(NoBasic(), SocketTotal(snap, t).uncore)
        && sockets[t].thermalHeadroom == snap.packageHeadroom[t]
      invariant forall t :: s <= t < |sockets| ==>
        sockets[t].Value() == Counts(NoBasic(), CoresOn(snap, |snap.cores|, t).uncore)
    {
      sockets[s].ReadSocket(snap, s);
      sockets[s].thermalHeadroom := snap.packageHeadroom[s];
    }
  }

  /** The third loop: core counters into their sockets. */
  method AccumulateCores(snap: Snapshot, cores: seq<CounterState>, sockets: seq<CounterState>)
    requires WellFormed(snap) && TwoVectors(cores, sockets)
    requires |cores| == |snap.cores| && |sockets| == |snap.mcReads|
    requires forall i :: 0 <= i < |cores| ==> cores[i].basic == snap.cores[i]
    requires forall s :: 0 <= s < |sockets| ==> sockets[s].Value() == Counts(NoBasic(), SocketTotal(snap, s).uncore)
    modifies sockets`basic
    ensures forall s :: 0 <= s < |sockets| ==> sockets[s].Value() == SocketTotal(snap, s)
  {
    for core := 0 to |cores|
      invariant forall s :: 0 <= s < |sockets| ==>
        sockets[s].Value() == Counts(CoresOn(snap, core, s).basic, SocketTotal(snap, s).uncore)
    {
      sockets[snap.socketOf[core]].AddBasic(cores[core]);
    }
    forall s | 0 <= s < |sockets| ensures sockets[s].Value() == SocketTotal(snap, s) {
      BasicLaws(CoresOn(snap, |cores|, s).basic, NoBasic(), NoBasic());
    }
  }

  /** The last loop: the sockets into the system. */
  method AccumulateSockets(snap: Snapshot, sockets: seq<CounterState>, system: CounterState)
    requires WellFormed(snap) && |sockets| == |snap.mcReads| && system !in sockets && system.Value() == Zero()
    requires forall s :: 0 <= s < |sockets| ==> sockets[s].Value() == SocketTotal(snap, s)
    modifies system`basic, system`uncore
    ensures system.Value() == SocketTotals(snap, |sockets|)
  {
    for s := 0 to |sockets|
      invariant system.Value() == SocketTotals(snap, s)
    {
      system.AccumulateSocketState(sockets[s]);
    }
  }

  /** getAllCounterStates, without the QPI counters: the system's state equals the one
      getSystemCounterState reads from the same snapshot, and each socket's the one
      getSocketCounterState reads. */
  method GetAllCounterStates(snap: Snapshot)
    returns (system: CounterState, sockets: seq<CounterState>, cores: seq<CounterState>)
    requires WellFormed(snap)
    ensures |cores| == |snap.cores| && |sockets| == |snap.mcReads|
    ensures system.Value() == SystemTotal(snap) && system.thermalHeadroom == INVALID_THERMAL_HEADROOM
    ensures forall s :: 0 <= s < |sockets| ==>
      sockets[s].Value() == SocketTotal(snap, s) && sockets[s].thermalHeadroom == snap.packageHeadroom[s]
    ensures forall i :: 0 <= i < |cores| ==>
      cores[i].Value() == Counts(snap.cores[i], NoUncore()) && cores[i].thermalHeadroom == snap.headroom[i]
  {
    system := new CounterState();
    sockets := Resize(|snap.mcReads|);
    cores := Resize(|snap.cores|);
    ReadCores(snap, cores, sockets);
    ReadSockets(snap, sockets);
    AccumulateCores(snap, cores, sockets);
    AccumulateSockets(snap, sockets, system);
    HierarchicalIsFlat(snap);
  }
}
