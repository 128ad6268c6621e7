/** Who programs and who cleans the shared registers: processes program and clean up
    under a system-wide lock and count themselves in a semaphore. */
module PmuProtocol {
  import opened PmuRegisters

  /** The registers and the semaphore that all processes share. */
  datatype Shared = Shared(cores: seq<CoreRegs>, instances: nat)

  datatype ErrorCode = Success | PMUBusy

  /** `program` in the default mode, with the lock held. */
  ghost function ProgramShared(s: Shared, numMax: nat, m: Family): (Shared, ErrorCode)
    requires Fits(s.cores, numMax, m)
  {
    if s.instances + 1 > 1 then (s.(instances := s.instances + 1), Success)
    else if InUse(s.cores, numMax) then (s, PMUBusy)
    else (Shared(AllProgrammed(s.cores, numMax, m), s.instances + 1), Success)
  }

  /** `cleanup`, with the lock held; a semaphore at zero is left alone. */
  ghost function CleanupShared(s: Shared, numMax: nat, m: Family): Shared
    requires Fits(s.cores, numMax, m)
  {
    if s.instances == 0 then s
    else if s.instances - 1 == 0 then Shared(AllCleaned(s.cores, numMax, m), 0)
    else s.(instances := s.instances - 1)
  }

  // ---------- Runs of any number of processes ----------

  type Process = nat

  datatype Action = Program(p: Process) | Cleanup(p: Process) | Count

  /** owed: for every process its successful programs not yet cleaned up. */
  datatype State = State(shared: Shared, owed: multiset<Process>)

  /** The hardware advances counters and touches no control register. */
  ghost predicate Counted(a: seq<CoreRegs>, b: seq<CoreRegs>)
  {
    |a| == |b| && forall i :: 0 <= i < |a| ==> a[i].config == b[i].config && |a[i].pmc| == |b[i].pmc|
  }

  /** One lock-serialised step. A process cleans up only what it has programmed. */
  ghost predicate Next(s: State, a: Action, s': State, numMax: nat, m: Family)
    requires Fits(s.shared.cores, numMax, m)
  {
    match a
    case Program(p) =>
      var (shared, code) := ProgramShared(s.shared, numMax, m);
      s' == State(shared, if code == Success then s.owed + multiset{p} else s.owed)
    case Cleanup(p) =>
      p in s.owed && s' == State(CleanupShared(s.shared, numMax, m), s.owed - multiset{p})
    case Count =>
      Counted(s.shared.cores, s'.shared.cores) && s' == s.(shared := s.shared.(cores := s'.shared.cores))
  }

  datatype Run = Run(states: seq<State>, actions: seq<Action>)

  ghost predicate IsRun(r: Run, numMax: nat, m: Family)
  {
    && |r.states| == |r.actions| + 1
    && r.states[0].shared.instances == 0 && r.states[0].owed == multiset{}
    && (forall i :: 0 <= i < |r.states| ==> Fits(r.states[i].shared.cores, numMax, m))
    && (forall i :: 0 <= i < |r.actions| ==> Next(r.states[i], r.actions[i], r.states[i + 1], numMax, m))
  }

  // ---------- The semaphore counts what is owed ----------

  lemma {:induction false} SemaphoreCounts(r: Run, i: nat, numMax: nat, m: Family)
    requires IsRun(r, numMax, m) && i < |r.states|
    ensures r.states[i].shared.instances == |r.states[i].owed|
  {
    if i > 0 {
      SemaphoreCounts(r, i - 1, numMax, m);
      assert Next(r.states[i - 1], r.actions[i - 1], r.states[i], numMax, m);
      SemaphoreStep(r.states[i - 1], r.actions[i - 1], r.states[i], numMax, m);
    }
  }

  lemma SemaphoreStep(s: State, a: Action, s': State, numMax: nat, m: Family)
    requires Fits(s.shared.cores, numMax, m) && Next(s, a, s', numMax, m)
    requires s.shared.instances == |s.owed|
    ensures s'.shared.instances == |s'.owed|
  {
    if a.Cleanup? {
      assert s.owed == (s.owed - multiset{a.p}) + multiset{a.p};
    }
  }

  ghost function Configs(cores: seq<CoreRegs>): (c: seq<Config>)
    ensures |c| == |cores| && forall i :: 0 <= i < |c| ==> c[i] == cores[i].config
  {
    seq(|cores|, i requires 0 <= i < |cores| => cores[i].config)
  }

  /** A step writes control registers only if it takes the semaphore from or to zero:
      the first instance programs them, the last one to leave cleans them. */
  lemma OnlyFirstAndLastWrite(s: State, a: Action, s': State, numMax: nat, m: Family)
    requires Fits(s.shared.cores, numMax, m) && Next(s, a, s', numMax, m)
    requires s.shared.instances == |s.owed|
    ensures s.shared.instances > 0 && s'.shared.instances > 0 ==>
      Configs(s'.shared.cores) == Configs(s.shared.cores)
    ensures s.shared.instances == 0 && s'.shared.instances > 0 ==>
      a.Program? && !InUse(s.shared.cores, numMax) && s'.shared.cores == AllProgrammed(s.shared.cores, numMax, m)
    ensures s.shared.instances > 0 && s'.shared.instances == 0 ==>
      a.Cleanup? && s.owed == multiset{a.p} && s'.shared.cores == AllCleaned(s.shared.cores, numMax, m)
    ensures s.shared.instances == 0 && s'.shared.instances == 0 ==>
      Configs(s'.shared.cores) == Configs(s.shared.cores)
  {
    if a.Cleanup? && s'.shared.instances == 0 {
      assert |s.owed - multiset{a.p}| == 0;
      assert s.owed == (s.owed - multiset{a.p}) + multiset{a.p};
    }
  }

  /** While the semaphore stays positive, every core's control registers stay as they
      are, whatever the processes do. */
  lemma StableWhileHeld(r: Run, i: nat, j: nat, numMax: nat, m: Family)
    requires IsRun(r, numMax, m) && i <= j < |r.states|
    requires forall k :: i <= k <= j ==> r.states[k].shared.instances > 0
    ensures Configs(r.states[j].shared.cores) == Configs(r.states[i].shared.cores)
  {
    var c := seq(|r.states|, k requires 0 <= k < |r.states| => Configs(r.states[k].shared.cores));
    forall k | i <= k < j ensures c[k + 1] == c[k] {
      StableStep(r, k, numMax, m);
    }
    ChainIsConstant(c, i, j);
  }

  lemma {:induction false} ChainIsConstant<T>(c: seq<T>, i: nat, j: nat)
    requires i <= j < |c| && forall k :: i <= k < j ==> c[k + 1] == c[k]
    ensures c[j] == c[i]
    decreases j - i
  {
    if i < j {
      ChainIsConstant(c, i, j - 1);
    }
  }

  lemma StableStep(r: Run, k: nat, numMax: nat, m: Family)
    requires IsRun(r, numMax, m) && k + 1 < |r.states|
    requires r.states[k].shared.instances > 0 && r.states[k + 1].shared.instances > 0
    ensures Configs(r.states[k + 1].shared.cores) == Configs(r.states[k].shared.cores)
  {
    SemaphoreCounts(r, k, numMax, m);
    assert Next(r.states[k], r.actions[k], r.states[k + 1], numMax, m);
    OnlyFirstAndLastWrite(r.states[k], r.actions[k], r.states[k + 1], numMax, m);
  }

  /** Whenever the semaphore is positive, the control registers are as one program call
      wrote them, when it found the machine free and the semaphore at zero; the
      semaphore has been positive ever since. */
  lemma {:induction false} HeldIsAsProgrammed(r: Run, j: nat, numMax: nat, m: Family) returns (i: nat)
    requires IsRun(r, numMax, m) && j < |r.states| && r.states[j].shared.instances > 0
    ensures i < j && r.actions[i].Program? && r.states[i].shared.instances == 0
    ensures !InUse(r.states[i].shared.cores, numMax)
    ensures forall k :: i < k <= j ==> r.states[k].shared.instances > 0
    ensures Configs(r.states[j].shared.cores) == Configs(AllProgrammed(r.states[i].shared.cores, numMax, m))
  {
    i := j - 1;
    SemaphoreCounts(r, i, numMax, m);
    assert Next(r.states[i], r.actions[i], r.states[j], numMax, m);
    OnlyFirstAndLastWrite(r.states[i], r.actions[i], r.states[j], numMax, m);
    if r.states[i].shared.instances > 0 {
      i := HeldIsAsProgrammed(r, j - 1, numMax, m);
    }
  }

  // ---------- Busy or not is decided before the first program ----------

  /** Free registers, or registers as some instance programmed free ones. */
  ghost predicate Ours(s: Shared, numMax: nat, m: Family)
    requires Fits(s.cores, numMax, m)
  {
    if s.instances == 0 then !InUse(s.cores, numMax)
    else forall i :: 0 <= i < |s.cores| ==>
      var f := s.cores[i].config.fixedCtrl; f.ctr0 == f.ctr1 == f.ctr2 == COUNTING
  }

  lemma OursIsKept(s: State, a: Action, s': State, numMax: nat, m: Family)
    requires Fits(s.shared.cores, numMax, m) && Fits(s'.shared.cores, numMax, m) && Next(s, a, s', numMax, m)
    requires Ours(s.shared, numMax, m)
    ensures Ours(s'.shared, numMax, m)
  {
    if s'.shared.instances == 0 {
      forall i | 0 <= i < |s'.shared.cores| ensures !CoreInUse(s'.shared.cores[i].config, numMax) {
        if s.shared.instances == 0 {
          assert !CoreInUse(s.shared.cores[i].config, numMax);
        }
      }
    }
  }

  lemma BusyIsKept(s: State, a: Action, s': State, numMax: nat, m: Family)
    requires Fits(s.shared.cores, numMax, m) && Fits(s'.shared.cores, numMax, m) && Next(s, a, s', numMax, m)
    requires s.shared.instances == 0 && s.owed == multiset{} && InUse(s.shared.cores, numMax)
    ensures s'.shared.instances == 0 && s'.owed == multiset{} && InUse(s'.shared.cores, numMax)
  {
    var i :| 0 <= i < |s.shared.cores| && CoreInUse(s.shared.cores[i].config, numMax);
    assert CoreInUse(s'.shared.cores[i].config, numMax);
  }

  lemma {:induction false} StaysAsFound(r: Run, i: nat, numMax: nat, m: Family)
    requires IsRun(r, numMax, m) && i < |r.states|
    ensures if InUse(r.states[0].shared.cores, numMax) then
              && r.states[i].shared.instances == 0 && r.states[i].owed == multiset{}
              && InUse(r.states[i].shared.cores, numMax)
            else Ours(r.states[i].shared, numMax, m)
  {
    if i > 0 {
      StaysAsFound(r, i - 1, numMax, m);
      assert Next(r.states[i - 1], r.actions[i - 1], r.states[i], numMax, m);
      if InUse(r.states[0].shared.cores, numMax) {
        BusyIsKept(r.states[i - 1], r.actions[i - 1], r.states[i], numMax, m);
      } else {
        OursIsKept(r.states[i - 1], r.actions[i - 1], r.states[i], numMax, m);
      }
    }
  }

  /** At any point of any run a program reports PMUBusy exactly when the machine was
      already in use before the first process came: re-programming is never refused. */
  lemma BusyIffFoundBusy(r: Run, i: nat, numMax: nat, m: Family)
    requires IsRun(r, numMax, m) && i < |r.states|
    ensures ProgramShared(r.states[i].shared, numMax, m).1 == PMUBusy <==> InUse(r.states[0].shared.cores, numMax)
  {
    StaysAsFound(r, i, numMax, m);
  }

  /** An unpaired cleanup keeps semaphore and debts in step only when there is nothing
      left to count; otherwise it takes another instance's place. */
  lemma UnpairedCleanup(s: State, numMax: nat, m: Family)
    requires Fits(s.shared.cores, numMax, m) && s.shared.instances == |s.owed|
    ensures CleanupShared(s.shared, numMax, m).instances == |s.owed| <==> s.shared.instances == 0
  {
  }

  /** Two instances, one cleanup too many: the second one still runs when the semaphore
      is at zero. */
  lemma UnpairedCleanupExample(numMax: nat, m: Family)
    ensures CleanupShared(CleanupShared(Shared([], 2), numMax, m), numMax, m).instances == 0
  {
  }
}
