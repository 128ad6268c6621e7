/** Reading the counters of a machine: flat over all cores for the system, per
    socket, and for everything at once from cores to sockets to the system. */
module Aggregation {
  import opened Counters
  import opened Words

  const INVALID_THERMAL_HEADROOM: int := -0x8000_0000

  /** What the hardware returns at one instant, counters already cut to their width:
      per core its basic counters, thermal headroom and package C-states; per socket
      its memory-controller and energy counters and its thermal headroom. */
  datatype Snapshot = Snapshot(socketOf: seq<nat>, cores: seq<Basic>, headroom: seq<int>, packages: seq<Residency>,
                               mcReads: seq<u64>, writes: seq<u64>, packageEnergy: seq<u64>, dramEnergy: seq<u64>,
                               packageHeadroom: seq<int>)

  ghost predicate WellFormed(snap: Snapshot)
  {
    && |snap.cores| == |snap.headroom| == |snap.packages| == |snap.socketOf|
    && |snap.mcReads| == |snap.writes| == |snap.packageEnergy| == |snap.dramEnergy| == |snap.packageHeadroom|
    && forall j :: 0 <= j < |snap.socketOf| ==> snap.socketOf[j] < |snap.mcReads|
  }

  // ---------- Totals ----------

  function CoreCounts(snap: Snapshot, j: nat): Counts
    requires WellFormed(snap) && j < |snap.cores|
  {
    Counts(snap.cores[j], PackageCounts(snap.packages[j]))
  }

  function PackageCounts(r: Residency): Uncore
  {
    Uncore(0, 0, 0, 0, r)
  }

  /** What a socket counts beside its cores. */
  function SocketCounts(snap: Snapshot, s: nat): Counts
    requires WellFormed(snap) && s < |snap.mcReads|
  {
    Counts(NoBasic(), Uncore(snap.writes[s], snap.mcReads[s], snap.packageEnergy[s], snap.dramEnergy[s], NoResidency()))
  }

  /** The total of the first n cores. */
  function AllCores(snap: Snapshot, n: nat): Counts
    requires WellFormed(snap) && n <= |snap.cores|
  {
    if n == 0 then Zero() else AllCores(snap, n - 1).Plus(CoreCounts(snap, n - 1))
  }

  /** The total of those of the first n cores that are on socket s. */
  function CoresOn(snap: Snapshot, n: nat, s: nat): Counts
    requires WellFormed(snap) && n <= |snap.cores|
  {
    if n == 0 then Zero()
    else if snap.socketOf[n - 1] == s then CoresOn(snap, n - 1, s).Plus(CoreCounts(snap, n - 1))
    else CoresOn(snap, n - 1, s)
  }

  function SocketTotal(snap: Snapshot, s: nat): Counts
    requires WellFormed(snap) && s < |snap.mcReads|
  {
    CoresOn(snap, |snap.cores|, s).Plus(SocketCounts(snap, s))
  }

  /** The totals of the first m sockets, added up. */
  function SocketTotals(snap: Snapshot, m: nat): Counts
    requires WellFormed(snap) && m <= |snap.mcReads|
  {
    if m == 0 then Zero() else SocketTotals(snap, m - 1).Plus(SocketTotal(snap, m - 1))
  }

  function AllSocketCounts(snap: Snapshot, m: nat): Counts
    requires WellFormed(snap) && m <= |snap.mcReads|
  {
    if m == 0 then Zero() else AllSocketCounts(snap, m - 1).Plus(SocketCounts(snap, m - 1))
  }

  /** The flat total of the system. */
  function SystemTotal(snap: Snapshot): Counts
    requires WellFormed(snap)
  {
    AllCores(snap, |snap.cores|).Plus(AllSocketCounts(snap, |snap.mcReads|))
  }

  // ---------- Hierarchical and flat totals agree ----------

  /** The cores' totals of the first m sockets over the first n cores. */
  function CoresOnSockets(snap: Snapshot, n: nat, m: nat): Counts
    requires WellFormed(snap) && n <= |snap.cores|
  {
    if m == 0 then Zero() else CoresOnSockets(snap, n, m - 1).Plus(CoresOn(snap, n, m - 1))
  }

  lemma Swap(a: Counts, b: Counts, c: Counts)
    ensures a.Plus(b).Plus(c) == a.Plus(c).Plus(b) && a.Plus(b.Plus(c)) == a.Plus(b).Plus(c)
    ensures a.Plus(Zero()) == a && Zero().Plus(a) == a
  {
    PlusLaws(a, b, c);
    PlusLaws(a, c, b);
    PlusLaws(b, c, a);
    PlusLaws(a, Zero(), a);
  }

  lemma Exchange(a: Counts, b: Counts, c: Counts, d: Counts)
    ensures a.Plus(b).Plus(c.Plus(d)) == a.Plus(c).Plus(b.Plus(d))
  {
    PlusLaws(a.Plus(b), c, d);
    PlusLaws(a.Plus(c), b, d);
    Swap(a, b, c);
  }

  /** One more core adds its counts to the sum over the sockets once, if its socket
      is among them. */
  lemma {:induction false} OneMoreCore(snap: Snapshot, n: nat, m: nat)
    requires WellFormed(snap) && n < |snap.cores|
    ensures CoresOnSockets(snap, n + 1, m)
         == if snap.socketOf[n] < m then CoresOnSockets(snap, n, m).Plus(CoreCounts(snap, n))
            else CoresOnSockets(snap, n, m)
  {
    if m > 0 {
      OneMoreCore(snap, n, m - 1);
      Swap(CoresOnSockets(snap, n, m - 1), CoresOn(snap, n, m - 1), CoreCounts(snap, n));
    }
  }

  lemma {:induction false} NoCores(snap: Snapshot, m: nat)
    requires WellFormed(snap)
    ensures CoresOnSockets(snap, 0, m) == Zero()
  {
    if m > 0 {
      NoCores(snap, m - 1);
      Swap(Zero(), Zero(), Zero());
    }
  }

  lemma {:induction false} CoresByRows(snap: Snapshot, n: nat)
    requires WellFormed(snap) && n <= |snap.cores|
    ensures CoresOnSockets(snap, n, |snap.mcReads|) == AllCores(snap, n)
  {
    if n == 0 {
      NoCores(snap, |snap.mcReads|);
    } else {
      CoresByRows(snap, n - 1);
      OneMoreCore(snap, n - 1, |snap.mcReads|);
    }
  }

  lemma {:induction false} TotalsSplit(snap: Snapshot, m: nat)
    requires WellFormed(snap) && m <= |snap.mcReads|
    ensures SocketTotals(snap, m) == CoresOnSockets(snap, |snap.cores|, m).Plus(AllSocketCounts(snap, m))
  {
    if m == 0 {
      Swap(Zero(), Zero(), Zero());
    } else {
      TotalsSplit(snap, m - 1);
      Exchange(CoresOnSockets(snap, |snap.cores|, m - 1), AllSocketCounts(snap, m - 1),
               CoresOn(snap, |snap.cores|, m - 1), SocketCounts(snap, m - 1));
    }
  }

  /** For every topology the sockets' totals add up to the flat total, field by field
      modulo 2^64. */
  lemma HierarchicalIsFlat(snap: Snapshot)
    requires WellFormed(snap)
    ensures SocketTotals(snap, |snap.mcReads|) == SystemTotal(snap)
  {
    TotalsSplit(snap, |snap.mcReads|);
    CoresByRows(snap, |snap.cores|);
  }

  // ---------- Differences add up ----------

  /** The getters that look at the basic counters only. */
  predicate OfCores(g: Getter)
  {
    !g.BytesReadFromMC? && !g.BytesWrittenToMC? && !g.ConsumedEnergy? && !g.DRAMConsumedEnergy?
  }

  function CoreDifferences(g: Getter, atom: bool, b: Snapshot, a: Snapshot, n: nat): u64
    requires WellFormed(b) && WellFormed(a) && n <= |b.cores| == |a.cores|
  {
    if n == 0 then 0
    else Add(CoreDifferences(g, atom, b, a, n - 1), Get(g, atom, CoreCounts(b, n - 1), CoreCounts(a, n - 1)))
  }

  function SocketDifferences(g: Getter, atom: bool, b: Snapshot, a: Snapshot, m: nat): u64
    requires WellFormed(b) && WellFormed(a) && m <= |b.mcReads| == |a.mcReads|
  {
    if m == 0 then 0
    else Add(SocketDifferences(g, atom, b, a, m - 1), Get(g, atom, SocketTotal(b, m - 1), SocketTotal(a, m - 1)))
  }

  lemma GetOfNothing(g: Getter, atom: bool)
    ensures Get(g, atom, Zero(), Zero()) == 0
  {
  }

  lemma {:induction false} CoresDiffer(g: Getter, atom: bool, b: Snapshot, a: Snapshot, n: nat)
    requires WellFormed(b) && WellFormed(a) && n <= |b.cores| == |a.cores|
    ensures Get(g, atom, AllCores(b, n), AllCores(a, n)) == CoreDifferences(g, atom, b, a, n)
  {
    if n == 0 {
      GetOfNothing(g, atom);
    } else {
      CoresDiffer(g, atom, b, a, n - 1);
      GetOfPlus(g, atom, AllCores(b, n - 1), AllCores(a, n - 1), CoreCounts(b, n - 1), CoreCounts(a, n - 1));
    }
  }

  lemma {:induction false} SocketsDiffer(g: Getter, atom: bool, b: Snapshot, a: Snapshot, m: nat)
    requires WellFormed(b) && WellFormed(a) && m <= |b.mcReads| == |a.mcReads|
    ensures Get(g, atom, SocketTotals(b, m), SocketTotals(a, m)) == SocketDifferences(g, atom, b, a, m)
  {
    if m == 0 {
      GetOfNothing(g, atom);
    } else {
      SocketsDiffer(g, atom, b, a, m - 1);
      GetOfPlus(g, atom, SocketTotals(b, m - 1), SocketTotals(a, m - 1), SocketTotal(b, m - 1), SocketTotal(a, m - 1));
    }
  }

  /** Getters of cores see no difference between counters that cores alone fill. */
  lemma NoBasicNoDifference(g: Getter, atom: bool, b: Uncore, a: Uncore)
    requires OfCores(g)
    ensures Get(g, atom, Counts(NoBasic(), b), Counts(NoBasic(), a)) == 0
  {
  }

  lemma {:induction false} SocketPartsAreEqual(g: Getter, atom: bool, b: Snapshot, a: Snapshot, m: nat)
    requires WellFormed(b) && WellFormed(a) && m <= |b.mcReads| == |a.mcReads| && OfCores(g)
    ensures Get(g, atom, AllSocketCounts(b, m), AllSocketCounts(a, m)) == 0
  {
    if m == 0 {
      NoBasicNoDifference(g, atom, NoUncore(), NoUncore());
    } else {
      SocketPartsAreEqual(g, atom, b, a, m - 1);
      var sb, sa := SocketCounts(b, m - 1), SocketCounts(a, m - 1);
      NoBasicNoDifference(g, atom, sb.uncore, sa.uncore);
      GetOfPlus(g, atom, AllSocketCounts(b, m - 1), AllSocketCounts(a, m - 1), sb, sa);
    }
  }

  /** What the system shows between two instants is what its sockets show, added up,
      and for the getters of cores what its cores show. */
  lemma DifferencesAddUp(g: Getter, atom: bool, b: Snapshot, a: Snapshot)
    requires WellFormed(b) && WellFormed(a) && |b.cores| == |a.cores| && |b.mcReads| == |a.mcReads|
    ensures Get(g, atom, SystemTotal(b), SystemTotal(a)) == SocketDifferences(g, atom, b, a, |b.mcReads|)
    ensures OfCores(g) ==>
      Get(g, atom, SystemTotal(b), SystemTotal(a)) == CoreDifferences(g, atom, b, a, |b.cores|)
  {
    HierarchicalIsFlat(b);
    HierarchicalIsFlat(a);
    SocketsDiffer(g, atom, b, a, |b.mcReads|);
    if OfCores(g) {
      CoresDiffer(g, atom, b, a, |b.cores|);
      SocketPartsAreEqual(g, atom, b, a, |b.mcReads|);
      GetOfPlus(g, atom, AllCores(b, |b.cores|), AllCores(a, |a.cores|),
                AllSocketCounts(b, |b.mcReads|), AllSocketCounts(a, |a.mcReads|));
    }
  }

  // ---------- The totals, counter by counter ----------

  type CState = i: nat | i <= MAX_C_STATE

  /** A counter of a state. */
  datatype Field =
    | InstRetired | ClkThread | ClkRef | EventCount(nr: EventNr) | TimeStamp | CoreResidency(state: CState)
    | McReads | McWrites | PackageEnergy | DramEnergy | PackageResidency(state: CState)

  function Read(f: Field, c: Counts): u64
  {
    match f
    case InstRetired => c.basic.instRetiredAny
    case ClkThread => c.basic.cpuClkUnhaltedThread
    case ClkRef => c.basic.cpuClkUnhaltedRef
    case EventCount(nr) =>
      if nr == 0 then c.basic.event0 else if nr == 1 then c.basic.event1
      else if nr == 2 then c.basic.event2 else c.basic.event3
    case TimeStamp => c.basic.invariantTSC
    case CoreResidency(i) => c.basic.cStateResidency[i]
    case McReads => c.uncore.mcNormalReads
    case McWrites => c.uncore.mcFullWrites
    case PackageEnergy => c.uncore.packageEnergy
    case DramEnergy => c.uncore.dramEnergy
    case PackageResidency(i) => c.uncore.cStateResidency[i]
  }

  /** What the hardware shows for core j. */
  function CoreReading(snap: Snapshot, f: Field, j: nat): u64
    requires WellFormed(snap) && j < |snap.cores|
  {
    match f
    case PackageResidency(i) => snap.packages[j][i]
    case McReads => 0
    case McWrites => 0
    case PackageEnergy => 0
    case DramEnergy => 0
    case _ => Read(f, Counts(snap.cores[j], NoUncore()))
  }

  /** What the hardware shows for socket s beside its cores. */
  function SocketReading(snap: Snapshot, f: Field, s: nat): u64
    requires WellFormed(snap) && s < |snap.mcReads|
  {
    match f
    case McReads => snap.mcReads[s]
    case McWrites => snap.writes[s]
    case PackageEnergy => snap.packageEnergy[s]
    case DramEnergy => snap.dramEnergy[s]
    case _ => 0
  }

  /** The readings of the first n cores that are on socket s, added up without a width. */
  function CoreSumOn(snap: Snapshot, f: Field, n: nat, s: nat): nat
    requires WellFormed(snap) && n <= |snap.cores|
  {
    if n == 0 then 0
    else CoreSumOn(snap, f, n - 1, s) + if snap.socketOf[n - 1] == s then CoreReading(snap, f, n - 1) else 0
  }

  function CoreSum(snap: Snapshot, f: Field, n: nat): nat
    requires WellFormed(snap) && n <= |snap.cores|
  {
    if n == 0 then 0 else CoreSum(snap, f, n - 1) + CoreReading(snap, f, n - 1)
  }

  function SocketSum(snap: Snapshot, f: Field, m: nat): nat
    requires WellFormed(snap) && m <= |snap.mcReads|
  {
    if m == 0 then 0 else SocketSum(snap, f, m - 1) + SocketReading(snap, f, m - 1)
  }

  lemma ReadPlus(f: Field, a: Counts, b: Counts)
    ensures Read(f, a.Plus(b)) == Add(Read(f, a), Read(f, b))
  {
  }

  lemma ReadZero(f: Field)
    ensures Read(f, Zero()) == 0
  {
  }

  lemma ReadCore(snap: Snapshot, f: Field, j: nat)
    requires WellFormed(snap) && j < |snap.cores|
    ensures Read(f, CoreCounts(snap, j)) == CoreReading(snap, f, j)
  {
  }

  lemma ReadSocketCounts(snap: Snapshot, f: Field, s: nat)
    requires WellFormed(snap) && s < |snap.mcReads|
    ensures Read(f, SocketCounts(snap, s)) == SocketReading(snap, f, s)
  {
  }

  lemma AddToSum(sum: nat, x: u64)
    ensures Add(sum % U64, x) == (sum + x) % U64
  {
  }

  lemma AddSums(a: nat, b: nat)
    ensures Add(a % U64, b % U64) == (a + b) % U64
  {
  }

  /** A part more. */
  lemma ReadPart(f: Field, past: Counts, part: Counts, sum: nat, x: u64)
    requires Read(f, past) == sum % U64 && Read(f, part) == x
    ensures Read(f, past.Plus(part)) == (sum + x) % U64
  {
    ReadPlus(f, past, part);
    AddToSum(sum, x);
  }

  lemma {:induction false} CoresOnReads(snap: Snapshot, f: Field, n: nat, s: nat)
    requires WellFormed(snap) && n <= |snap.cores|
    ensures Read(f, CoresOn(snap, n, s)) == CoreSumOn(snap, f, n, s) % U64
  {
    if n == 0 {
      ReadZero(f);
    } else {
      CoresOnReads(snap, f, n - 1, s);
      if snap.socketOf[n - 1] == s {
        ReadCore(snap, f, n - 1);
        ReadPart(f, CoresOn(snap, n - 1, s), CoreCounts(snap, n - 1),
                 CoreSumOn(snap, f, n - 1, s), CoreReading(snap, f, n - 1));
      }
    }
  }

  lemma {:induction false} AllCoresRead(snap: Snapshot, f: Field, n: nat)
    requires WellFormed(snap) && n <= |snap.cores|
    ensures Read(f, AllCores(snap, n)) == CoreSum(snap, f, n) % U64
  {
    if n == 0 {
      ReadZero(f);
    } else {
      AllCoresRead(snap, f, n - 1);
      ReadCore(snap, f, n - 1);
      ReadPart(f, AllCores(snap, n - 1), CoreCounts(snap, n - 1), CoreSum(snap, f, n - 1), CoreReading(snap, f, n - 1));
    }
  }

  lemma {:induction false} AllSocketsRead(snap: Snapshot, f: Field, m: nat)
    requires WellFormed(snap) && m <= |snap.mcReads|
    ensures Read(f, AllSocketCounts(snap, m)) == SocketSum(snap, f, m) % U64
  {
    if m == 0 {
      ReadZero(f);
    } else {
      AllSocketsRead(snap, f, m - 1);
      ReadSocketCounts(snap, f, m - 1);
      ReadPart(f, AllSocketCounts(snap, m - 1), SocketCounts(snap, m - 1),
               SocketSum(snap, f, m - 1), SocketReading(snap, f, m - 1));
    }
  }

  /** Every counter of a socket's total is the sum of the readings of the cores on the
      socket and of the socket's own, modulo 2^64. */
  lemma SocketTotalReads(snap: Snapshot, f: Field, s: nat)
    requires WellFormed(snap) && s < |snap.mcReads|
    ensures Read(f, SocketTotal(snap, s))
         == (CoreSumOn(snap, f, |snap.cores|, s) + SocketReading(snap, f, s)) % U64
  {
    CoresOnReads(snap, f, |snap.cores|, s);
    ReadSocketCounts(snap, f, s);
    ReadPart(f, CoresOn(snap, |snap.cores|, s), SocketCounts(snap, s),
             CoreSumOn(snap, f, |snap.cores|, s), SocketReading(snap, f, s));
  }

  /** And every counter of the system's is the sum of all cores' and all sockets'. */
  lemma SystemTotalReads(snap: Snapshot, f: Field)
    requires WellFormed(snap)
    ensures Read(f, SystemTotal(snap))
         == (CoreSum(snap, f, |snap.cores|) + SocketSum(snap, f, |snap.mcReads|)) % U64
  {
    AllCoresRead(snap, f, |snap.cores|);
    AllSocketsRead(snap, f, |snap.mcReads|);
    ReadPlus(f, AllCores(snap, |snap.cores|), AllSocketCounts(snap, |snap.mcReads|));
    AddSums(CoreSum(snap, f, |snap.cores|), SocketSum(snap, f, |snap.mcReads|));
  }

  // ---------- One reading changes ----------

  /** Two snapshots of one machine that differ at most in the counters of socket s. */
  ghost predicate DifferAt(snap: Snapshot, other: Snapshot, s: nat)
  {
    && WellFormed(snap) && WellFormed(other) && s < |snap.mcReads| == |other.mcReads|
    && snap.socketOf == other.socketOf && snap.cores == other.cores && snap.packages == other.packages
    && forall f: Field, t: nat :: t < |snap.mcReads| && t != s ==>
         SocketReading(snap, f, t) == SocketReading(other, f, t)
  }

  lemma {:induction false} SameCores(snap: Snapshot, other: Snapshot, f: Field, n: nat, t: nat)
    requires WellFormed(snap) && WellFormed(other) && n <= |snap.cores|
    requires snap.socketOf == other.socketOf && snap.cores == other.cores && snap.packages == other.packages
    ensures CoreSumOn(snap, f, n, t) == CoreSumOn(other, f, n, t) && CoreSum(snap, f, n) == CoreSum(other, f, n)
  {
    if n > 0 {
      SameCores(snap, other, f, n - 1, t);
    }
  }

  lemma {:induction false} SumsDiffer(snap: Snapshot, other: Snapshot, f: Field, s: nat, m: nat)
    requires DifferAt(snap, other, s) && m <= |snap.mcReads|
    ensures SocketSum(other, f, m) - SocketSum(snap, f, m)
         == if s < m then SocketReading(other, f, s) - SocketReading(snap, f, s) else 0
  {
    if m > 0 {
      SumsDiffer(snap, other, f, s, m - 1);
    }
  }

  lemma ShiftedSum(p: nat, q: nat, x: u64, y: u64)
    requires q + x == p + y
    ensures Add(q % U64, x) == Add(p % U64, y)
  {
    AddToSum(p, y);
    AddToSum(q, x);
  }

  /** A change of socket s's counters shows in the total of s by exactly that much, modulo
      2^64, and in no other socket's. */
  lemma OneSocketChanges(snap: Snapshot, other: Snapshot, f: Field, s: nat, t: nat)
    requires DifferAt(snap, other, s) && t < |snap.mcReads|
    ensures Add(Read(f, SocketTotal(other, t)), SocketReading(snap, f, t))
         == Add(Read(f, SocketTotal(snap, t)), SocketReading(other, f, t))
    ensures t != s ==> Read(f, SocketTotal(other, t)) == Read(f, SocketTotal(snap, t))
  {
    SameCores(snap, other, f, |snap.cores|, t);
    SocketTotalReads(snap, f, t);
    SocketTotalReads(other, f, t);
    var cores, x, y := CoreSumOn(snap, f, |snap.cores|, t), SocketReading(snap, f, t), SocketReading(other, f, t);
    ShiftedSum(cores + x, cores + y, x, y);
  }

  lemma SystemReading(snap: Snapshot, f: Field) returns (sum: nat)
    requires WellFormed(snap)
    ensures sum == CoreSum(snap, f, |snap.cores|) + SocketSum(snap, f, |snap.mcReads|)
    ensures Read(f, SystemTotal(snap)) == sum % U64
  {
    SystemTotalReads(snap, f);
    sum := CoreSum(snap, f, |snap.cores|) + SocketSum(snap, f, |snap.mcReads|);
  }

  /** It shows in the system's total by exactly that much. */
  lemma SystemChanges(snap: Snapshot, other: Snapshot, f: Field, s: nat)
    requires DifferAt(snap, other, s)
    ensures Add(Read(f, SystemTotal(other)), SocketReading(snap, f, s))
         == Add(Read(f, SystemTotal(snap)), SocketReading(other, f, s))
  {
    SameCores(snap, other, f, |snap.cores|, s);
    SumsDiffer(snap, other, f, s, |snap.mcReads|);
    var p := SystemReading(snap, f);
    var q := SystemReading(other, f);
    ShiftedSum(p, q, SocketReading(snap, f, s), SocketReading(other, f, s));
  }

  /** Two sockets without cores, with 5 and 9 reads. */
  lemma EachSocketItsOwn()
    ensures var z, n := [0, 0], [INVALID_THERMAL_HEADROOM, INVALID_THERMAL_HEADROOM];
            var snap := Snapshot([], [], [], [], [5, 9], z, z, z, n);
            && WellFormed(snap) && Read(McReads, SocketTotal(snap, 0)) == 5 && Read(McReads, SocketTotal(snap, 1)) == 9
            && Read(McReads, SystemTotal(snap)) == 14
  {
    var z, n := [0, 0], [INVALID_THERMAL_HEADROOM, INVALID_THERMAL_HEADROOM];
    var snap := Snapshot([], [], [], [], [5, 9], z, z, z, n);
    SocketTotalReads(snap, McReads, 0);
    SocketTotalReads(snap, McReads, 1);
    SystemTotalReads(snap, McReads);
    assert SocketSum(snap, McReads, 1) == 5;
    assert SocketSum(snap, McReads, 2) == 14;
  }
}
