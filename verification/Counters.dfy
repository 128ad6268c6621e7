/** Counter values: the 64-bit fields of the basic and the uncore counter states,
    their addition with wrap-around, and the getters that compare two states. */
module Counters {
  import opened Words

  type u64 = x: nat | x < U64

  /** 64-bit addition and subtraction wrap around. */
  function Add(a: u64, b: u64): u64
  {
    if a + b < U64 then a + b else a + b - U64
  }

  function Sub(a: u64, b: u64): u64
  {
    if a >= b then a - b else a - b + U64
  }

  /** 64-bit multiplication by 64. */
  function Times64(a: u64): u64
  {
    (a * 64) % U64
  }

  /** The highest core or package C-state. */
  const MAX_C_STATE: nat := 10

  type Residency = r: seq<u64> | |r| == MAX_C_STATE + 1 witness seq(MAX_C_STATE + 1, _ => 0)

  function NoResidency(): Residency
  {
    seq(MAX_C_STATE + 1, _ => 0)
  }

  function AddResidency(a: Residency, b: Residency): Residency
  {
    seq(MAX_C_STATE + 1, i requires 0 <= i < MAX_C_STATE + 1 => Add(a[i], b[i]))
  }

  /** The accumulative fields of BasicCounterState; the four events carry several
      names in the source. */
  datatype Basic = Basic(instRetiredAny: u64, cpuClkUnhaltedThread: u64, cpuClkUnhaltedRef: u64,
                         event0: u64, event1: u64, event2: u64, event3: u64,
                         invariantTSC: u64, cStateResidency: Residency)
  {
    function Plus(o: Basic): Basic
    {
      Basic(Add(instRetiredAny, o.instRetiredAny), Add(cpuClkUnhaltedThread, o.cpuClkUnhaltedThread),
            Add(cpuClkUnhaltedRef, o.cpuClkUnhaltedRef), Add(event0, o.event0), Add(event1, o.event1),
            Add(event2, o.event2), Add(event3, o.event3), Add(invariantTSC, o.invariantTSC),
            AddResidency(cStateResidency, o.cStateResidency))
    }
  }

  /** UncoreCounterState. */
  datatype Uncore = Uncore(mcFullWrites: u64, mcNormalReads: u64, packageEnergy: u64, dramEnergy: u64,
                           cStateResidency: Residency)
  {
    function Plus(o: Uncore): Uncore
    {
      Uncore(Add(mcFullWrites, o.mcFullWrites), Add(mcNormalReads, o.mcNormalReads),
             Add(packageEnergy, o.packageEnergy), Add(dramEnergy, o.dramEnergy),
             AddResidency(cStateResidency, o.cStateResidency))
    }
  }

  datatype Counts = Counts(basic: Basic, uncore: Uncore)
  {
    function Plus(o: Counts): Counts
    {
      Counts(basic.Plus(o.basic), uncore.Plus(o.uncore))
    }
  }

  function NoBasic(): Basic
  {
    Basic(0, 0, 0, 0, 0, 0, 0, 0, NoResidency())
  }

  function NoUncore(): Uncore
  {
    Uncore(0, 0, 0, 0, NoResidency())
  }

  function Zero(): Counts
  {
    Counts(NoBasic(), NoUncore())
  }

  // ---------- Addition with wrap-around is a commutative monoid ----------

  lemma AddLaws(a: u64, b: u64, c: u64)
    ensures Add(Add(a, b), c) == Add(a, Add(b, c)) && Add(a, b) == Add(b, a) && Add(a, 0) == a
  {
  }

  lemma ResidencyLaws(a: Residency, b: Residency, c: Residency)
    ensures AddResidency(AddResidency(a, b), c) == AddResidency(a, AddResidency(b, c))
    ensures AddResidency(a, b) == AddResidency(b, a)
    ensures AddResidency(a, NoResidency()) == a
  {
    forall i | 0 <= i <= MAX_C_STATE
      ensures Add(Add(a[i], b[i]), c[i]) == Add(a[i], Add(b[i], c[i]))
      ensures Add(a[i], b[i]) == Add(b[i], a[i]) && Add(a[i], 0) == a[i]
    {
      AddLaws(a[i], b[i], c[i]);
    }
  }

  lemma BasicLaws(a: Basic, b: Basic, c: Basic)
    ensures a.Plus(b).Plus(c) == a.Plus(b.Plus(c)) && a.Plus(b) == b.Plus(a) && a.Plus(NoBasic()) == a
  {
    AddLaws(a.instRetiredAny, b.instRetiredAny, c.instRetiredAny);
    AddLaws(a.cpuClkUnhaltedThread, b.cpuClkUnhaltedThread, c.cpuClkUnhaltedThread);
    AddLaws(a.cpuClkUnhaltedRef, b.cpuClkUnhaltedRef, c.cpuClkUnhaltedRef);
    AddLaws(a.event0, b.event0, c.event0);
    AddLaws(a.event1, b.event1, c.event1);
    AddLaws(a.event2, b.event2, c.event2);
    AddLaws(a.event3, b.event3, c.event3);
    AddLaws(a.invariantTSC, b.invariantTSC, c.invariantTSC);
    ResidencyLaws(a.cStateResidency, b.cStateResidency, c.cStateResidency);
  }

  lemma UncoreLaws(a: Uncore, b: Uncore, c: Uncore)
    ensures a.Plus(b).Plus(c) == a.Plus(b.Plus(c)) && a.Plus(b) == b.Plus(a) && a.Plus(NoUncore()) == a
  {
    AddLaws(a.mcFullWrites, b.mcFullWrites, c.mcFullWrites);
    AddLaws(a.mcNormalReads, b.mcNormalReads, c.mcNormalReads);
    AddLaws(a.packageEnergy, b.packageEnergy, c.packageEnergy);
    AddLaws(a.dramEnergy, b.dramEnergy, c.dramEnergy);
    ResidencyLaws(a.cStateResidency, b.cStateResidency, c.cStateResidency);
  }

  lemma PlusLaws(a: Counts, b: Counts, c: Counts)
    ensures a.Plus(b).Plus(c) == a.Plus(b.Plus(c)) && a.Plus(b) == b.Plus(a) && a.Plus(Zero()) == a
  {
    BasicLaws(a.basic, b.basic, c.basic);
    UncoreLaws(a.uncore, b.uncore, c.uncore);
  }

  // ---------- The getters that are differences of fields ----------

  /** The number of a custom event. */
  type EventNr = nr: nat | nr <= 3

  datatype Getter =
    | InstructionsRetired | Cycles | RefCycles | InvariantTSC
    | L3CacheMisses | L2CacheMisses | L2CacheHits
    | L3CacheHitsNoSnoop | L3CacheHitsSnoop | L3CacheHits
    | CustomEvents(nr: EventNr)
    | BytesReadFromMC | BytesWrittenToMC | ConsumedEnergy | DRAMConsumedEnergy

  function CustomEvent(s: Basic, nr: EventNr): u64
  {
    if nr == 0 then s.event0 else if nr == 1 then s.event1 else if nr == 2 then s.event2 else s.event3
  }

  /** get(before, after); `atom` says whether the machine is an ATOM. */
  function Get(g: Getter, atom: bool, before: Counts, after: Counts): u64
  {
    var b, a, ub, ua := before.basic, after.basic, before.uncore, after.uncore;
    match g
    case InstructionsRetired => Sub(a.instRetiredAny, b.instRetiredAny)
    case Cycles => Sub(a.cpuClkUnhaltedThread, b.cpuClkUnhaltedThread)
    case RefCycles => Sub(a.cpuClkUnhaltedRef, b.cpuClkUnhaltedRef)
    case InvariantTSC => Sub(a.invariantTSC, b.invariantTSC)
    case L3CacheMisses => if atom then 0 else Sub(a.event0, b.event0)
    case L2CacheMisses =>
      if atom then Sub(a.event0, b.event0)
      else
        var l3Miss, l3UnsharedHit, l2HitM := Sub(a.event0, b.event0), Sub(a.event1, b.event1), Sub(a.event2, b.event2);
        Add(Add(l2HitM, l3UnsharedHit), l3Miss)
    case L2CacheHits =>
      if atom then
        var l2Miss, l2Ref := Sub(a.event0, b.event0), Sub(a.event1, b.event1);
        Sub(l2Ref, l2Miss)
      else Sub(a.event3, b.event3)
    case L3CacheHitsNoSnoop => if atom then 0 else Sub(a.event1, b.event1)
    case L3CacheHitsSnoop => if atom then 0 else Sub(a.event2, b.event2)
    case L3CacheHits => if atom then 0 else Add(Sub(a.event2, b.event2), Sub(a.event1, b.event1))
    case CustomEvents(nr) => Sub(CustomEvent(a, nr), CustomEvent(b, nr))
    case BytesReadFromMC => Times64(Sub(ua.mcNormalReads, ub.mcNormalReads))
    case BytesWrittenToMC => Times64(Sub(ua.mcFullWrites, ub.mcFullWrites))
    case ConsumedEnergy => Sub(ua.packageEnergy, ub.packageEnergy)
    case DRAMConsumedEnergy => Sub(ua.dramEnergy, ub.dramEnergy)
  }

  lemma SubOfAdd(b: u64, a: u64, b': u64, a': u64)
    ensures Sub(Add(a, a'), Add(b, b')) == Add(Sub(a, b), Sub(a', b'))
  {
  }

  lemma SubComposes(a: u64, b: u64, c: u64)
    ensures Add(Sub(b, a), Sub(c, b)) == Sub(c, a)
  {
  }

  lemma SameResidue(x: u64, y: u64, k: int)
    requires x - y == k * U64
    ensures x == y
  {
  }

  lemma Times64OfAdd(x: u64, y: u64)
    ensures Times64(Add(x, y)) == Add(Times64(x), Times64(y))
  {
    var k := if x + y < U64 then 0 else 1;
    var l := if Times64(x) + Times64(y) < U64 then 0 else 1;
    var p, q, r := x * 64 / U64, y * 64 / U64, Add(x, y) * 64 / U64;
    SameResidue(Times64(Add(x, y)), Add(Times64(x), Times64(y)), p + q + l - 64 * k - r);
  }

  lemma AddInterleaves(x: u64, y: u64, x': u64, y': u64)
    ensures Add(Add(x, x'), Add(y, y')) == Add(Add(x, y), Add(x', y'))
  {
  }

  /** A getter of sums is the sum of the getters. */
  lemma GetOfPlus(g: Getter, atom: bool, before: Counts, after: Counts, before': Counts, after': Counts)
    ensures Get(g, atom, before.Plus(before'), after.Plus(after'))
         == Add(Get(g, atom, before, after), Get(g, atom, before', after'))
  {
    var b, a, b', a' := before.basic, after.basic, before'.basic, after'.basic;
    var ub, ua, ub', ua' := before.uncore, after.uncore, before'.uncore, after'.uncore;
    SubOfAdd(b.event0, a.event0, b'.event0, a'.event0);
    SubOfAdd(b.event1, a.event1, b'.event1, a'.event1);
    SubOfAdd(b.event2, a.event2, b'.event2, a'.event2);
    SubOfAdd(b.event3, a.event3, b'.event3, a'.event3);
    var x0, x1, x2 := Sub(a.event0, b.event0), Sub(a.event1, b.event1), Sub(a.event2, b.event2);
    var y0, y1, y2 := Sub(a'.event0, b'.event0), Sub(a'.event1, b'.event1), Sub(a'.event2, b'.event2);
    match g
    case InstructionsRetired => SubOfAdd(b.instRetiredAny, a.instRetiredAny, b'.instRetiredAny, a'.instRetiredAny);
    case Cycles =>
      SubOfAdd(b.cpuClkUnhaltedThread, a.cpuClkUnhaltedThread, b'.cpuClkUnhaltedThread, a'.cpuClkUnhaltedThread);
    case RefCycles => SubOfAdd(b.cpuClkUnhaltedRef, a.cpuClkUnhaltedRef, b'.cpuClkUnhaltedRef, a'.cpuClkUnhaltedRef);
    case InvariantTSC => SubOfAdd(b.invariantTSC, a.invariantTSC, b'.invariantTSC, a'.invariantTSC);
    case L2CacheMisses =>
      AddInterleaves(x2, y2, x1, y1);
      AddInterleaves(Add(x2, x1), Add(y2, y1), x0, y0);
    case L2CacheHits => SubOfAdd(x0, x1, y0, y1);
    case L3CacheHits => AddInterleaves(x2, y2, x1, y1);
    case BytesReadFromMC =>
      SubOfAdd(ub.mcNormalReads, ua.mcNormalReads, ub'.mcNormalReads, ua'.mcNormalReads);
      Times64OfAdd(Sub(ua.mcNormalReads, ub.mcNormalReads), Sub(ua'.mcNormalReads, ub'.mcNormalReads));
    case BytesWrittenToMC =>
      SubOfAdd(ub.mcFullWrites, ua.mcFullWrites, ub'.mcFullWrites, ua'.mcFullWrites);
      Times64OfAdd(Sub(ua.mcFullWrites, ub.mcFullWrites), Sub(ua'.mcFullWrites, ub'.mcFullWrites));
    case ConsumedEnergy => SubOfAdd(ub.packageEnergy, ua.packageEnergy, ub'.packageEnergy, ua'.packageEnergy);
    case DRAMConsumedEnergy => SubOfAdd(ub.dramEnergy, ua.dramEnergy, ub'.dramEnergy, ua'.dramEnergy);
    case _ =>
  }

  /** Consecutive intervals compose: get(s0, s1) + get(s1, s2) = get(s0, s2). */
  lemma GetComposes(g: Getter, atom: bool, s0: Counts, s1: Counts, s2: Counts)
    ensures Add(Get(g, atom, s0, s1), Get(g, atom, s1, s2)) == Get(g, atom, s0, s2)
  {
    var a, b, c, ua, ub, uc := s0.basic, s1.basic, s2.basic, s0.uncore, s1.uncore, s2.uncore;
    SubComposes(a.event0, b.event0, c.event0);
    SubComposes(a.event1, b.event1, c.event1);
    SubComposes(a.event2, b.event2, c.event2);
    SubComposes(a.event3, b.event3, c.event3);
    var x0, x1, x2 := Sub(b.event0, a.event0), Sub(b.event1, a.event1), Sub(b.event2, a.event2);
    var y0, y1, y2 := Sub(c.event0, b.event0), Sub(c.event1, b.event1), Sub(c.event2, b.event2);
    match g
    case InstructionsRetired => SubComposes(a.instRetiredAny, b.instRetiredAny, c.instRetiredAny);
    case Cycles => SubComposes(a.cpuClkUnhaltedThread, b.cpuClkUnhaltedThread, c.cpuClkUnhaltedThread);
    case RefCycles => SubComposes(a.cpuClkUnhaltedRef, b.cpuClkUnhaltedRef, c.cpuClkUnhaltedRef);
    case InvariantTSC => SubComposes(a.invariantTSC, b.invariantTSC, c.invariantTSC);
    case L2CacheMisses =>
      AddInterleaves(x2, y2, x1, y1);
      AddInterleaves(Add(x2, x1), Add(y2, y1), x0, y0);
    case L2CacheHits => SubOfAdd(x0, x1, y0, y1);
    case L3CacheHits => AddInterleaves(x2, y2, x1, y1);
    case BytesReadFromMC =>
      SubComposes(ua.mcNormalReads, ub.mcNormalReads, uc.mcNormalReads);
      Times64OfAdd(Sub(ub.mcNormalReads, ua.mcNormalReads), Sub(uc.mcNormalReads, ub.mcNormalReads));
    case BytesWrittenToMC =>
      SubComposes(ua.mcFullWrites, ub.mcFullWrites, uc.mcFullWrites);
      Times64OfAdd(Sub(ub.mcFullWrites, ua.mcFullWrites), Sub(uc.mcFullWrites, ub.mcFullWrites));
    case ConsumedEnergy => SubComposes(ua.packageEnergy, ub.packageEnergy, uc.packageEnergy);
    case DRAMConsumedEnergy => SubComposes(ua.dramEnergy, ub.dramEnergy, uc.dramEnergy);
    case _ =>
  }

  // ---------- What the getters say about the counters ----------

  /** Addition is that of the numbers, modulo 2^64. */
  lemma AddIsSum(a: u64, b: u64)
    ensures Add(a, b) == (a + b) % U64
  {
  }

  /** A counter that stood at b and has grown by d, modulo 2^64, stands at a. */
  predicate Grows(b: u64, d: nat, a: u64)
  {
    (b + d) % U64 == a
  }

  lemma SubIsGrowth(a: u64, b: u64)
    ensures Grows(b, Sub(a, b), a)
  {
  }

  /** Each getter of one core counter is that counter's growth. */
  lemma CoreGettersAreGrowth(atom: bool, before: Counts, after: Counts)
    ensures var b, a := before.basic, after.basic;
            && Grows(b.instRetiredAny, Get(InstructionsRetired, atom, before, after), a.instRetiredAny)
            && Grows(b.cpuClkUnhaltedThread, Get(Cycles, atom, before, after), a.cpuClkUnhaltedThread)
            && Grows(b.cpuClkUnhaltedRef, Get(RefCycles, atom, before, after), a.cpuClkUnhaltedRef)
            && Grows(b.invariantTSC, Get(InvariantTSC, atom, before, after), a.invariantTSC)
    ensures var b, a := before.basic, after.basic;
            && Grows(b.event0, Get(CustomEvents(0), atom, before, after), a.event0)
            && Grows(b.event1, Get(CustomEvents(1), atom, before, after), a.event1)
            && Grows(b.event2, Get(CustomEvents(2), atom, before, after), a.event2)
            && Grows(b.event3, Get(CustomEvents(3), atom, before, after), a.event3)
  {
    var b, a := before.basic, after.basic;
    SubIsGrowth(a.instRetiredAny, b.instRetiredAny);
    SubIsGrowth(a.cpuClkUnhaltedThread, b.cpuClkUnhaltedThread);
    SubIsGrowth(a.cpuClkUnhaltedRef, b.cpuClkUnhaltedRef);
    SubIsGrowth(a.invariantTSC, b.invariantTSC);
    SubIsGrowth(a.event0, b.event0);
    SubIsGrowth(a.event1, b.event1);
    SubIsGrowth(a.event2, b.event2);
    SubIsGrowth(a.event3, b.event3);
  }

  /** On an ATOM, event 0 counts L2 misses and event 1 L2 references, hits and misses
      together; there is no L3 cache to count. */
  lemma AtomCacheGetters(before: Counts, after: Counts)
    ensures Grows(before.basic.event0, Get(L2CacheMisses, true, before, after), after.basic.event0)
    ensures Grows(before.basic.event1, Get(L2CacheMisses, true, before, after) + Get(L2CacheHits, true, before, after),
                  after.basic.event1)
    ensures Get(L3CacheMisses, true, before, after) == Get(L3CacheHits, true, before, after) == 0
    ensures Get(L3CacheHitsNoSnoop, true, before, after) == Get(L3CacheHitsSnoop, true, before, after) == 0
  {
    var b, a := before.basic, after.basic;
    SubIsGrowth(a.event0, b.event0);
    SubIsGrowth(a.event1, b.event1);
    SubIsGrowth(Sub(a.event1, b.event1), Sub(a.event0, b.event0));
  }

  /** Elsewhere events 0 to 3 count L3 misses, L3 hits without and with a snoop, and L2
      hits; the L3 hits are those of both kinds, and what misses in L2 hits or misses in
      L3. */
  lemma CacheGetters(before: Counts, after: Counts)
    ensures Grows(before.basic.event0, Get(L3CacheMisses, false, before, after), after.basic.event0)
    ensures Grows(before.basic.event1, Get(L3CacheHitsNoSnoop, false, before, after), after.basic.event1)
    ensures Grows(before.basic.event2, Get(L3CacheHitsSnoop, false, before, after), after.basic.event2)
    ensures Grows(before.basic.event3, Get(L2CacheHits, false, before, after), after.basic.event3)
    ensures Get(L3CacheHits, false, before, after)
         == (Get(L3CacheHitsNoSnoop, false, before, after) + Get(L3CacheHitsSnoop, false, before, after)) % U64
    ensures Get(L2CacheMisses, false, before, after)
         == (Get(L3CacheHits, false, before, after) + Get(L3CacheMisses, false, before, after)) % U64
  {
    var b, a := before.basic, after.basic;
    SubIsGrowth(a.event0, b.event0);
    SubIsGrowth(a.event1, b.event1);
    SubIsGrowth(a.event2, b.event2);
    SubIsGrowth(a.event3, b.event3);
  }

  /** A growth of d cache lines is one of 64 d bytes; the energy getters are growths. */
  lemma UncoreGetters(atom: bool, before: Counts, after: Counts, linesRead: u64, linesWritten: u64)
    requires Grows(before.uncore.mcNormalReads, linesRead, after.uncore.mcNormalReads)
    requires Grows(before.uncore.mcFullWrites, linesWritten, after.uncore.mcFullWrites)
    ensures Get(BytesReadFromMC, atom, before, after) == 64 * linesRead % U64
    ensures Get(BytesWrittenToMC, atom, before, after) == 64 * linesWritten % U64
    ensures Grows(before.uncore.packageEnergy, Get(ConsumedEnergy, atom, before, after), after.uncore.packageEnergy)
    ensures Grows(before.uncore.dramEnergy, Get(DRAMConsumedEnergy, atom, before, after), after.uncore.dramEnergy)
  {
    GrowthIsSub(before.uncore.mcNormalReads, linesRead, after.uncore.mcNormalReads);
    GrowthIsSub(before.uncore.mcFullWrites, linesWritten, after.uncore.mcFullWrites);
    SubIsGrowth(after.uncore.packageEnergy, before.uncore.packageEnergy);
    SubIsGrowth(after.uncore.dramEnergy, before.uncore.dramEnergy);
  }

  lemma GrowthIsSub(b: u64, d: u64, a: u64)
    requires Grows(b, d, a)
    ensures Sub(a, b) == d
  {
  }
}
