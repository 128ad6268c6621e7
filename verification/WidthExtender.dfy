/** Extending a free-running 32-bit counter to 64 bits. A client thread and a
    watchdog thread read through one mutex, so a run is one sequence of reads. */
module WidthExtender {
  import opened Words

  /** The extended value after reading `raw`, in 64-bit arithmetic. */
  function Extend(extended: nat, last: nat, raw: nat): nat
    requires last < U32
  {
    if raw < last then (extended + ((U32 - last) + raw)) % U64
    else (extended + (raw - last)) % U64
  }

  class CounterWidthExtender {
    var extendedValue: nat
    var lastRawValue: nat

    ghost predicate Valid()
      reads this
    {
      lastRawValue < U32 && extendedValue < U64 && extendedValue % U32 == lastRawValue
    }

    constructor (raw: nat)
      requires raw < U32
      ensures Valid() && extendedValue == raw && lastRawValue == raw
    {
      lastRawValue := raw;
      extendedValue := raw;
    }

    /** internal_read with the mutex held; `raw` is what the hardware returns. */
    method Read(raw: nat) returns (result: nat)
      requires Valid() && raw < U32
      modifies this
      ensures Valid() && lastRawValue == raw && result == extendedValue
      ensures extendedValue == Extend(old(extendedValue), old(lastRawValue), raw)
    {
      ExtendCongruent(extendedValue, lastRawValue, raw);
      if raw < lastRawValue {
        extendedValue := (extendedValue + ((U32 - lastRawValue) + raw)) % U64;
      } else {
        extendedValue := (extendedValue + (raw - lastRawValue)) % U64;
      }
      lastRawValue := raw;
      result := extendedValue;
    }
  }

  /** Whatever the hardware returns, the extended value stays congruent to it. */
  lemma ExtendCongruent(extended: nat, last: nat, raw: nat)
    requires last < U32 && raw < U32 && extended % U32 == last
    ensures Extend(extended, last, raw) % U32 == raw
  {
    assert (extended + (raw - last)) % U32 == raw;
    assert (extended + ((U32 - last) + raw)) % U32 == raw;
    WordIsCongruent(extended + (raw - last));
    WordIsCongruent(extended + ((U32 - last) + raw));
  }

  lemma WordIsCongruent(x: int)
    ensures x % U64 % U32 == x % U32
  {
  }

  // ---------- Runs ----------

  datatype Thread = Client | Watchdog

  /** A read by some thread, when the counter behind the register stood at `hidden`. */
  datatype Access = Access(thread: Thread, hidden: nat)

  datatype Reader = Reader(extended: nat, last: nat)

  /** The counter never goes back. */
  ghost predicate Runs(log: seq<Access>)
  {
    |log| > 0 && forall i, j :: 0 <= i <= j < |log| ==> log[i].hidden <= log[j].hidden
  }

  /** The reader's fields after the constructor's read and all later ones. */
  function After(log: seq<Access>): (r: Reader)
    requires |log| > 0
    ensures r.last < U32
  {
    var n := |log| - 1;
    var raw := log[n].hidden % U32;
    if n == 0 then Reader(raw, raw)
    else var before := After(log[..n]); Reader(Extend(before.extended, before.last, raw), raw)
  }

  function Advance(a: nat, b: nat): nat
  {
    (b - a) % U32
  }

  /** What the reader has counted: between two reads, the advance modulo 2^32. */
  function Counted(log: seq<Access>): nat
    requires |log| > 0
  {
    var n := |log| - 1;
    if n == 0 then log[0].hidden % U32
    else Counted(log[..n]) + Advance(log[n - 1].hidden, log[n].hidden)
  }

  /** In every interleaving of the two threads the extended value is what has been
      counted, modulo 2^64, and is congruent to the register. */
  lemma {:induction false} ExtendedIsCounted(log: seq<Access>)
    requires Runs(log)
    ensures After(log).extended == Counted(log) % U64
    ensures After(log).extended % U32 == After(log).last == log[|log| - 1].hidden % U32
  {
    var n := |log| - 1;
    if n > 0 {
      var init := log[..n];
      assert init[n - 1] == log[n - 1];
      ExtendedIsCounted(init);
      ExtendCongruent(After(init).extended, After(init).last, log[n].hidden % U32);
      ExtendAdvances(After(init).extended, log[n - 1].hidden, log[n].hidden);
      AddModulo(Counted(init), Advance(log[n - 1].hidden, log[n].hidden));
    }
  }

  /** One read adds the counter's advance modulo 2^32. */
  lemma ExtendAdvances(extended: nat, a: nat, b: nat)
    requires a <= b
    ensures Extend(extended, a % U32, b % U32) == (extended + Advance(a, b)) % U64
  {
  }

  lemma AddModulo(x: nat, d: nat)
    ensures (x % U64 + d) % U64 == (x + d) % U64
  {
  }

  /** Read k came 2^32 counts or more after the read before it. */
  predicate Late(log: seq<Access>, k: nat)
  {
    0 < k < |log| && log[k].hidden - log[k - 1].hidden >= U32
  }

  ghost predicate ReadInTime(log: seq<Access>, i: nat)
  {
    forall k: nat :: i < k < |log| ==> !Late(log, k)
  }

  lemma InTimeStep(log: seq<Access>, i: nat)
    requires i + 1 < |log|
    ensures ReadInTime(log, i) <==> ReadInTime(log[..|log| - 1], i) && !Late(log, |log| - 1)
  {
    var n := |log| - 1;
    assert forall k: nat :: k < n ==> (Late(log[..n], k) <==> Late(log, k));
  }

  /** What has been counted since read i. */
  function CountedSince(log: seq<Access>, i: nat): int
    requires i < |log|
  {
    Counted(log) - Counted(log[..i + 1])
  }

  lemma SinceStep(log: seq<Access>, i: nat)
    requires i + 1 < |log|
    ensures var n := |log| - 1;
            CountedSince(log, i) == CountedSince(log[..n], i) + Advance(log[n - 1].hidden, log[n].hidden)
  {
    assert log[..|log| - 1][..i + 1] == log[..i + 1];
  }

  /** Counting never runs ahead of the counter, and keeps up with it exactly when
      every read, whoever made it, came in time. */
  lemma {:induction false} KeepsUpIffInTime(log: seq<Access>, i: nat)
    requires Runs(log) && i < |log|
    ensures 0 <= CountedSince(log, i) <= log[|log| - 1].hidden - log[i].hidden
    ensures CountedSince(log, i) == log[|log| - 1].hidden - log[i].hidden <==> ReadInTime(log, i)
    decreases |log|
  {
    var n := |log| - 1;
    if i == n {
      assert log[..i + 1] == log;
    } else {
      KeepsUpIffInTime(log[..n], i);
      SinceStep(log, i);
      StepInTime(log[n - 1].hidden, log[n].hidden);
      InTimeStep(log, i);
    }
  }

  lemma StepInTime(a: nat, b: nat)
    requires a <= b
    ensures Advance(a, b) <= b - a
    ensures Advance(a, b) == b - a <==> b - a < U32
  {
  }

  /** While 64 bits hold the count, the extended value is the count. */
  lemma ExtendedFits(log: seq<Access>)
    requires Runs(log) && Counted(log) < U64
    ensures After(log).extended == Counted(log)
  {
    ExtendedIsCounted(log);
  }

  /** Between any two reads of a run, as long as 64 bits hold the count: the
      extended value never decreases, and it grows by exactly what the hidden
      counter grew by if and only if all reads in between came in time. */
  lemma GrowthIsExactIffInTime(log: seq<Access>, i: nat)
    requires Runs(log) && i < |log| && Counted(log) < U64
    ensures After(log[..i + 1]).extended <= After(log).extended
    ensures After(log).extended - After(log[..i + 1]).extended == log[|log| - 1].hidden - log[i].hidden
            <==> ReadInTime(log, i)
  {
    KeepsUpIffInTime(log, i);
    ExtendedFits(log);
    ExtendedFits(log[..i + 1]);
  }

  /** A read that comes 2^32 counts late sees the same register and misses them all. */
  lemma LateReadMissesCounts()
    ensures var log := [Access(Client, 0), Access(Watchdog, U32)];
            Runs(log) && Late(log, 1) && After(log).extended == After(log[..1]).extended == 0
  {
    var log := [Access(Client, 0), Access(Watchdog, U32)];
    assert log[..1] == [Access(Client, 0)];
  }
}
