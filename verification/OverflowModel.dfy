/** What software overflow handling does, as functions of the event set's values:
    which events are past their deadline, the bit vector built from them, and the
    profile dispatches drained out of it. */
module OverflowModel {
  import opened Words

  /** Components of a derived event. */
  const TERMS: nat := 8

  /** Per monitored event: its deadline, its threshold, its latest count and the
      counter positions of its terms. */
  datatype Monitor = Monitor(deadline: seq<int>, threshold: seq<int>, latest: seq<int>, terms: seq<seq<int>>)

  ghost predicate WellFormed(m: Monitor)
  {
    && |m.deadline| == |m.threshold| == |m.latest| == |m.terms|
    && forall i :: 0 <= i < |m.terms| ==> |m.terms[i]| == TERMS && 0 <= m.terms[i][0] < 64
  }

  predicate Overflowed(m: Monitor, i: nat)
    requires WellFormed(m) && i < |m.deadline|
  {
    m.latest[i] >= m.deadline[i]
  }

  /** The counter an event's overflow bit stands for. */
  function Pos(m: Monitor, i: nat): nat
    requires WellFormed(m) && i < |m.deadline|
  {
    m.terms[i][0]
  }

  function Excess(m: Monitor, i: nat): int
    requires WellFormed(m) && i < |m.deadline|
  {
    if Overflowed(m, i) then m.latest[i] - m.deadline[i] else -1
  }

  /** The overflow vector after the first n events. */
  function Vector(m: Monitor, n: nat): nat
    requires WellFormed(m) && n <= |m.deadline|
  {
    if n == 0 then 0
    else if Overflowed(m, n - 1) then Xor(Vector(m, n - 1), Pow2(Pos(m, n - 1)))
    else Vector(m, n - 1)
  }

  /** The scan over an event's terms reaches the bit before a negative position ends it. */
  ghost predicate Scans(terms: seq<int>, bit: nat)
  {
    exists k :: 0 <= k < |terms| && terms[k] == bit && forall l :: 0 <= l < k ==> terms[l] >= 0
  }

  /** What the scan sees are the terms before the first negative one. */
  lemma ScansLeading(terms: seq<int>, bit: nat, n: nat)
    requires n <= |terms| && (forall l :: 0 <= l < n ==> terms[l] >= 0) && (n < |terms| ==> terms[n] < 0)
    ensures Scans(terms, bit) <==> bit in terms[..n]
  {
    if bit in terms[..n] {
      var k :| 0 <= k < n && terms[..n][k] == bit;
      assert terms[k] == bit;
    }
    if Scans(terms, bit) {
      var k :| 0 <= k < |terms| && terms[k] == bit && forall l :: 0 <= l < k ==> terms[l] >= 0;
      assert terms[..n][k] == bit;
    }
  }

  /** The first event whose terms have the bit; the number of events if none has. */
  ghost function Owner(m: Monitor, bit: nat): (j: nat)
    requires WellFormed(m)
    ensures j <= |m.terms|
    ensures j < |m.terms| ==> Scans(m.terms[j], bit)
    ensures forall i :: 0 <= i < j ==> !Scans(m.terms[i], bit)
  {
    OwnerFrom(m, bit, 0)
  }

  ghost function OwnerFrom(m: Monitor, bit: nat, from: nat): (j: nat)
    requires WellFormed(m) && from <= |m.terms|
    ensures from <= j <= |m.terms|
    ensures j < |m.terms| ==> Scans(m.terms[j], bit)
    ensures forall i :: from <= i < j ==> !Scans(m.terms[i], bit)
    decreases |m.terms| - from
  {
    if from == |m.terms| || Scans(m.terms[from], bit) then from else OwnerFrom(m, bit, from + 1)
  }

  /** A call of the profile dispatcher: the event and the excess it carries. */
  datatype Call = Call(event: nat, over: int)

  datatype Drained = Drained(calls: seq<Call>, ok: bool)

  /** The calls made for a vector, lowest bit first; it stops at a bit no event has.
      `over` gives the excess a call carries. */
  ghost function Drain(m: Monitor, v: nat, over: seq<int>): Drained
    requires WellFormed(m) && |over| == |m.terms|
    decreases Ones(v)
  {
    if v == 0 then Drained([], true)
    else
      FfsLowest(v);
      var bit := Ffs(v) - 1;
      var j := Owner(m, bit);
      if j == |m.terms| then Drained([], false)
      else
        ClearingDropsOne(v, bit);
        var rest := Drain(m, Xor(v, Pow2(bit)), over);
        Drained([Call(j, over[j])] + rest.calls, rest.ok)
  }

  ghost function Excesses(m: Monitor): (r: seq<int>)
    requires WellFormed(m)
    ensures |r| == |m.terms|
  {
    seq(|m.terms|, i requires 0 <= i < |m.terms| => Excess(m, i))
  }

  /** The profile dispatches of a software overflow. */
  ghost function Dispatches(m: Monitor): Drained
    requires WellFormed(m)
  {
    Drain(m, Vector(m, |m.terms|), Excesses(m))
  }

  // ---------- The vector ----------

  /** A set bit is the position of some overflowed event. */
  lemma {:induction false} VectorHasCause(m: Monitor, n: nat, k: nat) returns (i: nat)
    requires WellFormed(m) && n <= |m.terms| && Bit(Vector(m, n), k)
    ensures i < n && Overflowed(m, i) && Pos(m, i) == k
  {
    if n == 0 {
      ZeroBits(k);
    } else if Overflowed(m, n - 1) {
      XorBits(Vector(m, n - 1), Pow2(Pos(m, n - 1)), k);
      Pow2Bits(Pos(m, n - 1), k);
      if Pos(m, n - 1) == k {
        i := n - 1;
      } else {
        i := VectorHasCause(m, n - 1, k);
      }
    } else {
      i := VectorHasCause(m, n - 1, k);
    }
  }

  /** No two overflowed events share a position. */
  ghost predicate PositionsApart(m: Monitor)
    requires WellFormed(m)
  {
    forall i, j :: 0 <= i < j < |m.terms| && Overflowed(m, i) && Overflowed(m, j) ==> Pos(m, i) != Pos(m, j)
  }

  /** Then every overflowed event's bit is set: none cancels another. */
  lemma {:induction false} VectorHasAll(m: Monitor, n: nat, i: nat)
    requires WellFormed(m) && i < n <= |m.terms| && PositionsApart(m) && Overflowed(m, i)
    ensures Bit(Vector(m, n), Pos(m, i))
  {
    var k := Pos(m, i);
    if Overflowed(m, n - 1) {
      XorBits(Vector(m, n - 1), Pow2(Pos(m, n - 1)), k);
      Pow2Bits(Pos(m, n - 1), k);
      if i == n - 1 {
        if Bit(Vector(m, n - 1), k) {
          var j := VectorHasCause(m, n - 1, k);
          assert false;
        }
      } else {
        VectorHasAll(m, n - 1, i);
      }
    } else {
      VectorHasAll(m, n - 1, i);
    }
  }

  // ---------- Draining ----------

  ghost predicate AllOwned(m: Monitor, v: nat)
    requires WellFormed(m)
  {
    forall k: nat :: Bit(v, k) ==> Owner(m, k) < |m.terms|
  }

  lemma ClearedBits(v: nat, bit: nat)
    requires Bit(v, bit)
    ensures forall k: nat :: Bit(Xor(v, Pow2(bit)), k) <==> Bit(v, k) && k != bit
  {
    forall k: nat ensures Bit(Xor(v, Pow2(bit)), k) <==> Bit(v, k) && k != bit {
      XorBits(v, Pow2(bit), k);
      Pow2Bits(bit, k);
    }
  }

  /** Draining succeeds exactly when every set bit belongs to some event. */
  lemma {:induction false} DrainSucceedsIffOwned(m: Monitor, v: nat, over: seq<int>)
    requires WellFormed(m) && |over| == |m.terms|
    ensures Drain(m, v, over).ok <==> AllOwned(m, v)
    decreases Ones(v)
  {
    if v == 0 {
      forall k: nat ensures !Bit(v, k) { ZeroBits(k); }
    } else {
      FfsLowest(v);
      var bit := Ffs(v) - 1;
      ClearingDropsOne(v, bit);
      ClearedBits(v, bit);
      if Owner(m, bit) < |m.terms| {
        DrainSucceedsIffOwned(m, Xor(v, Pow2(bit)), over);
      }
    }
  }

  /** Every call is made for a set bit, to the event that owns it. */
  lemma {:induction false} CallHasBit(m: Monitor, v: nat, over: seq<int>, c: Call) returns (k: nat)
    requires WellFormed(m) && |over| == |m.terms| && c in Drain(m, v, over).calls
    ensures Bit(v, k) && Owner(m, k) == c.event < |m.terms| && c.over == over[c.event]
    decreases Ones(v)
  {
    FfsLowest(v);
    var bit := Ffs(v) - 1;
    if Owner(m, bit) == c.event && c.over == over[c.event] {
      k := bit;
    } else {
      ClearingDropsOne(v, bit);
      ClearedBits(v, bit);
      k := CallHasBit(m, Xor(v, Pow2(bit)), over, c);
    }
  }

  /** And when all bits are owned, every set bit gets its call. */
  lemma {:induction false} BitGetsCall(m: Monitor, v: nat, over: seq<int>, k: nat)
    requires WellFormed(m) && |over| == |m.terms| && AllOwned(m, v) && Bit(v, k)
    ensures Call(Owner(m, k), over[Owner(m, k)]) in Drain(m, v, over).calls
    decreases Ones(v)
  {
    if v == 0 {
      ZeroBits(k);
    } else {
      FfsLowest(v);
      var bit := Ffs(v) - 1;
      ClearingDropsOne(v, bit);
      ClearedBits(v, bit);
      if k != bit {
        BitGetsCall(m, Xor(v, Pow2(bit)), over, k);
      }
    }
  }

  ghost predicate OneEach(calls: seq<Call>)
  {
    forall a, b :: 0 <= a < b < |calls| ==> calls[a].event != calls[b].event
  }

  /** If different bits have different owners, no event is called twice. */
  lemma {:induction false} CallsDiffer(m: Monitor, v: nat, over: seq<int>)
    requires WellFormed(m) && |over| == |m.terms|
    requires forall k: nat, l: nat :: Bit(v, k) && Bit(v, l) && Owner(m, k) == Owner(m, l) ==> k == l
    ensures OneEach(Drain(m, v, over).calls)
    decreases Ones(v)
  {
    if v != 0 {
      FfsLowest(v);
      var bit := Ffs(v) - 1;
      ClearingDropsOne(v, bit);
      ClearedBits(v, bit);
      var rest := Drain(m, Xor(v, Pow2(bit)), over).calls;
      if Owner(m, bit) < |m.terms| {
        CallsDiffer(m, Xor(v, Pow2(bit)), over);
        forall b | 0 <= b < |rest| ensures rest[b].event != Owner(m, bit) {
          var k := CallHasBit(m, Xor(v, Pow2(bit)), over, rest[b]);
        }
      }
    }
  }

  // ---------- Every event past its deadline is dispatched once, exactly when ... ----------

  /** No event before one that has reached its deadline has that one's position in its terms. */
  ghost predicate SelfOwned(m: Monitor)
    requires WellFormed(m)
  {
    forall i, j :: 0 <= j < i < |m.terms| && m.latest[i] >= m.deadline[i] ==> !Scans(m.terms[j], m.terms[i][0])
  }

  /** The call is for an event that has reached its deadline, and says by how much it is past it. */
  ghost predicate CountsPast(m: Monitor, c: Call)
    requires WellFormed(m)
  {
    c.event < |m.terms| && c.over >= 0 && m.deadline[c.event] + c.over == m.latest[c.event]
  }

  /** Each event that has reached its deadline gets exactly one call, saying by how much it
      is past it, and no other event gets any. */
  ghost predicate ExactlyOnce(m: Monitor, d: Drained)
    requires WellFormed(m)
  {
    && d.ok && OneEach(d.calls)
    && (forall c :: c in d.calls ==> CountsPast(m, c))
    && (forall i: nat :: i < |m.terms| && m.latest[i] >= m.deadline[i] ==> Called(d, i))
  }

  ghost predicate Called(d: Drained, i: nat)
  {
    exists c :: c in d.calls && c.event == i
  }

  lemma SelfOwnedIsOwner(m: Monitor, i: nat)
    requires WellFormed(m) && SelfOwned(m) && i < |m.terms| && Overflowed(m, i)
    ensures Owner(m, Pos(m, i)) == i
  {
    OwnsItself(m, i);
  }

  lemma OwnsItself(m: Monitor, i: nat)
    requires WellFormed(m) && i < |m.terms|
    ensures Owner(m, Pos(m, i)) <= i
  {
    assert Scans(m.terms[i], Pos(m, i));
  }

  /** In software mode no bit is without an owner. */
  lemma SoftwareNeverFails(m: Monitor)
    requires WellFormed(m)
    ensures AllOwned(m, Vector(m, |m.terms|)) && Dispatches(m).ok
  {
    var v := Vector(m, |m.terms|);
    forall k: nat | Bit(v, k) ensures Owner(m, k) < |m.terms| {
      var i := VectorHasCause(m, |m.terms|, k);
      OwnsItself(m, i);
    }
    DrainSucceedsIffOwned(m, v, Excesses(m));
  }

  lemma SelfOwnedSuffices(m: Monitor)
    requires WellFormed(m) && SelfOwned(m)
    ensures ExactlyOnce(m, Dispatches(m))
  {
    var v, over := Vector(m, |m.terms|), Excesses(m);
    SoftwareNeverFails(m);
    SelfOwnedApart(m);
    forall k: nat, l: nat | Bit(v, k) && Bit(v, l) && Owner(m, k) == Owner(m, l) ensures k == l {
      SelfOwnedCause(m, k);
      SelfOwnedCause(m, l);
    }
    CallsDiffer(m, v, over);
    forall c | c in Dispatches(m).calls ensures CountsPast(m, c) {
      var k := CallHasBit(m, v, over, c);
      SelfOwnedCause(m, k);
    }
    forall i: nat | i < |m.terms| && m.latest[i] >= m.deadline[i] ensures Called(Dispatches(m), i) {
      VectorHasAll(m, |m.terms|, i);
      SelfOwnedIsOwner(m, i);
      BitGetsCall(m, v, over, Pos(m, i));
      assert Call(i, over[i]).event == i;
    }
  }

  /** A set bit is then the position of the event that owns it, which has overflowed. */
  lemma SelfOwnedCause(m: Monitor, k: nat)
    requires WellFormed(m) && SelfOwned(m) && Bit(Vector(m, |m.terms|), k)
    ensures Owner(m, k) < |m.terms| && Overflowed(m, Owner(m, k)) && Pos(m, Owner(m, k)) == k
  {
    var i := VectorHasCause(m, |m.terms|, k);
    SelfOwnedIsOwner(m, i);
  }

  lemma SelfOwnedApart(m: Monitor)
    requires WellFormed(m) && SelfOwned(m)
    ensures PositionsApart(m)
  {
    forall i, j | 0 <= i < j < |m.terms| && Overflowed(m, i) && Overflowed(m, j) ensures Pos(m, i) != Pos(m, j) {
      SelfOwnedIsOwner(m, i);
      SelfOwnedIsOwner(m, j);
    }
  }

  /** Owned by itself or not: a call carries how far its event is past its deadline, or -1
      if the event has not reached it. */
  lemma CallsCarry(m: Monitor, c: Call)
    requires WellFormed(m) && c in Dispatches(m).calls
    ensures c.event < |m.terms|
    ensures m.latest[c.event] >= m.deadline[c.event] ==> m.deadline[c.event] + c.over == m.latest[c.event]
    ensures m.latest[c.event] < m.deadline[c.event] ==> c.over == -1
  {
    var k := CallHasBit(m, Vector(m, |m.terms|), Excesses(m), c);
  }

  /** A called event owns the position of some overflowed event. */
  lemma CauseOfCall(m: Monitor, i: nat) returns (j: nat)
    requires WellFormed(m) && Called(Dispatches(m), i)
    ensures j < |m.terms| && Overflowed(m, j) && Owner(m, Pos(m, j)) == i
  {
    var c :| c in Dispatches(m).calls && c.event == i;
    var k := CallHasBit(m, Vector(m, |m.terms|), Excesses(m), c);
    j := VectorHasCause(m, |m.terms|, k);
  }

  /** Even one call for each overflowed event takes every one to own its position: from
      the last event down, the bit that reaches an event can only be its own. */
  lemma {:induction false} ReachedIsSelfOwned(m: Monitor, i: nat)
    requires WellFormed(m) && i < |m.terms| && Overflowed(m, i)
    requires forall j: nat :: j < |m.terms| && Overflowed(m, j) ==> Called(Dispatches(m), j)
    ensures Owner(m, Pos(m, i)) == i
    decreases |m.terms| - i
  {
    var j := CauseOfCall(m, i);
    OwnsItself(m, j);
    if j > i {
      ReachedIsSelfOwned(m, j);
    }
  }

  /** The dispatches are right exactly when no event that has reached its deadline has its
      position among the terms of an earlier one; sharing loses some and misdirects others. */
  lemma ExactlyOnceIffSelfOwned(m: Monitor)
    requires WellFormed(m)
    ensures ExactlyOnce(m, Dispatches(m)) <==> SelfOwned(m)
  {
    if SelfOwned(m) {
      SelfOwnedSuffices(m);
    }
    if ExactlyOnce(m, Dispatches(m)) {
      forall i, j | 0 <= j < i < |m.terms| && m.latest[i] >= m.deadline[i]
        ensures !Scans(m.terms[j], m.terms[i][0])
      {
        assert forall l: nat :: l < |m.terms| && Overflowed(m, l) ==> m.latest[l] >= m.deadline[l];
        ReachedIsSelfOwned(m, i);
      }
    }
  }

  /** With no event past its deadline there is nothing to dispatch. */
  lemma {:induction false} NoneOverflowed(m: Monitor, n: nat)
    requires WellFormed(m) && n <= |m.terms|
    requires forall i :: 0 <= i < |m.terms| ==> !Overflowed(m, i)
    ensures Vector(m, n) == 0
  {
    if n > 0 {
      NoneOverflowed(m, n - 1);
    }
  }

  /** Disjoint counters for different events are enough. */
  lemma DisjointTermsSuffice(m: Monitor)
    requires WellFormed(m)
    requires forall i, j, k :: 0 <= i < j < |m.terms| && 0 <= k < TERMS ==> m.terms[i][k] != m.terms[j][0]
    ensures ExactlyOnce(m, Dispatches(m))
  {
    SelfOwnedSuffices(m);
  }

  /** The new deadline of an event that has reached its deadline is a threshold on from the
      latest count; of any other it is the old one. */
  ghost predicate Rearmed(m: Monitor, after: seq<int>)
    requires WellFormed(m)
  {
    && |after| == |m.terms|
    && (forall i :: 0 <= i < |m.terms| && m.latest[i] >= m.deadline[i] ==> after[i] == m.latest[i] + m.threshold[i])
    && (forall i :: 0 <= i < |m.terms| && m.latest[i] < m.deadline[i] ==> after[i] == m.deadline[i])
  }

  /** The re-armed deadlines all lie ahead exactly when the thresholds of the events that
      have reached theirs are positive. */
  lemma DeadlinesAheadIffPositive(m: Monitor, after: seq<int>)
    requires WellFormed(m) && Rearmed(m, after)
    ensures (forall i :: 0 <= i < |m.terms| ==> after[i] > m.latest[i])
       <==> (forall i :: 0 <= i < |m.terms| && m.latest[i] >= m.deadline[i] ==> m.threshold[i] > 0)
  {
    if forall i :: 0 <= i < |m.terms| ==> after[i] > m.latest[i] {
      forall i | 0 <= i < |m.terms| && m.latest[i] >= m.deadline[i] ensures m.threshold[i] > 0 {
        assert after[i] > m.latest[i];
      }
    }
  }

  // ---------- Where it goes wrong ----------

  const TERM3: seq<int> := [3, -1, -1, -1, -1, -1, -1, -1]

  /** Two events past their deadlines on counter 3. */
  const SHARED: Monitor := Monitor([5, 5], [10, 10], [7, 8], [TERM3, TERM3])

  /** Their bits cancel, and neither is dispatched. */
  lemma SharedPositionLosesBoth()
    ensures WellFormed(SHARED) && Overflowed(SHARED, 0) && Overflowed(SHARED, 1)
    ensures Dispatches(SHARED) == Drained([], true) && !ExactlyOnce(SHARED, Dispatches(SHARED))
  {
    XorSelf(Pow2(3));
    assert Vector(SHARED, 1) == Pow2(3);
    assert Vector(SHARED, 2) == 0;
    var i: nat := 0;
    assert SHARED.latest[i] >= SHARED.deadline[i] && !Called(Dispatches(SHARED), i);
  }

  /** Event 1, past its deadline on counter 5, where event 0 has its second term. */
  const TAKEN: Monitor :=
    Monitor([9, 5], [10, 10], [7, 8], [[3, 5, -1, -1, -1, -1, -1, -1], [5, -1, -1, -1, -1, -1, -1, -1]])

  /** The dispatch goes to event 0, which has not overflowed, with its mark of -1 as excess. */
  lemma LaterTermTakesTheCall()
    ensures WellFormed(TAKEN) && !Overflowed(TAKEN, 0) && Overflowed(TAKEN, 1)
    ensures Call(0, -1) in Dispatches(TAKEN).calls && !ExactlyOnce(TAKEN, Dispatches(TAKEN))
  {
    assert Vector(TAKEN, 1) == 0 && Vector(TAKEN, 2) == Pow2(5);
    Pow2Bits(5, 5);
    assert Scans(TAKEN.terms[0], 5) by {
      assert TAKEN.terms[0][1] == 5;
    }
    SoftwareNeverFails(TAKEN);
    BitGetsCall(TAKEN, Pow2(5), Excesses(TAKEN), 5);
    assert !CountsPast(TAKEN, Call(0, -1));
  }

  /** With threshold 0 a deadline that was met is met again. */
  lemma ZeroThresholdStaysMet(after: seq<int>)
    requires Rearmed(Monitor([5], [0], [7], [TERM3]), after)
    ensures after == [7]
  {
  }
}
