/** The overflow signal handler of an event set: deadlines, the bit vector, and the
    loop that drains it into profile dispatches. */
module Overflow {
  import opened Finite
  import opened Options
  import opened Words
  import opened OverflowModel

  const PAPI_OK := 0
  const PAPI_EBUG := -6
  const PAPI_ENOCMP := -17

  /** ffsll: the ffs of a long long made of two ints of `len` bits, half by half. */
  method Ffsll(value: nat, len: nat) returns (r: nat)
    requires value < Pow2(len + len)
    ensures r == Ffs(value)
  {
    FfsByParts(value, len);
    ShrFits(value, len, len);
    LowPart(value, len);
    var lli := value;
    for i := 0 to 2
      invariant i == 0 ==> lli == value
      invariant i == 1 ==> lli == Shr(value, len) && value % Pow2(len) == 0
      invariant i == 2 ==> value == 0
    {
      LowPart(lli, len);
      var tmpint := Xor(Shl(Shr(lli, len), len), lli);
      var t := Ffs(tmpint);
      if i == 1 {
        SmallRemainder(lli, Pow2(len));
      }
      if t != 0 {
        return t + i * len;
      }
      FfsZero(tmpint);
      lli := Shr(lli, len);
    }
    return 0;
  }

  /** One turn of the draining loop on the vector: its lowest bit, and the vector
      without it. */
  method TakeLowest(v: nat, len: nat) returns (bit: nat, rest: nat)
    requires 0 < v < Pow2(len + len)
    ensures Ffs(v) == bit + 1 && rest == Xor(v, Pow2(bit))
    ensures rest < Pow2(len + len) && Ones(rest) < Ones(v)
  {
    TakenBit(v, len + len);
    var first := Ffsll(v, len);
    bit := first - 1;
    rest := Xor(v, Pow2(bit));
  }

  lemma SmallRemainder(x: nat, m: nat)
    requires x < m
    ensures x % m == x
  {
  }

  lemma FfsZero(n: nat)
    ensures Ffs(n) == 0 ==> n == 0
  {
  }

  lemma {:induction false} ShrFits(n: nat, s: nat, w: nat)
    ensures n < Pow2(s + w) ==> Shr(n, s) < Pow2(w)
  {
    if s > 0 {
      ShrFits(n / 2, s - 1, w);
    }
  }

  /** The part of an event set that overflow handling uses. */
  class EventSetInfo {
    var overflowing: bool
    var cmpIdx: nat
    var master: nat
    var profiling: bool
    var paused: bool
    var hardware: bool
    var deadline: array<int>
    var threshold: seq<int>
    var eventIndex: seq<nat>
    var pos: seq<seq<int>>
    var swStop: seq<int>

    /** The monitored events as the model sees them when the counters read `stop`. */
    ghost function View(stop: seq<int>): Monitor
      requires Indexed(stop)
      reads this, deadline
    {
      Monitor(deadline[..], threshold, Select(stop, eventIndex), Select(pos, eventIndex))
    }

    ghost predicate Indexed(stop: seq<int>)
      reads this
    {
      |stop| == |pos| && forall i :: 0 <= i < |eventIndex| ==> eventIndex[i] < |pos|
    }

    ghost predicate Valid(stop: seq<int>)
      reads this, deadline
    {
      Indexed(stop) && WellFormed(View(stop))
    }

    /** One event of the software scan. */
    method ScanEvent(ghost m: Monitor, i: nat, latest: int, vector: nat) returns (flag: bool, after: nat, excess: int)
      requires WellFormed(m) && i < |m.deadline| == deadline.Length == |threshold| == |eventIndex|
      requires eventIndex[i] < |pos| && pos[eventIndex[i]] == m.terms[i]
      requires deadline[i] == m.deadline[i] && threshold[i] == m.threshold[i] && latest == m.latest[i]
      modifies deadline
      ensures forall k :: 0 <= k < deadline.Length && k != i ==> deadline[k] == old(deadline[k])
      ensures deadline[i] == if latest >= old(deadline[i]) then latest + threshold[i] else old(deadline[i])
      ensures excess == Excess(m, i) && (flag <==> Overflowed(m, i))
      ensures after == if Overflowed(m, i) then Xor(vector, Pow2(Pos(m, i))) else vector
    {
      flag, after, excess := false, vector, -1;
      if latest >= deadline[i] {
        var p := pos[eventIndex[i]][0];
        after := Xor(vector, Pow2(p));
        excess := latest - deadline[i];
        flag := true;
        deadline[i] := latest + threshold[i];
      }
    }

    /** The software scan: the overflow vector, the excesses, and new deadlines for the
        events past theirs. */
    method ScanDeadlines(stop: seq<int>) returns (flag: bool, vector: nat, temp: seq<int>)
      requires Valid(stop)
      modifies deadline
      ensures var m := old(View(stop)); WellFormed(m) && |temp| == |m.terms| == deadline.Length
      ensures var m := old(View(stop)); vector == Vector(m, |m.terms|) && temp == Excesses(m)
      ensures var m := old(View(stop)); Rearmed(m, deadline[..])
      ensures var m := old(View(stop)); flag <==> AnyOverflowed(m)
    {
      ghost var m := View(stop);
      flag, vector, temp := false, 0, [];
      for i := 0 to |eventIndex|
        invariant |temp| == i && forall k :: 0 <= k < i ==> temp[k] == Excess(m, k)
        invariant vector == Vector(m, i)
        invariant flag <==> exists k :: 0 <= k < i && Overflowed(m, k)
        invariant forall k :: 0 <= k < i ==>
          deadline[k] == if m.latest[k] >= m.deadline[k] then m.latest[k] + m.threshold[k] else m.deadline[k]
        invariant forall k :: i <= k < deadline.Length ==> deadline[k] == m.deadline[k]
      {
        var over, after, excess := ScanEvent(m, i, stop[eventIndex[i]], vector);
        flag, vector, temp := flag || over, after, temp + [excess];
      }
    }

    /** The search for the event whose terms have the bit. */
    method FindEvent(ghost m: Monitor, bit: nat) returns (j: nat)
      requires WellFormed(m) && |m.terms| == |eventIndex|
      requires forall i :: 0 <= i < |eventIndex| ==> eventIndex[i] < |pos| && pos[eventIndex[i]] == m.terms[i]
      ensures j == Owner(m, bit)
    {
      for i := 0 to |eventIndex|
        invariant forall l :: 0 <= l < i ==> !Scans(m.terms[l], bit)
      {
        var terms := pos[eventIndex[i]];
        var k, p := 0, 0;
        while k < TERMS && p >= 0
          invariant 0 <= k <= TERMS
          invariant forall l :: 0 <= l < k ==> terms[l] != bit
          invariant forall l :: 0 <= l < k - 1 ==> terms[l] >= 0
          invariant p == if k == 0 then 0 else terms[k - 1]
        {
          p := terms[k];
          if bit == p {
            assert Scans(terms, bit);
            return i;
          }
          k := k + 1;
        }
        assert !Scans(terms, bit);
      }
      return |eventIndex|;
    }

    /** The loop that takes the lowest bit out of the vector and dispatches its event. */
    method Drain(ghost m: Monitor, vector: nat, over: seq<int>, len: nat) returns (ok: bool, calls: seq<Call>)
      requires WellFormed(m) && |over| == |m.terms| == |eventIndex| && vector < Pow2(len + len)
      requires forall i :: 0 <= i < |eventIndex| ==> eventIndex[i] < |pos| && pos[eventIndex[i]] == m.terms[i]
      ensures Drained(calls, ok) == OverflowModel.Drain(m, vector, over)
    {
      var v: nat := vector;
      calls := [];
      while v != 0
        invariant v < Pow2(len + len)
        invariant Continues(m, vector, over, calls, v)
        decreases Ones(v)
      {
        var bit, rest := TakeLowest(v, len);
        var j := FindEvent(m, bit);
        if j == |eventIndex| {
          ContinuesEnd(m, vector, over, calls, v);
          return false, calls;
        }
        ContinuesStep(m, vector, over, calls, v, bit, j, rest);
        calls := calls + [Call(j, over[j])];
        v := rest;
      }
      ContinuesEnd(m, vector, over, calls, 0);
      return true, calls;
    }

    /** The vector goes to the profile dispatcher, or to the user's handler. */
    method Deliver(ghost m: Monitor, vector: nat, over: seq<int>, len: nat)
      returns (retval: int, calls: seq<Call>, handled: Option<nat>)
      requires WellFormed(m) && |over| == |m.terms| == |eventIndex| && vector < Pow2(len + len)
      requires forall i :: 0 <= i < |eventIndex| ==> eventIndex[i] < |pos| && pos[eventIndex[i]] == m.terms[i]
      ensures Delivered(m, vector, over, profiling, retval, calls, handled)
    {
      retval, calls, handled := PAPI_OK, [], None;
      if profiling {
        var ok;
        ok, calls := Drain(m, vector, over, len);
        if !ok {
          retval := PAPI_EBUG;
        }
      } else {
        handled := Some(vector);
      }
    }

    /** Software overflow: the scan, and the dispatches if some event is past its deadline. */
    method DispatchSoftware(stop: seq<int>, len: nat) returns (retval: int, calls: seq<Call>, handled: Option<nat>)
      requires Valid(stop) && forall i :: 0 <= i < |eventIndex| ==> pos[eventIndex[i]][0] < len + len
      modifies deadline
      ensures var m := old(View(stop));
        |m.terms| == deadline.Length && SoftwareOutcome(m, profiling, retval, calls, handled)
      ensures var m := old(View(stop)); Rearmed(m, deadline[..])
      ensures profiling ==>
        var m := old(View(stop)); ExactlyOnce(m, Drained(calls, retval == PAPI_OK)) <==> SelfOwned(m)
    {
      ghost var m := View(stop);
      var flag, vector, temp := ScanDeadlines(stop);
      VectorFits(m, |m.terms|, len + len);
      SoftwareNeverFails(m);
      retval, calls, handled := PAPI_OK, [], None;
      if flag {
        retval, calls, handled := Deliver(m, vector, temp, len);
      }
      SoftwareIsDispatches(m, profiling, retval, calls, handled);
    }

    /** Hardware overflow: the component's vector, or the bit of the first event. */
    method DispatchHardware(ghost m: Monitor, overflowBit: nat, genOverflowBit: bool, len: nat)
      returns (retval: int, calls: seq<Call>, handled: Option<nat>)
      requires WellFormed(m) && |m.terms| == |eventIndex| && overflowBit < Pow2(len + len)
      requires forall i :: 0 <= i < |eventIndex| ==> eventIndex[i] < |pos| && pos[eventIndex[i]] == m.terms[i]
      requires genOverflowBit ==> |eventIndex| > 0 && m.terms[0][0] < len + len
      ensures Delivered(m, if genOverflowBit then Pow2(m.terms[0][0]) else overflowBit, seq(|m.terms|, _ => 0),
                        profiling, retval, calls, handled)
    {
      var vector := overflowBit;
      if genOverflowBit {
        var p := pos[eventIndex[0]][0];
        vector := Pow2(p);
        Pow2Grows(p, len + len);
      }
      retval, calls, handled := Deliver(m, vector, seq(|eventIndex|, _ => 0), len);
    }

    /** The code with which the handler gives up before it looks at an event, if it does. */
    function EarlyReturn(cidx: nat, thread: nat, status: int): Option<int>
      reads this
    {
      if !overflowing then Some(PAPI_OK)
      else if cmpIdx != cidx then Some(PAPI_ENOCMP)
      else if master != thread then Some(PAPI_EBUG)
      else if !hardware && status < PAPI_OK then Some(status)
      else None
    }

    /** _papi_hwi_dispatch_overflow_signal for the running event set of the thread and
        component. `status` and `stop` are what reading the counters returns; the calls are
        those of the profile dispatcher, `handled` the vector given to a user handler. */
    method DispatchOverflow(cidx: nat, thread: nat, status: int, stop: seq<int>, overflowBit: nat, genOverflowBit: bool,
                            wantsHardware: bool, len: nat)
      returns (retval: int, calls: seq<Call>, handled: Option<nat>, isHardware: bool)
      requires Valid(stop) && (hardware && genOverflowBit ==> |eventIndex| > 0) && overflowBit < Pow2(len + len)
      requires forall i :: 0 <= i < |eventIndex| ==> pos[eventIndex[i]][0] < len + len
      modifies this`paused, deadline
      ensures var early := EarlyReturn(cidx, thread, status);
        early.Some? ==> retval == early.value && calls == [] && handled == None && deadline[..] == old(deadline[..])
      ensures EarlyReturn(cidx, thread, status).None? && !hardware ==>
        var m := old(View(stop)); |m.terms| == deadline.Length && SoftwareOutcome(m, profiling, retval, calls, handled)
      ensures EarlyReturn(cidx, thread, status).None? && !hardware ==>
        var m := old(View(stop)); Rearmed(m, deadline[..])
      ensures EarlyReturn(cidx, thread, status).None? && !hardware && profiling ==>
        var m := old(View(stop)); ExactlyOnce(m, Drained(calls, retval == PAPI_OK)) <==> SelfOwned(m)
      ensures EarlyReturn(cidx, thread, status).None? && hardware ==>
        var m := old(View(stop)); |m.terms| == |eventIndex| && deadline[..] == old(deadline[..])
      ensures EarlyReturn(cidx, thread, status).None? && hardware ==>
        var m := old(View(stop));
        Delivered(m, if genOverflowBit then Pow2(m.terms[0][0]) else overflowBit, seq(|m.terms|, _ => 0),
                  profiling, retval, calls, handled)
      ensures isHardware <==> overflowing && cmpIdx == cidx && master == thread && hardware && wantsHardware
      ensures paused == if EarlyReturn(cidx, thread, status).Some? then old(paused)
                        else retval != PAPI_OK && (old(paused) || isHardware)
    {
      retval, calls, handled, isHardware := PAPI_OK, [], None, false;
      if !overflowing {
        return;
      }
      if cmpIdx != cidx {
        return PAPI_ENOCMP, [], None, false;
      }
      if master != thread {
        return PAPI_EBUG, [], None, false;
      }
      if wantsHardware && hardware {
        paused := true;
        isHardware := true;
      }
      if !hardware {
        if status < PAPI_OK {
          return status, [], None, isHardware;
        }
        retval, calls, handled := DispatchSoftware(stop, len);
      } else {
        retval, calls, handled := DispatchHardware(View(stop), overflowBit, genOverflowBit, len);
      }
      if retval == PAPI_OK {
        paused := false;
      }
    }
  }

  /** With profiling, every bit's event is dispatched, or an error ends it at the first
      bit that is no event's; without, the handler gets the vector. */
  ghost predicate Delivered(m: Monitor, vector: nat, over: seq<int>, profiling: bool,
                            retval: int, calls: seq<Call>, handled: Option<nat>)
    requires WellFormed(m) && |over| == |m.terms|
  {
    if profiling then
      var d := OverflowModel.Drain(m, vector, over);
      calls == d.calls && handled == None && retval == if d.ok then PAPI_OK else PAPI_EBUG
    else
      calls == [] && handled == Some(vector) && retval == PAPI_OK
  }

  ghost predicate AnyOverflowed(m: Monitor)
    requires WellFormed(m)
  {
    exists i :: 0 <= i < |m.terms| && Overflowed(m, i)
  }

  /** Software overflow: nothing without an overflowed event; otherwise the dispatches of
      the model without an error, or the vector for the handler. */
  ghost predicate SoftwareOutcome(m: Monitor, profiling: bool, retval: int, calls: seq<Call>, handled: Option<nat>)
    requires WellFormed(m)
  {
    && retval == PAPI_OK
    && if AnyOverflowed(m) then Delivered(m, Vector(m, |m.terms|), Excesses(m), profiling, retval, calls, handled)
       else calls == [] && handled == None
  }

  /** With profiling these are the model's dispatches, whether or not an event overflowed. */
  lemma SoftwareIsDispatches(m: Monitor, profiling: bool, retval: int, calls: seq<Call>, handled: Option<nat>)
    requires WellFormed(m) && SoftwareOutcome(m, profiling, retval, calls, handled)
    ensures profiling ==> Drained(calls, retval == PAPI_OK) == Dispatches(m)
    ensures profiling ==> (ExactlyOnce(m, Drained(calls, retval == PAPI_OK)) <==> SelfOwned(m))
  {
    SoftwareNeverFails(m);
    ExactlyOnceIffSelfOwned(m);
    if !AnyOverflowed(m) {
      NoneOverflowed(m, |m.terms|);
    }
  }

  /** The positions of the monitored events keep the vector in a word. */
  lemma {:induction false} VectorFits(m: Monitor, n: nat, w: nat)
    requires WellFormed(m) && n <= |m.terms|
    requires forall i :: 0 <= i < |m.terms| ==> m.terms[i][0] < w
    ensures Vector(m, n) < Pow2(w)
  {
    if n > 0 {
      VectorFits(m, n - 1, w);
      if Overflowed(m, n - 1) {
        Pow2Grows(Pos(m, n - 1), w);
        OpsFit(Vector(m, n - 1), Pow2(Pos(m, n - 1)), w);
      }
    }
  }

  /** The calls made so far, followed by what is left, are all the calls. */
  ghost predicate Continues(m: Monitor, vector: nat, over: seq<int>, calls: seq<Call>, v: nat)
    requires WellFormed(m) && |over| == |m.terms|
  {
    var all, rest := OverflowModel.Drain(m, vector, over), OverflowModel.Drain(m, v, over);
    all.calls == calls + rest.calls && all.ok == rest.ok
  }

  /** One turn of the drain. */
  lemma DrainOnce(m: Monitor, v: nat, over: seq<int>, bit: nat, j: nat, rest: nat)
    requires WellFormed(m) && |over| == |m.terms| && v != 0 && bit == Ffs(v) - 1 && j == Owner(m, bit) < |m.terms|
    requires rest == Xor(v, Pow2(bit))
    ensures var d := OverflowModel.Drain(m, rest, over);
            OverflowModel.Drain(m, v, over) == Drained([Call(j, over[j])] + d.calls, d.ok)
  {
  }

  lemma ContinuesStep(m: Monitor, vector: nat, over: seq<int>, calls: seq<Call>, v: nat, bit: nat, j: nat, left: nat)
    requires WellFormed(m) && |over| == |m.terms| && v != 0 && bit == Ffs(v) - 1 && j == Owner(m, bit) < |m.terms|
    requires left == Xor(v, Pow2(bit)) && Continues(m, vector, over, calls, v)
    ensures Continues(m, vector, over, calls + [Call(j, over[j])], left)
  {
    DrainOnce(m, v, over, bit, j, left);
    var rest := OverflowModel.Drain(m, left, over).calls;
    assert calls + ([Call(j, over[j])] + rest) == calls + [Call(j, over[j])] + rest;
  }

  lemma ContinuesEnd(m: Monitor, vector: nat, over: seq<int>, calls: seq<Call>, v: nat)
    requires WellFormed(m) && |over| == |m.terms| && Continues(m, vector, over, calls, v)
    requires v != 0 ==> Ffs(v) > 0 && Owner(m, Ffs(v) - 1) == |m.terms|
    ensures Drained(calls, v == 0) == OverflowModel.Drain(m, vector, over)
  {
  }

  /** Taking the lowest bit out leaves a word with one bit less. */
  lemma TakenBit(v: nat, w: nat)
    requires 0 < v < Pow2(w)
    ensures Ffs(v) > 0 && Xor(v, Pow2(Ffs(v) - 1)) < Pow2(w)
    ensures Ones(Xor(v, Pow2(Ffs(v) - 1))) < Ones(v)
  {
    FfsLowest(v);
    var bit := Ffs(v) - 1;
    ClearingDropsOne(v, bit);
    BitFits(v, bit, w);
    OpsFit(v, Pow2(bit), w);
  }

  lemma BitFits(v: nat, bit: nat, w: nat)
    requires Bit(v, bit) && v < Pow2(w)
    ensures Pow2(bit) < Pow2(w)
  {
    if w <= bit {
      HighBits(v, w, bit);
    } else {
      Pow2Grows(bit, w);
    }
  }
}
