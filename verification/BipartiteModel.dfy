/** Counter allocation on sets: every event comes with the set of counters it can live
    on. What unit propagation and the trials of the backtracking search keep. */
module BipartiteModel {
  import opened Finite

  type CounterMap = set<nat>

  // ---------- What an allocation is ----------

  /** Counter f[i] is given to event i: it is one the event can live on, and no
      two events share a counter. */
  ghost predicate Assigns(events: seq<CounterMap>, f: seq<nat>)
  {
    && |f| == |events|
    && (forall i :: 0 <= i < |f| ==> f[i] in events[i])
    && (forall i, j :: 0 <= i < j < |f| ==> f[i] != f[j])
  }

  ghost predicate Assignable(events: seq<CounterMap>)
  {
    exists f: seq<nat> :: Assigns(events, f)
  }

  /** Every event is left with exactly the counter f gives it. */
  ghost predicate Settled(events: seq<CounterMap>, f: seq<nat>)
  {
    |f| == |events| && forall i :: 0 <= i < |f| ==> events[i] == {f[i]}
  }

  ghost predicate InRange(events: seq<CounterMap>, numCntrs: nat)
  {
    forall i :: 0 <= i < |events| ==> forall c :: c in events[i] ==> c < numCntrs
  }

  // ---------- What the map helpers mean ----------

  predicate MapAvail(dst: CounterMap, ctr: nat) { ctr in dst }

  function MapSet(ctr: nat): CounterMap { {ctr} }

  predicate MapExclusive(dst: CounterMap) { |dst| == 1 }

  predicate MapShared(dst: CounterMap, src: CounterMap) { dst * src != {} }

  function MapPreempt(dst: CounterMap, src: CounterMap): CounterMap { dst - src }

  function MapUpdate(src: CounterMap): CounterMap { src }

  // ---------- Termination measure ----------

  /** The events that do not live on exactly one counter. */
  ghost function NonExclusive(events: seq<CounterMap>): set<nat>
  {
    set i: nat | i < |events| && !MapExclusive(events[i])
  }

  // ---------- Unit propagation ----------

  lemma SoleMember(m: CounterMap) returns (c: nat)
    requires MapExclusive(m)
    ensures m == {c}
  {
    c :| c in m;
    assert |m - {c}| == 0;
  }

  /** Taking an exclusive event's counter away from another event loses no
      assignment and admits none. */
  lemma PreemptKeepsAssignments(events: seq<CounterMap>, q: nat, i: nat, f: seq<nat>)
    requires q < |events| && i < |events| && i != q && MapExclusive(events[q])
    ensures Assigns(events, f) <==> Assigns(events[i := MapPreempt(events[i], events[q])], f)
  {
    var after := events[i := MapPreempt(events[i], events[q])];
    var c := SoleMember(events[q]);
    if Assigns(events, f) {
      assert f[q] == c && f[i] != c;
      assert Assigns(after, f);
    }
    if Assigns(after, f) {
      forall k | 0 <= k < |f| ensures f[k] in events[k] {
        assert f[k] in after[k];
      }
    }
  }

  /** Two exclusive events on one counter cannot both be placed. */
  lemma ConflictRefutes(events: seq<CounterMap>, q: nat, i: nat)
    requires q < |events| && i < |events| && i != q
    requires MapExclusive(events[q]) && MapExclusive(events[i]) && MapShared(events[i], events[q])
    ensures !Assignable(events)
  {
    var c := SoleMember(events[q]);
    var d := SoleMember(events[i]);
    assert c == d;
    forall f: seq<nat> | |f| == |events| ensures !Assigns(events, f) {
      if f[q] in events[q] && f[i] in events[i] {
        assert f[q] == f[i];
      }
    }
  }

  ghost predicate SameAssignments(a: seq<CounterMap>, b: seq<CounterMap>)
  {
    |a| == |b| && forall f :: Assigns(a, f) <==> Assigns(b, f)
  }

  /** The queue holds exactly the exclusive events, each once. */
  ghost predicate QueueOk(events: seq<CounterMap>, q: seq<nat>)
  {
    && (forall k :: 0 <= k < |q| ==> q[k] < |events| && MapExclusive(events[q[k]]))
    && Distinct(q)
    && (forall i :: 0 <= i < |events| && MapExclusive(events[i]) ==> i in q)
  }

  /** The exclusive events among the first n, in order. */
  function Exclusives(events: seq<CounterMap>, n: nat): (q: seq<nat>)
    requires n <= |events|
    ensures forall k :: 0 <= k < |q| ==> q[k] < n && MapExclusive(events[q[k]])
    ensures forall k, l :: 0 <= k < l < |q| ==> q[k] < q[l]
    ensures forall i :: 0 <= i < n && MapExclusive(events[i]) ==> i in q
  {
    if n == 0 then [] else Exclusives(events, n - 1) + if MapExclusive(events[n - 1]) then [n - 1] else []
  }

  lemma ExclusivesQueued(events: seq<CounterMap>)
    ensures QueueOk(events, Exclusives(events, |events|))
  {
  }

  /** Event x shares no counter with any of the first `upTo` other events. */
  ghost predicate Alone(events: seq<CounterMap>, x: nat, upTo: nat)
    requires x < |events| && upTo <= |events|
  {
    forall j :: 0 <= j < upTo && j != x ==> !MapShared(events[j], events[x])
  }

  /** What one pass over the events for the queued event x has kept and done. */
  ghost predicate Shrunk(before: seq<CounterMap>, after: seq<CounterMap>)
  {
    && |before| == |after|
    && (forall i :: 0 <= i < |before| ==> after[i] <= before[i])
    && (forall i :: 0 <= i < |before| && MapExclusive(before[i]) ==> after[i] == before[i])
  }

  /** The maps after event i lost what the exclusive event x has. */
  function Preempted(was: seq<CounterMap>, x: nat, i: nat): (r: seq<CounterMap>)
    requires x < |was| && i < |was|
    ensures |r| == |was|
  {
    was[i := MapPreempt(was[i], was[x])]
  }

  /** The queue after event i lost a counter. */
  ghost function Requeued(q: seq<nat>, after: seq<CounterMap>, i: nat): seq<nat>
    requires i < |after|
  {
    if MapExclusive(after[i]) then q + [i] else q
  }

  lemma RequeuedOk(was: seq<CounterMap>, q: seq<nat>, x: nat, i: nat)
    requires QueueOk(was, q) && x < |was| && i < |was| && i != x && !MapExclusive(was[i])
    ensures QueueOk(Preempted(was, x, i), Requeued(q, Preempted(was, x, i), i))
    ensures |q| < |was|
  {
    var after := Preempted(was, x, i);
    var q' := Requeued(q, after, i);
    assert i !in q;
    FullIffAll(q, |was|);
    forall k | 0 <= k < |after| && MapExclusive(after[k]) ensures k in q' {
      assert k != i ==> k in q;
      assert k == i ==> q'[|q|] == i;
    }
  }

  lemma PreemptedSame(before: seq<CounterMap>, was: seq<CounterMap>, x: nat, i: nat)
    requires SameAssignments(before, was) && x < |was| && i < |was| && i != x && MapExclusive(was[x])
    ensures SameAssignments(before, Preempted(was, x, i))
  {
    forall f: seq<nat> ensures Assigns(before, f) <==> Assigns(Preempted(was, x, i), f) {
      PreemptKeepsAssignments(was, x, i, f);
    }
  }

  lemma PreemptedAlone(was: seq<CounterMap>, x: nat, i: nat)
    requires x < |was| && i < |was| && i != x && Alone(was, x, i)
    ensures Alone(Preempted(was, x, i), x, i + 1)
  {
    assert MapPreempt(was[i], was[x]) * was[x] == {};
  }

  /** One preempt of the inner scan, on the sequence of maps and the queue. */
  lemma ScanStep(before: seq<CounterMap>, was: seq<CounterMap>, q: seq<nat>, x: nat, i: nat)
    requires Scanning(before, was, q, x, i) && i < |was| && i != x && !MapExclusive(was[i])
    ensures var after := Preempted(was, x, i); Scanning(before, after, Requeued(q, after, i), x, i + 1)
  {
    assert MapExclusive(was[x]);
    RequeuedOk(was, q, x, i);
    PreemptedSame(before, was, x, i);
    PreemptedAlone(was, x, i);
    assert Shrunk(before, Preempted(was, x, i));
  }

  /** The invariant of the scan for the queued event x, before it looks at event i. */
  ghost predicate Scanning(before: seq<CounterMap>, now: seq<CounterMap>, q: seq<nat>, x: nat, i: nat)
  {
    && SameAssignments(before, now) && Shrunk(before, now)
    && QueueOk(now, q) && x in q && x < |now| && i <= |now| && Alone(now, x, i)
  }

  /** An event that does not compete with x needs no change. */
  lemma ScanSkip(before: seq<CounterMap>, now: seq<CounterMap>, q: seq<nat>, x: nat, i: nat)
    requires Scanning(before, now, q, x, i) && i < |now|
    requires i == x || !MapShared(now[i], now[x])
    ensures Scanning(before, now, q, x, i + 1)
  {
  }

  /** The invariant of the propagation loop: nothing has been lost since it
      started, the queue is right, and each of its first `head` events has been
      served and marked. */
  ghost predicate Propagating(before: seq<CounterMap>, now: seq<CounterMap>, q: seq<nat>, mapQ: seq<bool>, head: nat)
  {
    && SameAssignments(before, now) && Shrunk(before, now) && QueueOk(now, q) && head <= |q|
    && (forall k :: 0 <= k < head ==> Alone(now, q[k], |now|))
    && |mapQ| == |now| && (forall i :: 0 <= i < |mapQ| ==> (mapQ[i] <==> i in q[..head]))
  }

  lemma PropagateStep(before: seq<CounterMap>, now: seq<CounterMap>, q: seq<nat>, mapQ: seq<bool>, head: nat,
                      after: seq<CounterMap>, q': seq<nat>)
    requires Propagating(before, now, q, mapQ, head) && head < |q|
    requires SameAssignments(now, after) && Shrunk(now, after)
    requires QueueOk(after, q') && q <= q' && Alone(after, q[head], |after|)
    ensures Propagating(before, after, q', mapQ[q[head] := true], head + 1)
  {
    assert q'[..head + 1] == q[..head] + [q[head]];
    forall k | 0 <= k < head + 1 ensures Alone(after, q'[k], |after|) {
      if k < head {
        assert Alone(now, q[k], |now|);
      }
    }
  }

  /** What holds when propagation succeeds: marked means exclusive, and a marked
      event's counter is in no other event's map. */
  ghost predicate Propagated(before: seq<CounterMap>, now: seq<CounterMap>, mapQ: seq<bool>)
  {
    && SameAssignments(before, now) && Shrunk(before, now) && |mapQ| == |now|
    && (forall i :: 0 <= i < |mapQ| ==> (mapQ[i] <==> MapExclusive(now[i])))
    && (forall i :: 0 <= i < |mapQ| && mapQ[i] ==> Alone(now, i, |now|))
  }

  lemma PropagateDone(before: seq<CounterMap>, now: seq<CounterMap>, q: seq<nat>, mapQ: seq<bool>)
    requires Propagating(before, now, q, mapQ, |q|)
    ensures Propagated(before, now, mapQ)
    ensures |q| <= |now|
    ensures |q| == |now| <==> forall i :: 0 <= i < |mapQ| ==> mapQ[i]
  {
    assert q[..|q|] == q;
    FullIffAll(q, |now|);
    forall i | 0 <= i < |mapQ| && mapQ[i] ensures Alone(now, i, |now|) {
      var k :| 0 <= k < |q| && q[k] == i;
    }
    if forall i :: 0 <= i < |mapQ| ==> mapQ[i] {
      assert forall i: nat :: i < |now| ==> i in q;
    }
  }

  // ---------- The events propagation leaves open ----------

  /** The indices of the unmarked events, in order. */
  function Unmapped(mapQ: seq<bool>): seq<nat>
  {
    if mapQ == [] then []
    else
      var last := |mapQ| - 1;
      Unmapped(mapQ[..last]) + if mapQ[last] then [] else [last]
  }

  lemma {:induction false} UnmappedIndices(mapQ: seq<bool>)
    ensures forall i: nat :: i in Unmapped(mapQ) <==> i < |mapQ| && !mapQ[i]
  {
    if mapQ != [] {
      var last := |mapQ| - 1;
      UnmappedIndices(mapQ[..last]);
      forall i: nat ensures i in Unmapped(mapQ) <==> i < |mapQ| && !mapQ[i] {
        assert i in Unmapped(mapQ[..last]) <==> i < last && !mapQ[i];
      }
    }
  }

  lemma {:induction false} UnmappedDistinct(mapQ: seq<bool>)
    ensures Distinct(Unmapped(mapQ))
  {
    if mapQ != [] {
      var last := |mapQ| - 1;
      UnmappedDistinct(mapQ[..last]);
      UnmappedInRange(mapQ[..last]);
    }
  }

  lemma UnmappedInRange(mapQ: seq<bool>)
    ensures forall j :: 0 <= j < |Unmapped(mapQ)| ==> Unmapped(mapQ)[j] < |mapQ| && !mapQ[Unmapped(mapQ)[j]]
  {
    UnmappedIndices(mapQ);
    forall j | 0 <= j < |Unmapped(mapQ)| ensures Unmapped(mapQ)[j] < |mapQ| && !mapQ[Unmapped(mapQ)[j]] {
      assert Unmapped(mapQ)[j] in Unmapped(mapQ);
    }
  }

  ghost function Rest(now: seq<CounterMap>, mapQ: seq<bool>): seq<CounterMap>
    requires |now| == |mapQ|
  {
    UnmappedInRange(mapQ);
    Select(now, Unmapped(mapQ))
  }

  /** An assignment of all events assigns the open ones. */
  lemma AssignsRest(now: seq<CounterMap>, mapQ: seq<bool>, f: seq<nat>) returns (g: seq<nat>)
    requires |now| == |mapQ| && Assigns(now, f)
    ensures Assigns(Rest(now, mapQ), g)
  {
    UnmappedInRange(mapQ);
    UnmappedDistinct(mapQ);
    var u := Unmapped(mapQ);
    g := Select(f, u);
    forall a, b | 0 <= a < b < |g| ensures g[a] != g[b] {
      assert u[a] != u[b];
      if u[a] < u[b] {
        assert f[u[a]] != f[u[b]];
      } else {
        assert f[u[b]] != f[u[a]];
      }
    }
  }

  /** Where an open event stands in the list of open events. */
  lemma PlaceOf(mapQ: seq<bool>, i: nat) returns (j: nat)
    requires i < |mapQ| && !mapQ[i]
    ensures j < |Unmapped(mapQ)| && Unmapped(mapQ)[j] == i
  {
    UnmappedIndices(mapQ);
    j :| 0 <= j < |Unmapped(mapQ)| && Unmapped(mapQ)[j] == i;
  }

  /** f is g on the open events and the sole counter on the mapped ones. */
  ghost predicate Merged(now: seq<CounterMap>, mapQ: seq<bool>, g: seq<nat>, f: seq<nat>)
    requires |now| == |mapQ| && |g| == |Unmapped(mapQ)|
  {
    && |f| == |now|
    && (forall i :: 0 <= i < |f| && mapQ[i] ==> now[i] == {f[i]})
    && (forall j :: 0 <= j < |g| ==> Unmapped(mapQ)[j] < |f| && f[Unmapped(mapQ)[j]] == g[j])
  }

  lemma {:induction false} Merge(now: seq<CounterMap>, mapQ: seq<bool>, g: seq<nat>) returns (f: seq<nat>)
    requires |now| == |mapQ| && |g| == |Unmapped(mapQ)|
    requires forall i :: 0 <= i < |mapQ| && mapQ[i] ==> MapExclusive(now[i])
    ensures Merged(now, mapQ, g, f)
  {
    if mapQ == [] {
      return [];
    }
    var last := |mapQ| - 1;
    var u := Unmapped(mapQ[..last]);
    f := Merge(now[..last], mapQ[..last], g[..|u|]);
    UnmappedInRange(mapQ[..last]);
    var c: nat;
    if mapQ[last] {
      c := SoleMember(now[last]);
    } else {
      c := g[|u|];
    }
    f := f + [c];
  }

  lemma MergedAssigns(now: seq<CounterMap>, mapQ: seq<bool>, g: seq<nat>, f: seq<nat>)
    requires |now| == |mapQ| && Assigns(Rest(now, mapQ), g) && Merged(now, mapQ, g, f)
    requires forall i :: 0 <= i < |mapQ| && mapQ[i] ==> Alone(now, i, |now|)
    ensures Assigns(now, f)
  {
    UnmappedInRange(mapQ);
    forall i | 0 <= i < |f| ensures f[i] in now[i] {
      if !mapQ[i] {
        var j := PlaceOf(mapQ, i);
        assert g[j] in Rest(now, mapQ)[j];
      }
    }
    forall a, b | 0 <= a < b < |f| ensures f[a] != f[b] {
      assert f[a] in now[a] && f[b] in now[b];
      if mapQ[a] {
        assert Alone(now, a, |now|);
        assert f[b] !in now[b] * now[a];
      } else if mapQ[b] {
        assert Alone(now, b, |now|);
        assert f[a] !in now[a] * now[b];
      } else {
        var i, j := PlaceOf2(mapQ, a, b);
      }
    }
  }

  lemma PlaceOf2(mapQ: seq<bool>, a: nat, b: nat) returns (i: nat, j: nat)
    requires a < b < |mapQ| && !mapQ[a] && !mapQ[b]
    ensures i < |Unmapped(mapQ)| && Unmapped(mapQ)[i] == a
    ensures j < |Unmapped(mapQ)| && Unmapped(mapQ)[j] == b
    ensures i != j
  {
    i := PlaceOf(mapQ, a);
    j := PlaceOf(mapQ, b);
  }

  /** The open events are as many as the non-exclusive ones. */
  lemma RestSize(now: seq<CounterMap>, mapQ: seq<bool>)
    requires |now| == |mapQ|
    requires forall i :: 0 <= i < |mapQ| ==> (mapQ[i] <==> MapExclusive(now[i]))
    ensures |Unmapped(mapQ)| == |NonExclusive(now)|
  {
    UnmappedIndices(mapQ);
    UnmappedDistinct(mapQ);
    DistinctSize(Unmapped(mapQ));
    assert Elements(Unmapped(mapQ)) == NonExclusive(now);
  }

  // ---------- One trial ----------

  /** The first open event forced onto counter c, which all others lose. */
  ghost function Trial(backup: seq<CounterMap>, c: nat): (r: seq<CounterMap>)
    ensures |r| == |backup|
  {
    seq(|backup|, j requires 0 <= j < |backup| => if j == 0 then MapSet(c) else backup[j] - {c})
  }

  /** The trial when the counter has been taken from the events before j. */
  ghost function TrialUpTo(list: seq<CounterMap>, c: nat, j: nat): (r: seq<CounterMap>)
    ensures |r| == |list|
    ensures j >= |list| ==> r == Trial(list, c)
  {
    seq(|list|, k requires 0 <= k < |list| => if k == 0 then MapSet(c) else if k < j then list[k] - {c} else list[k])
  }

  lemma TrialStep(list: seq<CounterMap>, c: nat, j: nat)
    requires 0 < j < |list|
    ensures var now := TrialUpTo(list, c, j);
            TrialUpTo(list, c, j + 1) == if MapShared(now[j], now[0]) then Preempted(now, 0, j) else now
  {
    var now := TrialUpTo(list, c, j);
    if !MapShared(now[j], now[0]) {
      assert c !in list[j] * {c};
      assert list[j] - {c} == list[j];
    }
  }

  /** A trial keeps exactly the assignments that give the first event counter c. */
  lemma TrialAssignments(backup: seq<CounterMap>, c: nat, f: seq<nat>)
    requires |backup| > 0 && c in backup[0]
    ensures Assigns(Trial(backup, c), f) <==> Assigns(backup, f) && f[0] == c
  {
    var t := Trial(backup, c);
    if Assigns(t, f) {
      assert f[0] in t[0];
      forall k | 0 <= k < |f| ensures f[k] in backup[k] {
        assert f[k] in t[k];
      }
    }
    if Assigns(backup, f) && f[0] == c {
      forall k | 0 <= k < |f| ensures f[k] in t[k] {
        assert k > 0 ==> f[0] != f[k];
      }
    }
  }

  lemma TrialShrinks(backup: seq<CounterMap>, c: nat)
    requires |backup| > 0
    ensures |NonExclusive(Trial(backup, c))| < |backup|
  {
    var others := Below(|backup|) - {0};
    assert NonExclusive(Trial(backup, c)) <= others;
    SubsetSize(NonExclusive(Trial(backup, c)), others);
  }

  lemma RestStep(now: seq<CounterMap>, mapQ: seq<bool>, i: nat)
    requires |now| == |mapQ| && i < |now|
    ensures Rest(now[..i + 1], mapQ[..i + 1])
         == Rest(now[..i], mapQ[..i]) + if mapQ[i] then [] else [now[i]]
    ensures |Unmapped(mapQ[..i + 1])| == |Unmapped(mapQ[..i])| + if mapQ[i] then 0 else 1
  {
    var m := mapQ[..i + 1];
    assert m[..i] == mapQ[..i];
    UnmappedInRange(m[..i]);
    UnmappedInRange(m);
  }

  lemma {:induction false} UnmappedGrows(mapQ: seq<bool>, i: nat)
    requires i <= |mapQ|
    ensures |Unmapped(mapQ[..i])| <= |Unmapped(mapQ)|
  {
    if i < |mapQ| {
      var init := mapQ[..|mapQ| - 1];
      UnmappedGrows(init, i);
      assert init[..i] == mapQ[..i];
    } else {
      assert mapQ[..i] == mapQ;
    }
  }

  /** The open events carry what `rest` says, the mapped ones are untouched. */
  ghost predicate Scattered(now: seq<CounterMap>, mapQ: seq<bool>, rest: seq<CounterMap>, after: seq<CounterMap>)
    requires |now| == |mapQ|
  {
    && |after| == |now| && |rest| == |Unmapped(mapQ)|
    && (forall i :: 0 <= i < |now| && mapQ[i] ==> after[i] == now[i])
    && (forall j :: 0 <= j < |rest| ==> Unmapped(mapQ)[j] < |now| && after[Unmapped(mapQ)[j]] == rest[j])
  }

  lemma ScatterMapped(now: seq<CounterMap>, mapQ: seq<bool>, rest: seq<CounterMap>, after: seq<CounterMap>, i: nat)
    requires |now| == |mapQ| && i < |now| && mapQ[i] && Scattered(now[..i], mapQ[..i], rest, after)
    ensures Scattered(now[..i + 1], mapQ[..i + 1], rest, after + [now[i]])
  {
    assert mapQ[..i + 1][..i] == mapQ[..i];
  }

  lemma ScatterOpen(now: seq<CounterMap>, mapQ: seq<bool>, rest: seq<CounterMap>, after: seq<CounterMap>, i: nat,
                    m: CounterMap)
    requires |now| == |mapQ| && i < |now| && !mapQ[i] && Scattered(now[..i], mapQ[..i], rest, after)
    ensures Scattered(now[..i + 1], mapQ[..i + 1], rest + [m], after + [m])
  {
    assert mapQ[..i + 1][..i] == mapQ[..i];
  }

  lemma {:induction false} NoneUnmapped(mapQ: seq<bool>)
    requires forall i :: 0 <= i < |mapQ| ==> mapQ[i]
    ensures Unmapped(mapQ) == []
  {
    if mapQ != [] { NoneUnmapped(mapQ[..|mapQ| - 1]); }
  }

  /** Events all left with one counter and alone on it are settled by one assignment. */
  lemma AllMapped(before: seq<CounterMap>, now: seq<CounterMap>, mapQ: seq<bool>) returns (f: seq<nat>)
    requires Propagated(before, now, mapQ) && forall i :: 0 <= i < |mapQ| ==> mapQ[i]
    ensures Assigns(before, f) && Settled(now, f)
  {
    UnmappedInRange(mapQ);
    f := Merge(now, mapQ, seq(|Unmapped(mapQ)|, _ => 0));
    NoneUnmapped(mapQ);
    MergedAssigns(now, mapQ, [], f);
  }

  /** An assignment of the open events, merged with the mapped ones, settles all. */
  lemma RestSettles(before: seq<CounterMap>, now: seq<CounterMap>, mapQ: seq<bool>, rest: seq<CounterMap>,
                    g: seq<nat>, after: seq<CounterMap>) returns (f: seq<nat>)
    requires Propagated(before, now, mapQ) && Assigns(Rest(now, mapQ), g)
    requires Settled(rest, g) && Scattered(now, mapQ, rest, after)
    ensures Assigns(before, f) && Settled(after, f)
  {
    f := Merge(now, mapQ, g);
    MergedAssigns(now, mapQ, g, f);
    forall i | 0 <= i < |f| ensures after[i] == {f[i]} {
      if !mapQ[i] {
        var j := PlaceOf(mapQ, i);
      }
    }
  }

  /** No assignment of the open events: none at all. */
  lemma RestRefutes(before: seq<CounterMap>, now: seq<CounterMap>, mapQ: seq<bool>)
    requires Propagated(before, now, mapQ) && !Assignable(Rest(now, mapQ))
    ensures !Assignable(before)
  {
    forall f ensures !Assigns(before, f) {
      if Assigns(now, f) {
        var g := AssignsRest(now, mapQ, f);
      }
    }
  }

  lemma RestFacts(before: seq<CounterMap>, now: seq<CounterMap>, mapQ: seq<bool>, numCntrs: nat)
    requires Propagated(before, now, mapQ) && InRange(before, numCntrs)
    ensures InRange(Rest(now, mapQ), numCntrs)
    ensures |Rest(now, mapQ)| == |Unmapped(mapQ)| <= |NonExclusive(before)|
    ensures (exists i :: 0 <= i < |mapQ| && !mapQ[i]) ==> |Unmapped(mapQ)| > 0
  {
    UnmappedInRange(mapQ);
    UnmappedIndices(mapQ);
    RestSize(now, mapQ);
    assert NonExclusive(now) <= NonExclusive(before);
    SubsetSize(NonExclusive(now), NonExclusive(before));
  }

  /** Each event's counter as the set a settled event stands for. */
  ghost function Singles(f: seq<nat>): (r: seq<CounterMap>)
    ensures |r| == |f| && forall i :: 0 <= i < |r| ==> r[i] == {f[i]}
  {
    seq(|f|, i requires 0 <= i < |f| => {f[i]})
  }

  /** No assignment gives the head a counter below c. */
  ghost predicate TriedBelow(list: seq<CounterMap>, c: nat)
    requires |list| > 0
  {
    forall f :: Assigns(list, f) ==> f[0] >= c
  }

  /** A trial that fails, or is not made because the head cannot have the counter, rules
      the counter out. */
  lemma TriedNext(list: seq<CounterMap>, c: nat)
    requires |list| > 0 && TriedBelow(list, c) && (c in list[0] ==> !Assignable(Trial(list, c)))
    ensures TriedBelow(list, c + 1)
  {
    forall f | Assigns(list, f) ensures f[0] >= c + 1 {
      if f[0] == c {
        TrialAssignments(list, c, f);
      }
    }
  }

  lemma TriedAll(list: seq<CounterMap>, n: nat)
    requires |list| > 0 && TriedBelow(list, n) && InRange(list, n)
    ensures !Assignable(list)
  {
    forall f ensures Assigns(list, f) ==> f[0] in list[0] {
    }
  }

  lemma TrialFacts(list: seq<CounterMap>, c: nat, n: nat)
    requires |list| > 0 && c < n && InRange(list, n)
    ensures |NonExclusive(Trial(list, c))| < |list| && InRange(Trial(list, c), n)
  {
    TrialShrinks(list, c);
  }
}
