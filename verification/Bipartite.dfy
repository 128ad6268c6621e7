/** The allocator of papi_bipartite.h. A platform includes it and supplies the record
    of an event and the helpers on it; the allocator rewrites the records in place until
    each event is left with a counter of its own. */
module Bipartite {
  import opened Finite
  import opened BipartiteModel

  /** A platform's helpers on its records. `view` is the set of counters a record stands
      for; `valid` says that what the record keeps beside it is up to date; `blank` is a
      zeroed record. */
  datatype Helpers<!R> = Helpers(view: R -> CounterMap, valid: R -> bool, blank: R,
                                 avail: (R, nat) -> bool, force: (R, nat) -> R, exclusive: R -> bool,
                                 shared: (R, R) -> bool, preempt: (R, R) -> R, update: (R, R) -> R)

  // The contracts in the comments on the prototypes, for n counters.

  ghost predicate AvailMeets<R(!new)>(h: Helpers<R>, n: nat)
  {
    forall r, c: nat {:trigger h.avail(r, c)} ::
      h.valid(r) && c < n ==> (h.avail(r, c) <==> MapAvail(h.view(r), c))
  }

  ghost predicate ForceMeets<R(!new)>(h: Helpers<R>, n: nat)
  {
    forall r, c: nat {:trigger h.force(r, c)} ::
      c < n ==> h.valid(h.force(r, c)) && h.view(h.force(r, c)) == MapSet(c)
  }

  ghost predicate ExclusiveMeets<R(!new)>(h: Helpers<R>)
  {
    forall r {:trigger h.exclusive(r)} :: h.valid(r) ==> (h.exclusive(r) <==> MapExclusive(h.view(r)))
  }

  ghost predicate SharedMeets<R(!new)>(h: Helpers<R>)
  {
    forall d, s {:trigger h.shared(d, s)} ::
      h.valid(d) && h.valid(s) ==> (h.shared(d, s) <==> MapShared(h.view(d), h.view(s)))
  }

  ghost predicate PreemptMeets<R(!new)>(h: Helpers<R>)
  {
    forall d, s {:trigger h.preempt(d, s)} :: h.valid(d) && h.valid(s) ==>
      h.valid(h.preempt(d, s)) && h.view(h.preempt(d, s)) == MapPreempt(h.view(d), h.view(s))
  }

  /** The update only has to bring the counters over. */
  ghost predicate UpdateMeets<R(!new)>(h: Helpers<R>)
  {
    forall d, s {:trigger h.update(d, s)} :: h.view(h.update(d, s)) == MapUpdate(h.view(s))
  }

  ghost predicate Meets<R(!new)>(h: Helpers<R>, n: nat)
  {
    AvailMeets(h, n) && ForceMeets(h, n) && ExclusiveMeets(h) && SharedMeets(h) && PreemptMeets(h) && UpdateMeets(h)
  }

  /** The first `count` records stand for these sets. */
  ghost predicate Views<R>(h: Helpers<R>, events: array<R>, count: nat, maps: seq<CounterMap>)
    reads events
  {
    |maps| == count <= events.Length && forall i :: 0 <= i < count ==> h.view(events[i]) == maps[i]
  }

  ghost predicate Shows<R>(h: Helpers<R>, events: array<R>, count: nat, maps: seq<CounterMap>)
    reads events
  {
    Views(h, events, count, maps) && forall i :: 0 <= i < count ==> h.valid(events[i])
  }

  // ---------- Unit propagation ----------

  /** Take the counters of event x from event i. */
  method PreemptAt<R(!new)>(h: Helpers<R>, ghost n: nat, events: array<R>, count: nat, i: nat, x: nat,
                            ghost maps: seq<CounterMap>)
    requires Meets(h, n) && Shows(h, events, count, maps) && i < count && x < count
    modifies events
    ensures forall k :: 0 <= k < events.Length && k != i ==> events[k] == old(events[k])
    ensures Shows(h, events, count, Preempted(maps, x, i))
  {
    events[i] := h.preempt(events[i], events[x]);
  }

  /** The inner scan: the counter of the queue's head event is taken from every
      other event, and an event that becomes exclusive joins the queue, which
      never outgrows the number of events. */
  method PreemptOthers<R(!new)>(h: Helpers<R>, ghost n: nat, events: array<R>, count: nat, idxQ: seq<nat>, head: nat,
                                ghost before: seq<CounterMap>)
    returns (ok: bool, queue: seq<nat>, ghost now: seq<CounterMap>)
    requires Meets(h, n) && Shows(h, events, count, before) && head < |idxQ| && QueueOk(before, idxQ)
    modifies events
    ensures forall k :: count <= k < events.Length ==> events[k] == old(events[k])
    ensures Shows(h, events, count, now) && SameAssignments(before, now) && Shrunk(before, now)
    ensures !ok ==> !Assignable(now)
    ensures ok ==> idxQ <= queue && |queue| <= count && QueueOk(now, queue) && Alone(now, idxQ[head], count)
  {
    queue, now := idxQ, before;
    var x := idxQ[head];
    for i := 0 to count
      invariant idxQ <= queue
      invariant forall k :: count <= k < events.Length ==> events[k] == old(events[k])
      invariant Shows(h, events, count, now)
      invariant Scanning(before, now, queue, x, i)
    {
      if i != x && h.shared(events[i], events[x]) {
        if h.exclusive(events[i]) {
          ConflictRefutes(now, x, i);
          return false, queue, now;
        }
        ScanStep(before, now, queue, x, i);
        PreemptAt(h, n, events, count, i, x, now);
        now := Preempted(now, x, i);
        if h.exclusive(events[i]) {
          queue := queue + [i];
        }
      } else {
        ScanSkip(before, now, queue, x, i);
      }
    }
    FullIffAll(queue, count);
    ok := true;
  }

  method QueueExclusive<R(!new)>(h: Helpers<R>, ghost n: nat, events: array<R>, count: nat,
                                 ghost maps: seq<CounterMap>)
    returns (queue: seq<nat>)
    requires Meets(h, n) && Shows(h, events, count, maps)
    ensures queue == Exclusives(maps, count)
  {
    queue := [];
    for i := 0 to count
      invariant queue == Exclusives(maps, i)
    {
      if h.exclusive(events[i]) {
        queue := queue + [i];
      }
    }
  }

  /** Unit propagation over the queue of exclusive events. */
  method Propagate<R(!new)>(h: Helpers<R>, ghost n: nat, events: array<R>, count: nat, ghost before: seq<CounterMap>)
    returns (ok: bool, tail: nat, mapQ: seq<bool>, ghost now: seq<CounterMap>)
    requires Meets(h, n) && Shows(h, events, count, before)
    modifies events
    ensures forall k :: count <= k < events.Length ==> events[k] == old(events[k])
    ensures !ok ==> !Assignable(before)
    ensures ok ==> Shows(h, events, count, now) && Propagated(before, now, mapQ)
    ensures ok ==> tail <= count && (tail == count <==> forall i :: 0 <= i < |mapQ| ==> mapQ[i])
  {
    var queue := QueueExclusive(h, n, events, count, before);
    ExclusivesQueued(before);
    var head := 0;
    mapQ := seq(count, _ => false);
    now := before;
    while head < |queue|
      invariant forall k :: count <= k < events.Length ==> events[k] == old(events[k])
      invariant Shows(h, events, count, now)
      invariant Propagating(before, now, queue, mapQ, head)
      decreases count - head
    {
      var x := queue[head];
      ghost var was := now;
      var more;
      ok, more, now := PreemptOthers(h, n, events, count, queue, head, was);
      if !ok {
        return false, |queue|, mapQ, now;
      }
      PropagateStep(before, was, queue, mapQ, head, now, more);
      queue := more;
      mapQ := mapQ[x := true];
      head := head + 1;
      FullIffAll(queue, count);
    }
    PropagateDone(before, now, queue, mapQ);
    return true, |queue|, mapQ, now;
  }

  // ---------- The second list ----------

  /** The memcpy between the two work lists. */
  method CopyRecords<R>(dst: array<R>, src: array<R>, count: nat)
    requires dst != src && count <= dst.Length && count <= src.Length
    modifies dst
    ensures forall i :: 0 <= i < count ==> dst[i] == src[i]
  {
    for i := 0 to count
      invariant forall k :: 0 <= k < i ==> dst[k] == src[k]
    {
      dst[i] := src[i];
    }
  }

  /** Copy the open events to the second list. */
  method CopyUnmapped<R(!new)>(h: Helpers<R>, events: array<R>, count: nat, mapQ: seq<bool>, backup: array<R>,
                               ghost now: seq<CounterMap>)
    returns (remainder: nat)
    requires Shows(h, events, count, now) && count <= backup.Length && |mapQ| == count && events != backup
    modifies backup
    ensures remainder == |Unmapped(mapQ)| <= count
    ensures Shows(h, backup, remainder, Rest(now, mapQ))
  {
    remainder := 0;
    for i := 0 to count
      invariant remainder == |Unmapped(mapQ[..i])| <= i
      invariant Shows(h, backup, remainder, Rest(now[..i], mapQ[..i]))
    {
      RestStep(now, mapQ, i);
      if !mapQ[i] {
        backup[remainder] := events[i];
        remainder := remainder + 1;
      }
    }
    assert mapQ[..count] == mapQ && now[..count] == now;
  }

  /** Copy the counters found for the open events back. */
  method UpdateUnmapped<R(!new)>(h: Helpers<R>, ghost n: nat, events: array<R>, count: nat, mapQ: seq<bool>,
                                 rest: array<R>, ghost now: seq<CounterMap>, ghost found: seq<CounterMap>)
    returns (ghost after: seq<CounterMap>)
    requires Meets(h, n) && Views(h, events, count, now) && |mapQ| == count && events != rest
    requires Views(h, rest, |Unmapped(mapQ)|, found)
    modifies events
    ensures forall k :: count <= k < events.Length ==> events[k] == old(events[k])
    ensures Views(h, events, count, after) && Scattered(now, mapQ, found, after)
  {
    after := [];
    var j := 0;
    for i := 0 to count
      invariant j == |Unmapped(mapQ[..i])| <= |found|
      invariant forall k :: i <= k < events.Length ==> events[k] == old(events[k])
      invariant Views(h, events, i, after)
      invariant Scattered(now[..i], mapQ[..i], found[..j], after)
    {
      RestStep(now, mapQ, i);
      UnmappedGrows(mapQ, i + 1);
      if !mapQ[i] {
        ScatterOpen(now, mapQ, found[..j], after, i, found[j]);
        events[i] := h.update(events[i], rest[j]);
        after := after + [found[j]];
        j := j + 1;
        assert found[..j] == found[..j - 1] + [found[j - 1]];
      } else {
        ScatterMapped(now, mapQ, found[..j], after, i);
        after := after + [now[i]];
      }
    }
    assert mapQ[..count] == mapQ && now[..count] == now && found[..j] == found;
  }

  // ---------- The allocator ----------

  /** Force the head of the list onto counter c and take c from the others. */
  method ForceHead<R(!new)>(h: Helpers<R>, n: nat, rest: array<R>, remainder: nat, c: nat,
                            ghost list: seq<CounterMap>)
    requires Meets(h, n) && Shows(h, rest, remainder, list) && 0 < remainder && c < n
    modifies rest
    ensures Shows(h, rest, remainder, Trial(list, c))
  {
    rest[0] := h.force(rest[0], c);
    ghost var now := TrialUpTo(list, c, 1);
    for j := 1 to remainder
      invariant now == TrialUpTo(list, c, j) && Shows(h, rest, remainder, now)
    {
      TrialStep(list, c, j);
      if h.shared(rest[j], rest[0]) {
        PreemptAt(h, n, rest, remainder, j, 0, now);
      }
      now := TrialUpTo(list, c, j + 1);
    }
  }

  /** Decide whether `count` events can be given counters below numCntrs, and leave each
      with its counter if they can. `before` are the sets of counters at the call, `f` the
      assignment found. */
  method Alloc<R(!new)>(h: Helpers<R>, events: array<R>, count: nat, numCntrs: nat, ghost before: seq<CounterMap>)
    returns (ok: bool, ghost f: seq<nat>)
    requires Meets(h, numCntrs) && Shows(h, events, count, before)
    requires count <= numCntrs && InRange(before, numCntrs)
    modifies events
    ensures forall k :: count <= k < events.Length ==> events[k] == old(events[k])
    ensures ok <==> Assignable(before)
    ensures ok ==> Assigns(before, f) && forall i :: 0 <= i < count ==> h.view(events[i]) == {f[i]}
    decreases |NonExclusive(before)|, 1
  {
    f := [];
    var tail, mapQ;
    ghost var now;
    ok, tail, mapQ, now := Propagate(h, numCntrs, events, count, before);
    if !ok {
      return;
    }
    if tail == count {
      f := AllMapped(before, now, mapQ);
      return;
    }
    var rest := new R[numCntrs](_ => h.blank);
    var backup := new R[numCntrs](_ => h.blank);
    var remainder := CopyUnmapped(h, events, count, mapQ, backup, now);
    CopyRecords(rest, backup, remainder);
    RestFacts(before, now, mapQ, numCntrs);
    ghost var g;
    ok, g := TryEachCounter(h, rest, backup, remainder, numCntrs, Rest(now, mapQ));
    if !ok {
      RestRefutes(before, now, mapQ);
      return;
    }
    ghost var found := Singles(g);
    ghost var after := UpdateUnmapped(h, numCntrs, events, count, mapQ, rest, now, found);
    f := RestSettles(before, now, mapQ, found, g, after);
  }

  /** Try every counter of the first open event until one trial succeeds; each
      trial starts from the backup. */
  method TryEachCounter<R(!new)>(h: Helpers<R>, rest: array<R>, backup: array<R>, remainder: nat, numCntrs: nat,
                                 ghost list: seq<CounterMap>)
    returns (found: bool, ghost g: seq<nat>)
    requires Meets(h, numCntrs) && Shows(h, rest, remainder, list) && Shows(h, backup, remainder, list)
    requires rest != backup && rest.Length == backup.Length == numCntrs
    requires 0 < remainder <= numCntrs && InRange(list, numCntrs)
    modifies rest
    ensures found <==> Assignable(list)
    ensures found ==> Assigns(list, g) && Views(h, rest, remainder, Singles(g))
    decreases remainder, 0
  {
    for c := 0 to numCntrs
      invariant Shows(h, rest, remainder, list) && Shows(h, backup, remainder, list)
      invariant TriedBelow(list, c)
    {
      if h.avail(rest[0], c) {
        ForceHead(h, numCntrs, rest, remainder, c, list);
        TrialFacts(list, c, numCntrs);
        found, g := Alloc(h, rest, remainder, numCntrs, Trial(list, c));
        if found {
          TrialAssignments(list, c, g);
          return;
        }
        CopyRecords(rest, backup, remainder);
      }
      TriedNext(list, c);
    }
    TriedAll(list, numCntrs);
    return false, [];
  }
}
