/** The lifetime protocol of CpuInfo nodes: event sets attach and release under
    the lock, and the memory of a node whose last user has gone is freed after the
    lock is given up. Steps of different event sets interleave freely, and an event
    set that is attached may attach again: its handle is overwritten. */
module CpuLifetime {
  import opened CpuModel

  /** An address; the allocator may hand a freed one out again. */
  type Address = nat
  type EventSet = nat

  /** held: the node each attached event set points to; freeing: the nodes that are
      being disposed of outside the lock, once for each release that does so;
      heap: the allocated nodes. */
  datatype State = State(list: Shared<Address>, held: map<EventSet, Address>,
                         freeing: multiset<Address>, heap: set<Address>)

  datatype Action = Attach(e: EventSet, cpu: nat, n: Address) | ReleaseBy(e: EventSet, k: nat) | Free(node: Address)

  /** lookup_or_create, holding the lock; a created node comes from the allocator. */
  ghost predicate AttachStep(s: State, e: EventSet, cpu: nat, n: Address, s': State)
  {
    && s'.held == s.held[e := n] && s'.freeing == s.freeing
    && (|| (Created(s.list, cpu, n, s'.list) && n !in s.heap && s'.heap == s.heap + {n})
        || (s'.heap == s.heap && exists k: nat :: Found(s.list, cpu, n, k, s'.list)))
  }

  /** The locked part of free_cpu by the event set e; the count it read decides
      whether it goes on to free the node. */
  ghost predicate ReleaseStep(s: State, e: EventSet, k: nat, s': State)
  {
    && e in s.held && ReleaseAt(s.list, s.held[e], k, s'.list)
    && s'.held == s.held - {e} && s'.heap == s.heap
    && s'.freeing == if s.list[k].users == 1 then s.freeing + multiset{s.held[e]} else s.freeing
  }

  /** The rest of free_cpu, without the lock. */
  ghost predicate FreeStep(s: State, n: Address, s': State)
  {
    n in s.freeing && s' == s.(freeing := s.freeing - multiset{n}, heap := s.heap - {n})
  }

  ghost predicate Next(s: State, a: Action, s': State)
  {
    match a
    case Attach(e, cpu, n) => AttachStep(s, e, cpu, n, s')
    case ReleaseBy(e, k) => ReleaseStep(s, e, k, s')
    case Free(n) => FreeStep(s, n, s')
  }

  /** A finite run, in any interleaving. */
  datatype Run = Start | Then(past: Run, action: Action, now: State)

  function Last(r: Run): State
  {
    if r.Start? then State([], map[], multiset{}, {}) else r.now
  }

  ghost predicate IsRun(r: Run)
  {
    r.Then? ==> IsRun(r.past) && Next(Last(r.past), r.action, r.now)
  }

  // ---------- Lost handles ----------

  /** The attach of an event set that is still attached. */
  predicate Overwrites(s: State, a: Action)
  {
    a.Attach? && a.e in s.held
  }

  predicate HasOverwrite(r: Run)
  {
    r.Then? && (Overwrites(Last(r.past), r.action) || HasOverwrite(r.past))
  }

  function LostBy(s: State, a: Action): multiset<Address>
  {
    if Overwrites(s, a) then multiset{s.held[a.e]} else multiset{}
  }

  /** The nodes whose handles were overwritten in the run, once for each. */
  function Lost(r: Run): multiset<Address>
  {
    if r.Start? then multiset{} else Lost(r.past) + LostBy(Last(r.past), r.action)
  }

  lemma {:induction false} LostIffOverwritten(r: Run)
    ensures Lost(r) != multiset{} <==> HasOverwrite(r)
  {
    if r.Then? {
      LostIffOverwritten(r.past);
      if Overwrites(Last(r.past), r.action) {
        assert Last(r.past).held[r.action.e] in Lost(r);
      }
    }
  }

  // ---------- The invariant ----------

  ghost function Holders(held: map<EventSet, Address>, n: Address): set<EventSet>
  {
    set e | e in held && held[e] == n
  }

  /** num_users counts the handles on the node and those it lost, and is never zero. */
  ghost predicate Counts(list: Shared<Address>, held: map<EventSet, Address>, lost: multiset<Address>)
  {
    forall i :: 0 <= i < |list| ==> list[i].users == |Holders(held, list[i].node)| + lost[list[i].node] > 0
  }

  /** Every handle points to a node on the list, and so did every lost one. */
  ghost predicate HandlesListed(list: Shared<Address>, held: map<EventSet, Address>, lost: multiset<Address>)
  {
    && (forall e | e in held :: OnList(list, held[e]))
    && (forall n: Address :: n in lost ==> OnList(list, n))
  }

  /** What is being freed is allocated, off the list, and freed once. */
  ghost predicate FreeingApart(s: State)
  {
    forall n: Address :: n in s.freeing ==> n in s.heap && !OnList(s.list, n) && s.freeing[n] == 1
  }

  /** Allocated means on the list or being freed. */
  ghost predicate HeapUsed(s: State)
  {
    forall n: Address :: n in s.heap <==> OnList(s.list, n) || n in s.freeing
  }

  ghost predicate Inv(s: State, lost: multiset<Address>)
  {
    && WellFormed(s.list) && Counts(s.list, s.held, lost) && HandlesListed(s.list, s.held, lost)
    && FreeingApart(s) && HeapUsed(s)
  }

  // ---------- It is inductive ----------

  /** A step of an event set moves its handle: the node it leaves has one less, unless it
      is lost there, and the node it comes to one more. */
  lemma HoldersAfterAttach(held: map<EventSet, Address>, e: EventSet, n: Address, m: Address)
    ensures |Holders(held[e := n], m)| + (if e in held && held[e] == m then 1 else 0)
         == |Holders(held, m)| + if m == n then 1 else 0
  {
    var before, after := Holders(held, m), Holders(held[e := n], m);
    assert after - {e} == before - {e};
    assert e in after <==> m == n;
    assert before == if e in before then (before - {e}) + {e} else before - {e};
    assert after == if e in after then (after - {e}) + {e} else after - {e};
  }

  lemma HoldersAfterRelease(held: map<EventSet, Address>, e: EventSet, m: Address)
    requires e in held
    ensures |Holders(held - {e}, m)| == |Holders(held, m)| - if m == held[e] then 1 else 0
  {
    if m == held[e] {
      assert Holders(held - {e}, m) == Holders(held, m) - {e};
    } else {
      assert Holders(held - {e}, m) == Holders(held, m);
    }
  }

  /** Nobody holds a node that is not on the list, and none of its handles was lost. */
  lemma UnlistedUnheld(list: Shared<Address>, held: map<EventSet, Address>, lost: multiset<Address>, n: Address)
    requires HandlesListed(list, held, lost) && !OnList(list, n)
    ensures |Holders(held, n)| + lost[n] == 0
  {
    assert forall e :: e !in Holders(held, n);
    assert n !in lost;
  }

  lemma FoundCounts(s: State, lost: multiset<Address>, a: Action, k: nat, s': State)
    requires a.Attach? && WellFormed(s.list) && Counts(s.list, s.held, lost)
    requires Found(s.list, a.cpu, a.n, k, s'.list) && s'.held == s.held[a.e := a.n]
    ensures Counts(s'.list, s'.held, lost + LostBy(s, a))
    ensures forall m :: OnList(s'.list, m) <==> OnList(s.list, m)
  {
    var l, l', z := s.list, s'.list, |s.list|;
    forall i | 0 <= i < z
      ensures l'[i].users == |Holders(s'.held, l'[i].node)| + (lost + LostBy(s, a))[l'[i].node] > 0
    {
      HoldersAfterAttach(s.held, a.e, a.n, l'[i].node);
    }
    forall m ensures OnList(l', m) <==> OnList(l, m) {
      forall j | 0 <= j < z && l[j].node == m ensures OnList(l', m) {
        assert l'[if j >= k then j - k else j - k + z].node == m;
      }
    }
  }

  lemma CreatedCounts(s: State, lost: multiset<Address>, a: Action, s': State)
    requires a.Attach? && WellFormed(s.list) && Counts(s.list, s.held, lost) && HandlesListed(s.list, s.held, lost)
    requires Created(s.list, a.cpu, a.n, s'.list) && s'.held == s.held[a.e := a.n]
    ensures Counts(s'.list, s'.held, lost + LostBy(s, a))
  {
    var l, l' := s.list, s'.list;
    UnlistedUnheld(l, s.held, lost, a.n);
    forall i | 0 <= i < |l'|
      ensures l'[i].users == |Holders(s'.held, l'[i].node)| + (lost + LostBy(s, a))[l'[i].node] > 0
    {
      HoldersAfterAttach(s.held, a.e, a.n, l'[i].node);
      if i == 0 && Overwrites(s, a) {
        assert OnList(l, s.held[a.e]);
      }
    }
  }

  lemma CreatedLists(l: Shared<Address>, cpu: nat, n: Address, l': Shared<Address>)
    requires Created(l, cpu, n, l')
    ensures forall m :: OnList(l', m) <==> OnList(l, m) || m == n
  {
    forall m ensures OnList(l', m) <==> OnList(l, m) || m == n {
      forall j | 0 <= j < |l| && l[j].node == m ensures OnList(l', m) {
        assert l'[if j == 0 then |l| else j].node == m;
      }
      assert l'[0].node == n;
    }
  }

  lemma AttachKeepsInv(s: State, lost: multiset<Address>, a: Action, s': State)
    requires Inv(s, lost) && a.Attach? && Next(s, a, s')
    ensures Inv(s', lost + LostBy(s, a))
  {
    AttachKeepsForm(s.list, a.cpu, a.n, s'.list);
    if a.n !in s.heap && Created(s.list, a.cpu, a.n, s'.list) {
      CreatedCounts(s, lost, a, s');
      CreatedLists(s.list, a.cpu, a.n, s'.list);
    } else {
      var k: nat :| Found(s.list, a.cpu, a.n, k, s'.list);
      FoundCounts(s, lost, a, k, s');
      assert OnList(s.list, a.n);
    }
  }

  lemma ReleaseCounts(s: State, lost: multiset<Address>, e: EventSet, k: nat, s': State)
    requires WellFormed(s.list) && Counts(s.list, s.held, lost) && ReleaseStep(s, e, k, s')
    ensures Counts(s'.list, s'.held, lost)
  {
    var l' := s'.list;
    forall i | 0 <= i < |l'| ensures l'[i].users == |Holders(s'.held, l'[i].node)| + lost[l'[i].node] > 0 {
      HoldersAfterRelease(s.held, e, l'[i].node);
    }
  }

  lemma ReleaseLists(s: State, e: EventSet, k: nat, s': State)
    requires WellFormed(s.list) && ReleaseStep(s, e, k, s')
    ensures forall m :: OnList(s'.list, m) <==> OnList(s.list, m) && (m != s.held[e] || s.list[k].users != 1)
  {
    var l, l' := s.list, s'.list;
    forall m ensures OnList(l', m) <==> OnList(l, m) && (m != s.held[e] || l[k].users != 1) {
      forall j | 0 <= j < |l| && l[j].node == m && (m != s.held[e] || l[k].users != 1) ensures OnList(l', m) {
        assert l'[if l[k].users != 1 || j < k then j else j - 1].node == m;
      }
    }
  }

  /** The last user's handle was the only one on the node, and none of its was lost. */
  lemma LastHandle(s: State, lost: multiset<Address>, e: EventSet, k: nat)
    requires Counts(s.list, s.held, lost) && e in s.held
    requires k < |s.list| && s.list[k].node == s.held[e] && s.list[k].users == 1
    ensures s.held[e] !in lost && forall f :: f in s.held && f != e ==> s.held[f] != s.held[e]
  {
    HoldersAfterRelease(s.held, e, s.held[e]);
    assert e in Holders(s.held, s.held[e]);
    assert |Holders(s.held - {e}, s.held[e])| == 0;
    forall f | f in s.held && f != e ensures s.held[f] != s.held[e] {
      assert f !in Holders(s.held - {e}, s.held[e]);
    }
  }

  lemma ReleaseKeepsInv(s: State, lost: multiset<Address>, e: EventSet, k: nat, s': State)
    requires Inv(s, lost) && ReleaseStep(s, e, k, s')
    ensures Inv(s', lost)
  {
    var n := s.held[e];
    assert Release(s.list, n, s'.list);
    ReleaseKeepsForm(s.list, n, s'.list);
    ReleaseCounts(s, lost, e, k, s');
    ReleaseLists(s, e, k, s');
    if s.list[k].users == 1 {
      LastHandle(s, lost, e, k);
    }
    assert OnList(s.list, n);
  }

  lemma FreeKeepsInv(s: State, lost: multiset<Address>, n: Address, s': State)
    requires Inv(s, lost) && FreeStep(s, n, s')
    ensures Inv(s', lost)
  {
  }

  lemma StepKeepsInv(s: State, lost: multiset<Address>, a: Action, s': State)
    requires Inv(s, lost) && Next(s, a, s')
    ensures Inv(s', lost + LostBy(s, a))
  {
    match a
    case Attach(_, _, _) => AttachKeepsInv(s, lost, a, s');
    case ReleaseBy(e, k) => ReleaseKeepsInv(s, lost, e, k, s');
    case Free(n) => FreeKeepsInv(s, lost, n, s');
  }

  lemma {:induction false} RunsKeepInv(r: Run)
    requires IsRun(r)
    ensures Inv(Last(r), Lost(r))
  {
    if r.Then? {
      RunsKeepInv(r.past);
      StepKeepsInv(Last(r.past), Lost(r.past), r.action, r.now);
    }
  }

  // ---------- What every interleaving guarantees ----------

  /** After every run, the use count of a listed node is the number of handles on it and
      of handles on it that were overwritten; so it is the number of handles exactly when
      none was. A node is on the list, and then allocated, exactly when there is such a
      handle. */
  lemma UseCountsAreHandles(r: Run, n: Address)
    requires IsRun(r)
    ensures forall j :: 0 <= j < |Last(r).list| && Last(r).list[j].node == n ==>
              Last(r).list[j].users == |Holders(Last(r).held, n)| + Lost(r)[n]
    ensures OnList(Last(r).list, n) <==> Holders(Last(r).held, n) != {} || n in Lost(r)
    ensures OnList(Last(r).list, n) ==> n in Last(r).heap
  {
    RunsKeepInv(r);
    var s := Last(r);
    if e :| e in Holders(s.held, n) {
      assert OnList(s.list, s.held[e]);
    }
  }

  /** When memory is freed outside the lock, it is allocated, freed once, on no list,
      and no event set holds it. */
  lemma FreeingIsSafe(r: Run, n: Address)
    requires IsRun(r) && n in Last(r).freeing
    ensures var s := Last(r); n in s.heap && !OnList(s.list, n) && Holders(s.held, n) == {} && s.freeing[n] == 1
  {
    RunsKeepInv(r);
    UnlistedUnheld(Last(r).list, Last(r).held, Lost(r), n);
  }

  /** Once no event set is attached and nothing is being freed, no node is left exactly
      when no attach was made by an event set that was still attached. */
  lemma NothingLeaksIff(r: Run)
    requires IsRun(r) && Last(r).held == map[] && Last(r).freeing == multiset{}
    ensures Last(r).list == [] <==> Last(r).heap == {}
    ensures Last(r).heap == {} <==> !HasOverwrite(r)
  {
    RunsKeepInv(r);
    LostIffOverwritten(r);
    var s, lost := Last(r), Lost(r);
    if s.list != [] {
      var n := s.list[0].node;
      assert Holders(s.held, n) == {};
      assert OnList(s.list, n);
    }
    if lost != multiset{} {
      var n :| n in lost;
      assert OnList(s.list, n);
    }
  }

  // ---------- A second attach ----------

  const FIRST: State := State([Rec(100, 0, 1)], map[7 := 100], multiset{}, {100})
  const SECOND: State := State([Rec(200, 1, 1), Rec(100, 0, 1)], map[7 := 200], multiset{}, {100, 200})
  const RELEASED: State := State([Rec(100, 0, 1)], map[], multiset{200}, {100, 200})
  const FREED: State := State([Rec(100, 0, 1)], map[], multiset{}, {100})

  /** Event set 7 attaches to cpu 0, then to cpu 1, and releases: the node for cpu 0 is
      left, and no one can release it. */
  lemma SecondAttachLeaks() returns (r: Run)
    ensures IsRun(r) && HasOverwrite(r)
    ensures Last(r).held == map[] && Last(r).freeing == multiset{} && Last(r).heap == {100}
  {
    var r1 := Then(Start, Attach(7, 0, 100), FIRST);
    var r2 := Then(r1, Attach(7, 1, 200), SECOND);
    var r3 := Then(r2, ReleaseBy(7, 0), RELEASED);
    r := Then(r3, Free(200), FREED);
    assert IsRun(r1);
    assert Insert(FIRST.list, Rec(200, 1, 1)) == SECOND.list && FIRST.held[7 := 200] == SECOND.held;
    assert IsRun(r2);
    assert RemoveAt(SECOND.list, 0) == RELEASED.list && SECOND.held - {7} == map[];
    assert IsRun(r3);
  }
}
