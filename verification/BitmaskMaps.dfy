/** The allocator's map helpers on x86: an event's counters are the bits of a selector,
    kept together with their number, the rank. */
module BitmaskMaps {
  import opened Words
  import opened BipartiteModel
  import Bipartite

  /** The fields of hwd_reg_alloc_t that say which counters can carry the event, and how
      many they are. */
  datatype Selection = Selection(selector: nat, rank: nat)

  /** The counters below n whose bit is set. */
  function Bits(selector: nat, n: nat): (r: set<nat>)
    ensures forall k: nat :: k in r <==> k < n && Bit(selector, k)
  {
    if n == 0 then {} else Bits(selector, n - 1) + if Bit(selector, n - 1) then {n - 1} else {}
  }

  /** The rank, counted bit by bit. */
  function Rank(selector: nat, n: nat): nat
  {
    if n == 0 then 0 else Rank(selector, n - 1) + if And(selector, Pow2(n - 1)) != 0 then 1 else 0
  }

  predicate UpToDate(r: Selection, n: nat)
  {
    r.selector < Pow2(n) && r.rank == |Bits(r.selector, n)|
  }

  // ---------- The helpers on values ----------

  predicate Avail(r: Selection, ctr: nat)
  {
    And(r.selector, Pow2(ctr)) != 0
  }

  function Forced(ctr: nat): Selection
  {
    Selection(Pow2(ctr), 1)
  }

  predicate Exclusive(r: Selection)
  {
    r.rank == 1
  }

  predicate Shared(dst: Selection, src: Selection)
  {
    And(dst.selector, src.selector) != 0
  }

  function Reduced(dst: Selection, src: Selection, n: nat): Selection
  {
    var shared := And(dst.selector, src.selector);
    var selector := if shared != 0 then Xor(dst.selector, shared) else dst.selector;
    Selection(selector, Rank(selector, n))
  }

  /** The update takes the selector but not the rank. */
  function Updated(dst: Selection, src: Selection): Selection
  {
    dst.(selector := src.selector)
  }

  function X86(n: nat): Bipartite.Helpers<Selection>
  {
    Bipartite.Helpers(
      (r: Selection) => Bits(r.selector, n), (r: Selection) => UpToDate(r, n), Selection(0, 0),
      (r: Selection, c: nat) => Avail(r, c), (r: Selection, c: nat) => Forced(c), (r: Selection) => Exclusive(r),
      (d: Selection, s: Selection) => Shared(d, s), (d: Selection, s: Selection) => Reduced(d, s, n),
      (d: Selection, s: Selection) => Updated(d, s))
  }

  lemma X86Tests(n: nat)
    ensures Bipartite.AvailMeets(X86(n), n) && Bipartite.ExclusiveMeets(X86(n)) && Bipartite.UpdateMeets(X86(n))
  {
    forall r: Selection, c: nat | UpToDate(r, n) && c < n ensures Avail(r, c) <==> c in Bits(r.selector, n) {
      AndPow2(r.selector, c);
    }
  }

  lemma X86Shared(n: nat)
    ensures Bipartite.SharedMeets(X86(n))
  {
    forall d: Selection, s: Selection | UpToDate(d, n) && UpToDate(s, n)
      ensures Shared(d, s) <==> Bits(d.selector, n) * Bits(s.selector, n) != {}
    {
      SharedBits(d.selector, s.selector, n);
    }
  }

  lemma X86Force(n: nat)
    ensures Bipartite.ForceMeets(X86(n), n)
  {
    forall c: nat | c < n ensures UpToDate(Forced(c), n) && Bits(Forced(c).selector, n) == {c} {
      ForcedIsOne(c, n);
    }
  }

  lemma X86Preempt(n: nat)
    ensures Bipartite.PreemptMeets(X86(n))
  {
    forall d: Selection, s: Selection | UpToDate(d, n) && UpToDate(s, n)
      ensures UpToDate(Reduced(d, s, n), n)
      ensures Bits(Reduced(d, s, n).selector, n) == Bits(d.selector, n) - Bits(s.selector, n)
    {
      ReducedIsDifference(d, s, n);
    }
  }

  /** They meet the contracts that the allocator relies on. */
  lemma X86Meets(n: nat)
    ensures Bipartite.Meets(X86(n), n)
  {
    X86Tests(n);
    X86Shared(n);
    X86Force(n);
    X86Preempt(n);
  }

  /** The rank is out of date after an update exactly when it differs from the number of
      the counters copied. */
  lemma UpdatedIsUpToDateIff(dst: Selection, src: Selection, n: nat)
    requires src.selector < Pow2(n)
    ensures Bits(Updated(dst, src).selector, n) == Bits(src.selector, n)
    ensures UpToDate(Updated(dst, src), n) <==> dst.rank == |Bits(src.selector, n)|
  {
  }

  /** An event on two counters is settled on one of them, and its rank still says two. */
  lemma UpdateLeavesRank()
    ensures UpToDate(Selection(3, 2), 2) && UpToDate(Selection(1, 1), 2)
    ensures !UpToDate(Updated(Selection(3, 2), Selection(1, 1)), 2)
  {
    assert Bits(3, 2) == {0, 1} && Bits(1, 2) == {0};
  }

  /** The allocation on x86: it returns true exactly when the events can be assigned, and
      then every selector has the one bit of the event's counter, whatever the ranks. */
  method Allocate(events: array<Selection>, count: nat, n: nat, ghost before: seq<CounterMap>)
    returns (ok: bool, ghost f: seq<nat>)
    requires count <= n && |before| == count <= events.Length
    requires forall i :: 0 <= i < count ==> UpToDate(events[i], n) && before[i] == Bits(events[i].selector, n)
    modifies events
    ensures ok <==> Assignable(before)
    ensures ok ==> Assigns(before, f) && forall i :: 0 <= i < count ==> Bits(events[i].selector, n) == {f[i]}
  {
    X86Meets(n);
    ok, f := Bipartite.Alloc(X86(n), events, count, n, before);
  }

  // ---------- The helpers in place ----------

  /** hwd_reg_alloc_t of a processor with n counters. */
  class RegAlloc {
    const n: nat
    var selector: nat
    var rank: nat

    constructor (n: nat, selector: nat)
      requires selector < Pow2(n)
      ensures this.n == n && this.selector == selector && Valid()
    {
      this.n := n;
      this.selector := selector;
      new;
      Recount();
    }

    ghost function Value(): Selection
      reads this
    {
      Selection(selector, rank)
    }

    ghost function Counters(): set<nat>
      reads this
    {
      Bits(selector, n)
    }

    ghost predicate Valid()
      reads this
    {
      UpToDate(Value(), n)
    }

    method MapAvail(ctr: nat) returns (avail: bool)
      requires Valid() && ctr < n
      ensures avail == Avail(Value(), ctr) && (avail <==> ctr in Counters())
    {
      AndPow2(selector, ctr);
      return And(selector, Pow2(ctr)) != 0;
    }

    method MapSet(ctr: nat)
      requires ctr < n
      modifies this
      ensures Value() == Forced(ctr) && Valid() && Counters() == {ctr}
    {
      selector := Pow2(ctr);
      rank := 1;
      ForcedIsOne(ctr, n);
    }

    method MapExclusive() returns (exclusive: bool)
      requires Valid()
      ensures exclusive == Exclusive(Value()) && (exclusive <==> |Counters()| == 1)
    {
      return rank == 1;
    }

    method MapShared(src: RegAlloc) returns (shared: bool)
      requires Valid() && src.Valid() && n == src.n
      ensures shared == Shared(Value(), src.Value()) && (shared <==> Counters() * src.Counters() != {})
    {
      SharedBits(selector, src.selector, n);
      return And(selector, src.selector) != 0;
    }

    /** Count the rank again. */
    method Recount()
      requires selector < Pow2(n)
      modifies this`rank
      ensures Valid() && rank == Rank(selector, n)
    {
      rank := 0;
      for i := 0 to n
        invariant rank == Rank(selector, i)
      {
        if And(selector, Pow2(i)) != 0 {
          rank := rank + 1;
        }
      }
      RankIsSize(selector, n);
    }

    method MapPreempt(src: RegAlloc)
      requires Valid() && src.Valid() && n == src.n
      modifies this
      ensures Value() == Reduced(old(Value()), old(src.Value()), n)
      ensures Valid() && Counters() == old(Counters()) - old(src.Counters())
    {
      var shared := And(selector, src.selector);
      RemovedBits(selector, src.selector, n);
      if shared != 0 {
        selector := Xor(selector, shared);
      }
      Recount();
    }

    method MapUpdate(src: RegAlloc)
      requires src.selector < Pow2(n) && n == src.n
      modifies this
      ensures Value() == Updated(old(Value()), old(src.Value()))
      ensures Counters() == old(src.Counters()) && (Valid() <==> old(rank) == old(|src.Counters()|))
    {
      selector := src.selector;
    }
  }

  // ---------- Bits and sets ----------

  lemma AndPow2(a: nat, k: nat)
    ensures And(a, Pow2(k)) != 0 <==> Bit(a, k)
  {
    AndBits(a, Pow2(k), k);
    Pow2Bits(k, k);
    if And(a, Pow2(k)) != 0 {
      var j := SomeBit(And(a, Pow2(k)));
      AndBits(a, Pow2(k), j);
      Pow2Bits(k, j);
    } else {
      ZeroBits(k);
    }
  }

  lemma {:induction false} RankIsSize(selector: nat, n: nat)
    ensures Rank(selector, n) == |Bits(selector, n)|
  {
    if n > 0 {
      RankIsSize(selector, n - 1);
      AndPow2(selector, n - 1);
    }
  }

  lemma ForcedIsOne(k: nat, n: nat)
    requires k < n
    ensures UpToDate(Forced(k), n) && Bits(Pow2(k), n) == {k}
  {
    Pow2Grows(k, n);
    forall j: nat ensures j in Bits(Pow2(k), n) <==> j == k {
      Pow2Bits(k, j);
    }
    assert Bits(Pow2(k), n) == {k};
  }

  /** Two selectors have a common bit exactly when their sets of counters meet. */
  lemma SharedBits(a: nat, b: nat, n: nat)
    requires a < Pow2(n) && b < Pow2(n)
    ensures And(a, b) != 0 <==> Bits(a, n) * Bits(b, n) != {}
  {
    if And(a, b) != 0 {
      var k := SomeBit(And(a, b));
      AndBits(a, b, k);
      if k >= n {
        HighBits(a, n, k);
      }
      assert k in Bits(a, n) * Bits(b, n);
    }
    if Bits(a, n) * Bits(b, n) != {} {
      var k :| k in Bits(a, n) * Bits(b, n);
      AndBits(a, b, k);
      ZeroBits(k);
    }
  }

  /** Toggling the common bits takes exactly them out. */
  lemma RemovedBits(a: nat, b: nat, n: nat)
    requires a < Pow2(n) && b < Pow2(n)
    ensures Xor(a, And(a, b)) < Pow2(n)
    ensures Bits(Xor(a, And(a, b)), n) == Bits(a, n) - Bits(b, n)
    ensures And(a, b) == 0 ==> Xor(a, And(a, b)) == a
  {
    OpsFit(a, b, n);
    OpsFit(a, And(a, b), n);
    forall k: nat ensures k in Bits(Xor(a, And(a, b)), n) <==> k in Bits(a, n) - Bits(b, n) {
      AndBits(a, b, k);
      XorBits(a, And(a, b), k);
    }
  }

  lemma ReducedIsDifference(d: Selection, s: Selection, n: nat)
    requires UpToDate(d, n) && UpToDate(s, n)
    ensures UpToDate(Reduced(d, s, n), n)
    ensures Bits(Reduced(d, s, n).selector, n) == Bits(d.selector, n) - Bits(s.selector, n)
  {
    RemovedBits(d.selector, s.selector, n);
    RankIsSize(Reduced(d, s, n).selector, n);
  }
}
