/** The shared part of the CPU list as a value: the ring read from its head, one
    record per node. The two critical sections of the list are relations on it. */
module CpuModel {

  datatype Rec<N> = Rec(node: N, cpu: nat, users: int)

  type Shared<N> = seq<Rec<N>>

  /** The ring read from position k instead of 0. */
  function Rotate<T>(ring: seq<T>, k: nat): (r: seq<T>)
    requires k <= |ring|
    ensures |r| == |ring|
    ensures forall i :: 0 <= i < |r| ==> r[i] == ring[if i + k < |ring| then i + k else i + k - |ring|]
  {
    ring[k..] + ring[..k]
  }

  /** A new node becomes the head; the former head is now the last. */
  function Insert<T>(ring: seq<T>, x: T): (r: seq<T>)
    ensures |r| == |ring| + 1 && r[0] == x
    ensures forall i :: 0 < i < |r| ==> r[i] == ring[if i < |ring| then i else 0]
  {
    if ring == [] then [x] else [x] + ring[1..] + [ring[0]]
  }

  function RemoveAt<T>(ring: seq<T>, k: nat): (r: seq<T>)
    requires k < |ring|
    ensures |r| == |ring| - 1
    ensures forall i :: 0 <= i < |r| ==> r[i] == ring[if i < k then i else i + 1]
  {
    ring[..k] + ring[k + 1..]
  }

  /** Distinct nodes for distinct cpus. */
  ghost predicate WellFormed<N>(s: Shared<N>)
  {
    forall i, j :: 0 <= i < j < |s| ==> s[i].node != s[j].node && s[i].cpu != s[j].cpu
  }

  function Counted<N>(s: Shared<N>, k: nat, d: int): (r: Shared<N>)
    requires k < |s|
    ensures |r| == |s|
  {
    s[k := s[k].(users := s[k].users + d)]
  }

  /** lookup_or_create finds the node at position k: it becomes the head and has
      one more user. */
  ghost predicate Found<N>(s: Shared<N>, cpu: nat, n: N, k: nat, s': Shared<N>)
  {
    k < |s| && s[k].node == n && s[k].cpu == cpu && s' == Rotate(Counted(s, k, 1), k)
  }

  /** lookup_or_create finds none: a node that is not on the list becomes the head. */
  ghost predicate Created<N>(s: Shared<N>, cpu: nat, n: N, s': Shared<N>)
  {
    (forall i :: 0 <= i < |s| ==> s[i].cpu != cpu && s[i].node != n) && s' == Insert(s, Rec(n, cpu, 1))
  }

  ghost predicate Attach<N>(s: Shared<N>, cpu: nat, n: N, s': Shared<N>)
  {
    Created(s, cpu, n, s') || exists k: nat :: Found(s, cpu, n, k, s')
  }

  /** free_cpu on the node at position k: one user less, and off the list with the last. */
  ghost predicate ReleaseAt<N>(s: Shared<N>, n: N, k: nat, s': Shared<N>)
  {
    k < |s| && s[k].node == n && s' == if s[k].users == 1 then RemoveAt(s, k) else Counted(s, k, -1)
  }

  ghost predicate Release<N>(s: Shared<N>, n: N, s': Shared<N>)
  {
    exists k: nat :: ReleaseAt(s, n, k, s')
  }

  /** Moving to the front and then counting the user there is a critical section. */
  lemma FoundThenCounted<N>(s: Shared<N>, cpu: nat, k: nat)
    requires k < |s| && s[k].cpu == cpu
    ensures Attach(s, cpu, s[k].node, Counted(Rotate(s, k), 0, 1))
  {
    assert Counted(Rotate(s, k), 0, 1) == Rotate(Counted(s, k, 1), k);
    assert Found(s, cpu, s[k].node, k, Counted(Rotate(s, k), 0, 1));
  }

  lemma CreatedThenCounted<N>(s: Shared<N>, cpu: nat, n: N)
    requires forall i :: 0 <= i < |s| ==> s[i].cpu != cpu && s[i].node != n
    ensures Attach(s, cpu, n, Counted(Insert(s, Rec(n, cpu, 0)), 0, 1))
  {
    assert Counted(Insert(s, Rec(n, cpu, 0)), 0, 1) == Insert(s, Rec(n, cpu, 1));
  }

  ghost predicate OnList<N>(s: Shared<N>, n: N)
  {
    exists i :: 0 <= i < |s| && s[i].node == n
  }

  /** The critical sections keep the list well formed. */
  lemma AttachKeepsForm<N>(s: Shared<N>, cpu: nat, n: N, s': Shared<N>)
    requires WellFormed(s) && Attach(s, cpu, n, s')
    ensures WellFormed(s') && |s'| > 0 && s'[0].node == n && s'[0].cpu == cpu
  {
    if !Created(s, cpu, n, s') {
      var k: nat :| Found(s, cpu, n, k, s');
    }
  }

  lemma ReleaseKeepsForm<N>(s: Shared<N>, n: N, s': Shared<N>)
    requires WellFormed(s) && Release(s, n, s')
    ensures WellFormed(s')
  {
    var k: nat :| ReleaseAt(s, n, k, s');
  }

  // ---------- The walk of remove_cpu ----------

  /** The position reached on a ring of n nodes after following `next` m times. */
  function WalkedTo(n: nat, m: nat): (p: nat)
    requires n > 0
    ensures p < n
  {
    if m == 0 then 0
    else var p := WalkedTo(n, m - 1); if p + 1 < n then p + 1 else 0
  }

  lemma {:induction false} FirstLap(n: nat, m: nat)
    requires 0 < n && m <= n
    ensures WalkedTo(n, m) == if m == n then 0 else m
  {
    if m > 0 { FirstLap(n, m - 1); }
  }

  /** The loop stops after m steps: it stands on the entry, and has made a step. */
  ghost predicate WalkStops<T>(ring: seq<T>, entry: T, m: nat)
    requires ring != []
  {
    m > 0 && ring[WalkedTo(|ring|, m)] == entry
  }

  /** The walk ends exactly for members of the ring, and then within one lap. */
  lemma WalkEndsForMembers<T>(ring: seq<T>, entry: T)
    requires ring != []
    ensures (exists m: nat :: WalkStops(ring, entry, m)) <==> entry in ring
    ensures entry in ring ==> exists m: nat :: m <= |ring| && WalkStops(ring, entry, m)
  {
    if entry in ring {
      var k :| 0 <= k < |ring| && ring[k] == entry;
      var m := if k == 0 then |ring| else k;
      FirstLap(|ring|, m);
      assert WalkStops(ring, entry, m);
    }
  }
}
