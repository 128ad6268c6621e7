/** The circular list of CpuInfo nodes on the heap. Its methods are the bodies of
    the critical sections; the model they are held to is CpuModel. */
module CpuRing {
  import opened CpuModel
  import opened Finite

  class CpuInfo {
    var cpuNum: nat
    var next: CpuInfo?
    var numUsers: int

    constructor (cpuNum: nat)
      ensures this.cpuNum == cpuNum && next == null && numUsers == 0
    {
      this.cpuNum := cpuNum;
      next := null;
      numUsers := 0;
    }
  }

  class CpuList {
    var head: CpuInfo?
    ghost var Ring: seq<CpuInfo>

    /** Empty, or one cycle of distinct nodes for distinct cpus. */
    ghost predicate Valid()
      reads this, Ring
    {
      && (head == null <==> Ring == [])
      && (head != null ==> head == Ring[0])
      && Linked(Ring) && OneEach(Ring)
    }

    /** No two nodes stand for one cpu. */
    static ghost predicate OneEach(ring: seq<CpuInfo>)
      reads ring`cpuNum
    {
      forall i, j :: 0 <= i < j < |ring| ==> ring[i].cpuNum != ring[j].cpuNum
    }

    /** The next links run round the ring. */
    static ghost predicate Linked(ring: seq<CpuInfo>)
      reads ring`next
    {
      forall i :: 0 <= i < |ring| ==> ring[i].next == ring[if i + 1 < |ring| then i + 1 else 0]
    }

    /** The value of the list that the critical sections are relations on. */
    ghost function Value(): (v: Shared<CpuInfo>)
      reads this, Ring
      ensures |v| == |Ring|
    {
      seq(|Ring|, i requires 0 <= i < |Ring| reads this, Ring => Rec(Ring[i], Ring[i].cpuNum, Ring[i].numUsers))
    }

    constructor ()
      ensures Valid() && Ring == []
    {
      head := null;
      Ring := [];
    }

    /** The search of the lookup: the first node for the cpu, or none after one lap. */
    method FindCpu(cpuNum: nat) returns (tmp: CpuInfo?, ghost k: nat)
      requires Valid()
      ensures tmp == null ==> forall x | x in Ring :: x.cpuNum != cpuNum
      ensures tmp != null ==> tmp.cpuNum == cpuNum && k < |Ring| && tmp == Ring[k]
    {
      OneEachDistinct(Ring);
      tmp := head;
      k := 0;
      while tmp != null
        invariant tmp != null ==> k < |Ring| && tmp == Ring[k]
        invariant tmp == null ==> k == |Ring|
        invariant forall i :: 0 <= i < k ==> Ring[i].cpuNum != cpuNum
        decreases |Ring| - k
      {
        if tmp.cpuNum == cpuNum {
          return;
        }
        tmp := tmp.next;
        k := k + 1;
        assert tmp == Ring[if k < |Ring| then k else 0];
        if tmp == head {
          assert k == |Ring|;
          tmp := null;
          return;
        }
      }
    }

    /** Lookup moves the head to the node it finds and changes nothing else. */
    method LookupCpu(cpuNum: nat) returns (tmp: CpuInfo?, ghost k: nat)
      requires Valid()
      modifies this
      ensures Valid()
      ensures tmp == null ==> Ring == old(Ring) && forall x | x in Ring :: x.cpuNum != cpuNum
      ensures tmp != null ==> k < |old(Ring)| && tmp == old(Ring)[k]
      ensures tmp != null ==> old(Value())[k].node == old(Ring)[k] && old(Value())[k].cpu == cpuNum
      ensures tmp != null ==> Ring == Rotate(old(Ring), k) && Value() == Rotate(old(Value()), k)
    {
      tmp, k := FindCpu(cpuNum);
      if tmp != null {
        StillRing(Ring, k);
        head := tmp;
        Ring := Rotate(Ring, k);
      }
    }

    static lemma StillRing(ring: seq<CpuInfo>, k: nat)
      requires Linked(ring) && OneEach(ring) && k < |ring|
      ensures Linked(Rotate(ring, k)) && OneEach(Rotate(ring, k))
    {
    }

    /** Insertion puts the new node in front and the former head at the back. */
    method InsertCpu(entry: CpuInfo)
      requires Valid() && entry !in Ring && forall x | x in Ring :: x.cpuNum != entry.cpuNum
      modifies this, entry`next, Ring`next
      ensures Valid() && Ring == Insert(old(Ring), entry)
    {
      if head == null {
        entry.next := entry;
      } else if head.next == head {
        head.next := entry;
        entry.next := head;
      } else {
        entry.next := head.next;
        head.next := entry;
      }
      InsertedLinked(Ring, entry);
      InsertedOneEach(Ring, entry);
      head := entry;
      Ring := Insert(Ring, entry);
    }

    static lemma InsertedOneEach(ring: seq<CpuInfo>, entry: CpuInfo)
      requires OneEach(ring) && forall x | x in ring :: x.cpuNum != entry.cpuNum
      ensures OneEach(Insert(ring, entry))
    {
    }

    static lemma InsertedLinked(ring: seq<CpuInfo>, entry: CpuInfo)
      requires entry.next == if ring == [] then entry else ring[if |ring| == 1 then 0 else 1]
      requires ring != [] ==> ring[0].next == entry
      requires forall i :: 0 < i < |ring| ==> ring[i].next == ring[if i + 1 < |ring| then i + 1 else 0]
      ensures Linked(Insert(ring, entry))
    {
    }

    /** A node for a cpu the list does not have yet. */
    method InitializeCpu(cpuNum: nat) returns (cpu: CpuInfo)
      requires Valid() && forall x | x in Ring :: x.cpuNum != cpuNum
      modifies this, Ring`next
      ensures Valid() && fresh(cpu) && Ring == Insert(old(Ring), cpu)
      ensures Value() == Insert(old(Value()), Rec(cpu, cpuNum, 0))
      ensures forall i :: 0 <= i < |old(Value())| ==> old(Value())[i].cpu != cpuNum && old(Value())[i].node != cpu
    {
      cpu := new CpuInfo(cpuNum);
      InsertCpu(cpu);
    }

    /** The walk of the removal: it finds the member and the node before it, within
        one lap. */
    method FindWithPredecessor(entry: CpuInfo) returns (prev: CpuInfo, ghost k: nat, ghost steps: nat)
      requires Valid() && entry in Ring
      ensures k < |Ring| && Ring[k] == entry && prev == Ring[if k == 0 then |Ring| - 1 else k - 1]
      ensures prev == entry <==> |Ring| == 1
      ensures WalkStops(Ring, entry, steps) && steps <= |Ring|
    {
      var tmp, before: CpuInfo? := head, null;
      steps := 0;
      while entry != tmp || before == null
        invariant steps <= |Ring| && tmp == Ring[if steps < |Ring| then steps else 0]
        invariant before == if steps == 0 then null else Ring[steps - 1]
        invariant forall i :: 0 < i < steps ==> Ring[i] != entry
        decreases |Ring| - steps
      {
        before := tmp;
        tmp := tmp.next;
        steps := steps + 1;
      }
      k := if steps < |Ring| then steps else 0;
      FirstLap(|Ring|, steps);
      prev := before;
      OneEachDistinct(Ring);
    }

    /** Bypass position k, whose predecessor is prev; a removed head is advanced. */
    method Bypass(entry: CpuInfo, prev: CpuInfo, ghost k: nat)
      requires Valid() && k < |Ring| && Ring[k] == entry && |Ring| > 1
      requires prev == Ring[if k == 0 then |Ring| - 1 else k - 1]
      modifies this`head, prev`next
      ensures Bypassed(Ring, k) && head == Ring[if k == 0 then 1 else 0]
    {
      OneEachDistinct(Ring);
      prev.next := entry.next;
      if head == entry {
        head := entry.next;
      }
      BypassLinks(Ring, k);
    }

    method Unlink(entry: CpuInfo, prev: CpuInfo, ghost k: nat)
      requires Valid() && k < |Ring| && Ring[k] == entry
      requires prev == Ring[if k == 0 then |Ring| - 1 else k - 1] && (prev == entry <==> |Ring| == 1)
      modifies this, Ring`next
      ensures Valid() && Ring == RemoveAt(old(Ring), k)
    {
      if prev == entry {
        head := null;
        entry.next := null;
        assert RemoveAt(Ring, k) == [];
        Ring := [];
      } else {
        Bypass(entry, prev, k);
        StillLinked(Ring, k);
        StillOneEach(Ring, k);
        Ring := RemoveAt(Ring, k);
        assert Ring != [];
      }
    }

    /** Removal takes out exactly the given member and leaves the others in order. */
    method RemoveCpu(entry: CpuInfo) returns (ghost k: nat)
      requires Valid() && entry in Ring
      modifies this, Ring`next
      ensures Valid() && k < |old(Ring)| && old(Ring)[k] == entry && Ring == RemoveAt(old(Ring), k)
      ensures Value() == RemoveAt(old(Value()), k)
    {
      var prev;
      ghost var steps;
      prev, k, steps := FindWithPredecessor(entry);
      Unlink(entry, prev, k);
    }

    static lemma OneEachDistinct(ring: seq<CpuInfo>)
      requires OneEach(ring)
      ensures Distinct(ring)
    {
    }

    static lemma StillOneEach(ring: seq<CpuInfo>, k: nat)
      requires OneEach(ring) && k < |ring|
      ensures OneEach(RemoveAt(ring, k))
    {
      var rest := RemoveAt(ring, k);
      forall i, j | 0 <= i < j < |rest| ensures rest[i].cpuNum != rest[j].cpuNum {
        assert rest[i] == ring[if i < k then i else i + 1];
        assert rest[j] == ring[if j < k then j else j + 1];
      }
    }

    static function After(n: nat, i: nat): nat
      requires i < n
    {
      if i + 1 < n then i + 1 else 0
    }

    /** Where the links go once prev bypasses position k. */
    static ghost predicate Bypassed(ring: seq<CpuInfo>, k: nat)
      requires k < |ring|
      reads ring`next
    {
      forall i :: 0 <= i < |ring| && i != k ==>
        ring[i].next == ring[if After(|ring|, i) == k then After(|ring|, k) else After(|ring|, i)]
    }

    static lemma BypassLinks(ring: seq<CpuInfo>, k: nat)
      requires k < |ring| && |ring| > 1
      requires ring[if k == 0 then |ring| - 1 else k - 1].next == ring[if k + 1 < |ring| then k + 1 else 0]
      requires forall i :: 0 <= i < |ring| && i != (if k == 0 then |ring| - 1 else k - 1) ==>
        ring[i].next == ring[if i + 1 < |ring| then i + 1 else 0]
      ensures Bypassed(ring, k)
    {
    }

    /** Bypassing one node links the others in a ring. */
    static lemma StillLinked(ring: seq<CpuInfo>, k: nat)
      requires k < |ring| && |ring| > 1
      requires Bypassed(ring, k)
      ensures Linked(RemoveAt(ring, k))
    {
      var rest := RemoveAt(ring, k);
      forall i | 0 <= i < |rest| ensures rest[i].next == rest[if i + 1 < |rest| then i + 1 else 0] {
        assert rest[i] == ring[if i < k then i else i + 1];
      }
    }

    /** One user more or less of the node at position k. */
    method AddUsers(cpu: CpuInfo, d: int, ghost k: nat)
      requires Valid() && k < |Ring| && Ring[k] == cpu
      modifies cpu`numUsers
      ensures Valid() && cpu.numUsers == old(cpu.numUsers) + d
      ensures Value() == Counted(old(Value()), k, d)
    {
      cpu.numUsers := cpu.numUsers + d;
      OneEachDistinct(Ring);
    }

    /** A node for the cpu at the head of the list, old or new; counting one more
        user there completes the critical section. */
    method PlaceCpu(cpuNum: nat) returns (here: CpuInfo)
      requires Valid()
      modifies this, Ring`next
      ensures Valid() && |Ring| > 0 && Ring[0] == here && (here in old(Ring) || fresh(here))
      ensures Attach(old(Value()), cpuNum, here, Counted(Value(), 0, 1))
    {
      ghost var before := Value();
      var tmp;
      ghost var k;
      tmp, k := LookupCpu(cpuNum);
      if tmp == null {
        here := InitializeCpu(cpuNum);
        CreatedThenCounted(before, cpuNum, here);
      } else {
        here := tmp;
        FoundThenCounted(before, cpuNum, k);
      }
    }

    /** The locked part of lookup_or_create: a node for the cpu, one more user. */
    method LookupOrCreate(cpuNum: nat) returns (here: CpuInfo)
      requires Valid()
      modifies this, Ring
      ensures Valid() && (here in old(Ring) || fresh(here))
      ensures Attach(old(Value()), cpuNum, here, Value())
    {
      here := PlaceCpu(cpuNum);
      AddUsers(here, 1, 0);
    }

    /** The locked part of free_cpu: one user less, and off the list with the last. */
    method ReleaseUser(cpu: CpuInfo) returns (users: int)
      requires Valid() && cpu in Ring
      modifies this, Ring
      ensures Valid() && users == old(cpu.numUsers) - 1
      ensures Release(old(Value()), cpu, Value())
    {
      ghost var k :| 0 <= k < |Ring| && Ring[k] == cpu;
      AddUsers(cpu, -1, k);
      users := cpu.numUsers;
      if users == 0 {
        k := RemoveCpu(cpu);
      }
      assert ReleaseAt(old(Value()), cpu, k, Value());
    }
  }
}
