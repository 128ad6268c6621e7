/** The POWER substrate: the native event table built from the counters' event lists,
    the group masks built from the table, and the allocation of a group and positions. */
module PowerGroups {
  import opened Finite
  import opened Words
  import opened PowerModel

  const PAPI_OK := 0
  const PAPI_ECNFLCT := -8

  /** What one requested event brings to an allocation and gets from it. */
  datatype RegAlloc = RegAlloc(position: int, group: Mask, cmd: seq<int>)

  class Substrate {
    const counters: nat
    const nativeTable: array<Entry>
    const nameMap: array<int>
    const groupMap: array<seq<int>>
    var groupId: int

    constructor (counters: nat, maxNative: nat)
      ensures this.counters == counters && nativeTable.Length == nameMap.Length == maxNative
      ensures groupMap.Length == GROUPS && forall g :: 0 <= g < GROUPS ==> |groupMap[g]| == counters
      ensures fresh(nativeTable) && fresh(nameMap) && fresh(groupMap)
    {
      this.counters := counters;
      nativeTable := new Entry[maxNative](_ => Blank("", counters));
      nameMap := new int[maxNative](_ => -1);
      groupMap := new seq<int>[GROUPS](_ => seq(counters, _ => 0));
      groupId := 0;
    }

    /** The first `index` entries tabulate the lists; the others are as initialised. */
    ghost predicate Building(index: nat, lists: seq<seq<Event>>)
      reads nativeTable, nameMap
    {
      && index <= nativeTable.Length == nameMap.Length && |lists| <= counters
      && Tabulates(nativeTable[..index], lists, counters)
      && (forall i :: 0 <= i < index ==> nativeTable[i].group == NO_GROUPS)
      && (forall i :: index <= i < nativeTable.Length ==> nativeTable[i] == Blank("", counters))
      && (forall i :: 0 <= i < nameMap.Length ==> nameMap[i] == if i < index then i else -1)
    }

    method InitializeNativeTable()
      requires nativeTable.Length == nameMap.Length
      modifies nativeTable, nameMap
      ensures Building(0, [])
    {
      for i := 0 to nativeTable.Length
        invariant forall k :: 0 <= k < i ==> nativeTable[k] == Blank("", counters) && nameMap[k] == -1
      {
        nativeTable[i] := Blank("", counters);
        nameMap[i] := -1;
      }
    }

    method FindName(name: string, index: nat) returns (i: nat)
      requires index <= nativeTable.Length
      ensures i <= index && (i < index ==> nativeTable[i].name == name)
      ensures i == index ==> name !in TableNames(nativeTable[..index])
    {
      for k := 0 to index
        invariant forall l :: 0 <= l < k ==> nativeTable[l].name != name
      {
        if nativeTable[k].name == name {
          return k;
        }
      }
      return index;
    }

    /** An event is noted in the entry with its name, or in a new one. */
    method AddEvent(index: nat, pmc: nat, e: Event, ghost lists: seq<seq<Event>>) returns (n: nat)
      requires |lists| == pmc + 1 && Building(index, lists)
      requires e.name !in TableNames(nativeTable[..index]) ==> index < nativeTable.Length
      modifies nativeTable, nameMap
      ensures Building(n, Extended(lists, e))
    {
      var i := FindName(e.name, index);
      n := index;
      ghost var table := nativeTable[..index];
      TableAfterTabulates(table, i, lists, counters, e);
      ghost var after := TableAfter(table, i, pmc, e, counters);
      if i < index {
        nativeTable[i] := Noted(nativeTable[i], pmc, e);
      } else {
        nativeTable[i] := Noted(nativeTable[i], pmc, e).(name := e.name);
        nameMap[i] := i;
        n := index + 1;
      }
      assert nativeTable[..n] == after;
    }

    /** The events of one counter. */
    method AddList(index: nat, pmc: nat, list: seq<Event>, ghost lists: seq<seq<Event>>, ghost all: set<string>)
      returns (n: nat)
      requires |lists| == pmc < counters && Building(index, lists)
      requires Names(lists) <= all && (forall k :: 0 <= k < |list| ==> list[k].name in all)
      requires |all| <= nativeTable.Length
      modifies nativeTable, nameMap
      ensures Building(n, lists + [list]) && Names(lists + [list]) <= all
    {
      n := index;
      EmptyListTabulates(nativeTable[..index], lists, counters);
      for ev := 0 to |list|
        invariant Building(n, lists + [list[..ev]]) && Names(lists + [list[..ev]]) <= all
      {
        ghost var done := lists + [list[..ev]];
        RoomFor(nativeTable[..n], all, list[ev].name);
        n := AddEvent(n, pmc, list[ev], done);
        NamesOfExtended(done, list[ev]);
        assert list[..ev] + [list[ev]] == list[..ev + 1];
        assert Extended(done, list[ev]) == lists + [list[..ev + 1]];
      }
      assert list[..|list|] == list;
    }

    /** The table of all the lists. */
    method BuildTable(lists: seq<seq<Event>>) returns (index: nat)
      requires |lists| <= counters && |Names(lists)| <= nativeTable.Length == nameMap.Length
      modifies nativeTable, nameMap
      ensures Building(index, lists) && index == |Names(lists)|
    {
      InitializeNativeTable();
      index := 0;
      for pmc := 0 to |lists|
        invariant Building(index, lists[..pmc]) && Names(lists[..pmc]) <= Names(lists)
      {
        index := AddList(index, pmc, lists[pmc], lists[..pmc], Names(lists));
        assert lists[..pmc] + [lists[pmc]] == lists[..pmc + 1];
      }
      assert lists[..|lists|] == lists;
      TableSize(nativeTable[..index]);
    }

    // ---------- Groups ----------

    /** The table from entry `i` on is as it was; before it, the masks are set. */
    ghost predicate Marking(was: seq<Entry>, groups: seq<Group>, i: nat)
      requires WellGrouped(groups, counters)
      reads nativeTable
    {
      && |was| == nativeTable.Length && i <= |was|
      && (forall k :: 0 <= k < |was| ==> |was[k].cmd| == counters)
      && (forall k :: i <= k < |was| ==> nativeTable[k] == was[k])
      && (forall k :: 0 <= k < i ==> nativeTable[k] == was[k].(group := MarkRows(was[k], groups, counters)))
    }

    /** The group mask of one entry, set bit by bit. */
    method MarkGroups(i: nat, groups: seq<Group>)
      requires i < nativeTable.Length && WellGrouped(groups, counters)
      requires |nativeTable[i].cmd| == counters && nativeTable[i].group == NO_GROUPS
      modifies nativeTable
      ensures nativeTable[i] == old(nativeTable[i]).(group := MarkRows(old(nativeTable[i]), groups, counters))
      ensures forall k :: 0 <= k < nativeTable.Length && k != i ==> nativeTable[k] == old(nativeTable[k])
    {
      ghost var e := nativeTable[i];
      for j := 0 to counters
        invariant nativeTable[i] == e.(group := MarkRows(e, groups, j))
        invariant forall k :: 0 <= k < nativeTable.Length && k != i ==> nativeTable[k] == old(nativeTable[k])
      {
        if Bit(nativeTable[i].selector, j) {
          ghost var m := MarkRows(e, groups, j);
          for gnum := 0 to |groups|
            invariant nativeTable[i] == e.(group := MarkRow(e, groups, j, gnum, m))
            invariant forall k :: 0 <= k < nativeTable.Length && k != i ==> nativeTable[k] == old(nativeTable[k])
          {
            if nativeTable[i].cmd[j] == groups[gnum].events[j] {
              nativeTable[i] := nativeTable[i].(group := SetBit(nativeTable[i].group, groups[gnum].id));
            }
          }
        }
      }
    }

    /** The masks of all entries, and the commands of every group by its number. */
    method SetupGps(total: nat, groups: seq<Group>)
      requires total <= nativeTable.Length && WellGrouped(groups, counters) && groupMap.Length == GROUPS
      requires forall k :: 0 <= k < nativeTable.Length ==> |nativeTable[k].cmd| == counters
      requires forall k :: 0 <= k < total ==> nativeTable[k].group == NO_GROUPS
      modifies nativeTable, groupMap
      ensures Marking(old(nativeTable[..]), groups, total)
      ensures forall g :: 0 <= g < GROUPS ==> groupMap[g] == old(groupMap[g]) || |groupMap[g]| == counters
      ensures UniqueIds(groups) ==> forall k :: 0 <= k < |groups| ==> groupMap[groups[k].id] == groups[k].events
    {
      for i := 0 to total
        invariant Marking(old(nativeTable[..]), groups, i)
        invariant forall g :: 0 <= g < GROUPS ==> groupMap[g] == old(groupMap[g])
      {
        MarkGroups(i, groups);
      }
      for gnum := 0 to |groups|
        invariant Marking(old(nativeTable[..]), groups, total)
        invariant forall g :: 0 <= g < GROUPS ==> groupMap[g] == old(groupMap[g]) || |groupMap[g]| == counters
        invariant UniqueIds(groups) ==> forall k :: 0 <= k < gnum ==> groupMap[groups[k].id] == groups[k].events
      {
        groupMap[groups[gnum].id] := groups[gnum].events;
      }
    }

    /** The state every allocation starts from: a finished entry for each of the first
        `index` codes, and the groups' commands. */
    ghost predicate Ready(index: nat, lists: seq<seq<Event>>, groups: seq<Group>)
      reads nativeTable, nameMap, groupMap
    {
      && index <= nativeTable.Length == nameMap.Length && groupMap.Length == GROUPS
      && |lists| <= counters && WellGrouped(groups, counters) && UniqueIds(groups)
      && AllFinished(nativeTable[..index], lists, groups, counters) && NamesDiffer(nativeTable[..index])
      && (forall i :: 0 <= i < nameMap.Length ==> nameMap[i] == if i < index then i else -1)
      && (forall k :: 0 <= k < |groups| ==> groupMap[groups[k].id] == groups[k].events)
      && (forall g :: 0 <= g < GROUPS ==> |groupMap[g]| == counters)
    }

    /** aix_ppc64_setup_native_table: returns how many names the lists have. */
    method SetupNativeTable(lists: seq<seq<Event>>, groups: seq<Group>) returns (index: nat)
      requires |lists| <= counters && |Names(lists)| <= nativeTable.Length == nameMap.Length
      requires WellGrouped(groups, counters) && UniqueIds(groups)
      requires groupMap.Length == GROUPS && forall g :: 0 <= g < GROUPS ==> |groupMap[g]| == counters
      modifies nativeTable, nameMap, groupMap
      ensures index == |Names(lists)| && Ready(index, lists, groups)
      ensures TableNames(nativeTable[..index]) == Names(lists)
    {
      index := BuildTable(lists);
      ghost var was := nativeTable[..];
      assert was[..index] == nativeTable[..index];
      SetupGps(index, groups);
      MarkedIsFinished(was[..index], nativeTable[..index], lists, groups, counters);
    }

    // ---------- Allocation ----------

    /** What the requested events can use; an unknown event ends it. */
    method EventList(requested: seq<nat>, list: array<RegAlloc>) returns (ok: bool)
      requires list.Length == |requested|
      requires forall i :: 0 <= i < |requested| ==> requested[i] < nameMap.Length
      requires forall i :: 0 <= i < nameMap.Length ==> nameMap[i] < nativeTable.Length
      modifies list
      ensures ok <==> forall i :: 0 <= i < |requested| ==> nameMap[requested[i]] >= 0
      ensures ok ==> forall i :: 0 <= i < |requested| ==>
        var e := nativeTable[nameMap[requested[i]]]; list[i] == RegAlloc(-1, e.group, e.cmd)
    {
      for i := 0 to |requested|
        invariant forall k :: 0 <= k < i ==> nameMap[requested[k]] >= 0
        invariant forall k :: 0 <= k < i ==>
          var e := nativeTable[nameMap[requested[k]]]; list[k] == RegAlloc(-1, e.group, e.cmd)
      {
        var index := nameMap[requested[i]];
        if index < 0 {
          return false;
        }
        list[i] := RegAlloc(-1, nativeTable[index].group, nativeTable[index].cmd);
      }
      return true;
    }

    /** The list's group masks. */
    ghost predicate Groups(list: array<RegAlloc>, masks: seq<Mask>)
      reads list
    {
      |masks| == list.Length && forall i :: 0 <= i < list.Length ==> list[i].group == masks[i]
    }

    method MeetMasks(list: array<RegAlloc>, ghost masks: seq<Mask>) returns (common: Mask)
      requires Groups(list, masks) && list.Length > 0 && forall i :: 0 <= i < list.Length ==> |masks[i]| == WORDS
      ensures |common| == WORDS && common == Meet(masks)
    {
      common := list[0].group;
      assert masks[..1] == [masks[0]];
      for i := 1 to list.Length
        invariant |common| == WORDS && common == Meet(masks[..i])
      {
        assert masks[..i + 1][..i] == masks[..i];
        for j := 0 to WORDS
          invariant |common| == WORDS
          invariant forall w :: 0 <= w < j ==> common[w] == And(Meet(masks[..i])[w], masks[i][w])
          invariant forall w :: j <= w < WORDS ==> common[w] == Meet(masks[..i])[w]
        {
          common := common[j := And(common[j], list[i].group[j])];
        }
        assert common == AndMask(Meet(masks[..i]), masks[i]);
      }
      assert masks[..list.Length] == masks;
    }

    method LowestGroup(common: Mask) returns (group: int)
      requires IsMask(common)
      ensures IsLowest(common, group)
    {
      for i := 0 to WORDS
        invariant forall v :: 0 <= v < i ==> common[v] == 0
      {
        if common[i] != 0 {
          FirstWordHasLowest(common, i);
          return Ffs(common[i]) - 1 + i * WORD_BITS;
        }
      }
      ZeroWordsAreEmpty(common);
      return -1;
    }

    /** The position of one event in a group: later counters win. */
    method Place(list: array<RegAlloc>, i: nat, group: nat)
      requires i < list.Length && group < groupMap.Length && |list[i].cmd| == |groupMap[group]| == counters
      requires list[i].position == -1
      modifies list
      ensures list[i] == old(list[i]).(position := Position(old(list[i]).cmd, groupMap[group], counters))
      ensures forall k :: 0 <= k < list.Length && k != i ==> list[k] == old(list[k])
    {
      for j := 0 to counters
        invariant list[i] == old(list[i]).(position := Position(old(list[i]).cmd, groupMap[group], j))
        invariant forall k :: 0 <= k < list.Length && k != i ==> list[k] == old(list[k])
      {
        if list[i].cmd[j] >= 0 && list[i].cmd[j] == groupMap[group][j] {
          list[i] := list[i].(position := j);
        }
      }
    }

    /** do_counter_allocation. */
    method DoCounterAllocation(list: array<RegAlloc>, ghost masks: seq<Mask>) returns (group: int)
      requires groupMap.Length == GROUPS && forall g :: 0 <= g < GROUPS ==> |groupMap[g]| == counters
      requires list.Length > 0 && Groups(list, masks) && AllMasks(masks)
      requires forall i :: 0 <= i < list.Length ==> list[i].position == -1 && |list[i].cmd| == counters
      modifies list
      ensures IsLowest(Meet(masks), group)
      ensures group >= 0 ==> forall i :: 0 <= i < list.Length ==>
        list[i].position == Position(old(list[i]).cmd, groupMap[group], counters)
    {
      MeetHas(masks, 0);
      assert forall i :: 0 <= i < list.Length ==> IsMask(masks[i]);
      var common := MeetMasks(list, masks);
      group := LowestGroup(common);
      if group >= 0 {
        for i := 0 to list.Length
          invariant forall k :: 0 <= k < i ==>
            list[k].position == Position(old(list[k]).cmd, groupMap[group], counters)
          invariant forall k :: i <= k < list.Length ==> list[k] == old(list[k])
        {
          Place(list, i, group);
        }
      }
    }

    /** The list of a request for known events. */
    method PrepareList(requested: seq<nat>, ghost index: nat, ghost lists: seq<seq<Event>>, ghost groups: seq<Group>)
      returns (ok: bool, list: array<RegAlloc>)
      requires Ready(index, lists, groups)
      requires forall i :: 0 <= i < |requested| ==> requested[i] < nameMap.Length
      ensures fresh(list) && list.Length == |requested|
      ensures ok <==> forall i :: 0 <= i < |requested| ==> requested[i] < index
      ensures ok ==> Lists(list[..], Select(nativeTable[..index], requested))
    {
      list := new RegAlloc[|requested|](_ => RegAlloc(-1, NO_GROUPS, []));
      ok := EventList(requested, list);
    }

    /** The group and the positions for a list. */
    method AllocateGroup(list: array<RegAlloc>, ghost entries: seq<Entry>,
                         ghost index: nat, ghost lists: seq<seq<Event>>, ghost groups: seq<Group>)
      returns (group: int, ghost k: int)
      requires Ready(index, lists, groups) && list.Length > 0
      requires Lists(list[..], entries) && AllFinished(entries, lists, groups, counters)
      modifies list
      ensures group < 0 <==> forall l :: 0 <= l < |groups| ==> !CountsAll(groups[l], lists, entries)
      ensures group >= 0 ==> LowestCountingAll(groups, lists, entries, k) && groups[k].id == group
      ensures group >= 0 ==> forall i :: 0 <= i < list.Length ==> list[i].position == Positions(groups[k], entries)[i]
    {
      FinishedMasks(entries, lists, groups, counters);
      group := DoCounterAllocation(list, Masks(entries));
      k := LowestBitIsLowestGroup(entries, lists, groups, counters, group);
    }

    /** _aix_allocate_registers: the group goes to the control state, the positions to
        the native event array. */
    method AllocateRegisters(requested: seq<nat>, positions: array<int>,
                             ghost index: nat, ghost lists: seq<seq<Event>>, ghost groups: seq<Group>)
      returns (retval: int, ghost k: int)
      requires Ready(index, lists, groups)
      requires |requested| == positions.Length > 0 && forall i :: 0 <= i < |requested| ==> requested[i] < nameMap.Length
      modifies this`groupId, positions
      ensures retval == PAPI_OK ==> forall i :: 0 <= i < |requested| ==> requested[i] < index
      ensures (forall i :: 0 <= i < |requested| ==> requested[i] < index) ==>
        var entries := Select(nativeTable[..index], requested);
        && (retval == PAPI_OK <==> exists l :: 0 <= l < |groups| && CountsAll(groups[l], lists, entries))
        && (retval == PAPI_OK ==> LowestCountingAll(groups, lists, entries, k) && groupId == groups[k].id
                                  && positions[..] == Positions(groups[k], entries)
                                  && (GoodIds(lists) ==> Placed(groups[k], lists, entries, requested, positions[..])))
      ensures retval != PAPI_OK ==>
        retval == PAPI_ECNFLCT && groupId == old(groupId) && positions[..] == old(positions[..])
    {
      k := 0;
      var ok, list := PrepareList(requested, index, lists, groups);
      if !ok {
        return PAPI_ECNFLCT, k;
      }
      ghost var entries := Select(nativeTable[..index], requested);
      SelectedFinished(nativeTable[..index], requested, lists, groups, counters);
      var group;
      group, k := AllocateGroup(list, entries, index, lists, groups);
      if group < 0 {
        return PAPI_ECNFLCT, k;
      }
      CopyPositions(list, positions);
      assert positions[..] == Positions(groups[k], entries);
      if GoodIds(lists) {
        CodesPlaced(nativeTable[..index], requested, lists, groups[k]);
      }
      groupId := group;
      return PAPI_OK, k;
    }

    method CopyPositions(list: array<RegAlloc>, positions: array<int>)
      requires list.Length == positions.Length
      modifies positions
      ensures forall i :: 0 <= i < list.Length ==> positions[i] == list[i].position
    {
      for i := 0 to list.Length
        invariant forall k :: 0 <= k < i ==> positions[k] == list[k].position
      {
        positions[i] := list[i].position;
      }
    }
  }

  /** A fresh list for the entries. */
  ghost predicate Lists(list: seq<RegAlloc>, entries: seq<Entry>)
  {
    |list| == |entries| && forall i :: 0 <= i < |list| ==> list[i] == RegAlloc(-1, entries[i].group, entries[i].cmd)
  }
}
