/** POWER event groups as values: which commands an event has on which counters, which
    hardware groups it belongs to, and what an allocation has to give. */
module PowerModel {
  import opened Finite
  import opened Words

  const WORDS: nat := 8
  const WORD_BITS: nat := 32
  const GROUPS: nat := 256

  // ---------- Group masks ----------

  /** A set of group numbers, as an array of words. */
  type Mask = seq<nat>

  ghost predicate IsMask(m: Mask)
  {
    |m| == WORDS && forall w :: 0 <= w < WORDS ==> m[w] < Pow2(WORD_BITS)
  }

  predicate Has(m: Mask, g: nat)
    requires |m| == WORDS && g < GROUPS
  {
    Bit(m[g / WORD_BITS], g % WORD_BITS)
  }

  function SetBit(m: Mask, g: nat): (r: Mask)
    requires |m| == WORDS && g < GROUPS
    ensures |r| == WORDS
  {
    m[g / WORD_BITS := Or(m[g / WORD_BITS], Pow2(g % WORD_BITS))]
  }

  lemma SetBitAdds(m: Mask, id: nat, g: nat)
    requires |m| == WORDS && id < GROUPS && g < GROUPS
    ensures Has(SetBit(m, id), g) <==> Has(m, g) || g == id
  {
    OrBits(m[id / WORD_BITS], Pow2(id % WORD_BITS), g % WORD_BITS);
    Pow2Bits(id % WORD_BITS, g % WORD_BITS);
  }

  lemma SetBitKeepsMask(m: Mask, id: nat)
    requires IsMask(m) && id < GROUPS
    ensures IsMask(SetBit(m, id))
  {
    Pow2Grows(id % WORD_BITS, WORD_BITS);
    OpsFit(m[id / WORD_BITS], Pow2(id % WORD_BITS), WORD_BITS);
  }

  const NO_GROUPS: Mask := [0, 0, 0, 0, 0, 0, 0, 0]

  lemma NoGroupsIsEmpty(g: nat)
    requires g < GROUPS
    ensures IsMask(NO_GROUPS) && !Has(NO_GROUPS, g)
  {
    ZeroBits(g % WORD_BITS);
  }

  // ---------- Events ----------

  /** An entry of a counter's event list. */
  datatype Event = Event(name: string, id: int)

  /** The command that a list gives a name: that of the last entry with the name. */
  function Command(list: seq<Event>, name: string): int
  {
    if list == [] then -1
    else if list[|list| - 1].name == name then list[|list| - 1].id
    else Command(list[..|list| - 1], name)
  }

  predicate Listed(list: seq<Event>, name: string)
  {
    list != [] && (list[|list| - 1].name == name || Listed(list[..|list| - 1], name))
  }

  lemma {:induction false} ListedIff(list: seq<Event>, name: string)
    ensures Listed(list, name) <==> exists k :: 0 <= k < |list| && list[k].name == name
    ensures !Listed(list, name) ==> Command(list, name) == -1
  {
    if list != [] {
      ListedIff(list[..|list| - 1], name);
    }
  }

  /** A listed name's command is the id of its last entry. */
  lemma {:induction false} CommandIsAnId(list: seq<Event>, name: string) returns (k: nat)
    requires Listed(list, name)
    ensures k < |list| && list[k] == Event(name, Command(list, name))
    ensures forall l :: k < l < |list| ==> list[l].name != name
  {
    var n := |list| - 1;
    if list[n].name == name {
      k := n;
    } else {
      k := CommandIsAnId(list[..n], name);
    }
  }

  /** A native event: for every counter whether it can count the event and by which
      command, and the groups it belongs to. */
  datatype Entry = Entry(name: string, selector: nat, cmd: seq<int>, group: Mask)

  /** An entry says what the lists of the first counters say about its name. */
  ghost predicate Describes(e: Entry, lists: seq<seq<Event>>, counters: nat)
    requires |lists| <= counters
  {
    && |e.cmd| == counters
    && (forall p :: 0 <= p < counters ==> e.cmd[p] == if p < |lists| then Command(lists[p], e.name) else -1)
    && (forall p :: 0 <= p < counters ==> (Bit(e.selector, p) <==> p < |lists| && Listed(lists[p], e.name)))
  }

  /** The table has one entry for every name in the lists. */
  ghost predicate Tabulates(table: seq<Entry>, lists: seq<seq<Event>>, counters: nat)
    requires |lists| <= counters
  {
    && NamesDiffer(table) && TableNames(table) == Names(lists)
    && (forall i :: 0 <= i < |table| ==> Describes(table[i], lists, counters))
  }

  ghost predicate NamesDiffer(table: seq<Entry>)
  {
    forall i, j :: 0 <= i < j < |table| ==> table[i].name != table[j].name
  }

  ghost function TableNames(table: seq<Entry>): set<string>
  {
    set i: nat | i < |table| :: table[i].name
  }

  ghost function Names(lists: seq<seq<Event>>): set<string>
  {
    set p: nat, k: nat | p < |lists| && k < |lists[p]| :: lists[p][k].name
  }

  /** The last of the lists, one entry longer. */
  function Extended(lists: seq<seq<Event>>, e: Event): (r: seq<seq<Event>>)
    requires |lists| > 0
    ensures |r| == |lists|
  {
    lists[|lists| - 1 := lists[|lists| - 1] + [e]]
  }

  lemma CommandOfExtended(list: seq<Event>, e: Event, name: string)
    ensures Command(list + [e], name) == if e.name == name then e.id else Command(list, name)
    ensures Listed(list + [e], name) <==> e.name == name || Listed(list, name)
  {
    assert (list + [e])[..|list|] == list;
  }

  /** What an event does to the entry with its name. */
  function Noted(entry: Entry, p: nat, e: Event): Entry
    requires p < |entry.cmd|
  {
    entry.(selector := Or(entry.selector, Pow2(p)), cmd := entry.cmd[p := e.id])
  }

  lemma NotedDescribes(entry: Entry, lists: seq<seq<Event>>, counters: nat, e: Event)
    requires 0 < |lists| <= counters && Describes(entry, lists, counters) && entry.name == e.name
    ensures Describes(Noted(entry, |lists| - 1, e), Extended(lists, e), counters)
  {
    var last := |lists| - 1;
    CommandOfExtended(lists[last], e, e.name);
    forall p: nat | p < counters
      ensures Bit(Or(entry.selector, Pow2(last)), p) <==> Bit(entry.selector, p) || p == last
    {
      OrBits(entry.selector, Pow2(last), p);
      Pow2Bits(last, p);
    }
  }

  lemma OthersDescribe(entry: Entry, lists: seq<seq<Event>>, counters: nat, e: Event)
    requires 0 < |lists| <= counters && Describes(entry, lists, counters) && entry.name != e.name
    ensures Describes(entry, Extended(lists, e), counters)
  {
    var more, last := Extended(lists, e), |lists| - 1;
    CommandOfExtended(lists[last], e, entry.name);
    assert forall p :: 0 <= p < |lists| && p != last ==> more[p] == lists[p];
  }

  function Blank(name: string, counters: nat): Entry
  {
    Entry(name, 0, seq(counters, _ => -1), NO_GROUPS)
  }

  /** An unknown name has nothing in the lists. */
  lemma BlankDescribes(table: seq<Entry>, lists: seq<seq<Event>>, counters: nat, name: string)
    requires |lists| <= counters && Tabulates(table, lists, counters) && name !in TableNames(table)
    ensures Describes(Blank(name, counters), lists, counters)
  {
    forall p | 0 <= p < counters ensures !Bit(0, p) {
      ZeroBits(p);
    }
    forall p | 0 <= p < |lists| ensures Command(lists[p], name) == -1 && !Listed(lists[p], name) {
      forall k | 0 <= k < |lists[p]| ensures lists[p][k].name != name {
        assert lists[p][k].name in Names(lists);
      }
      ListedIff(lists[p], name);
    }
  }

  /** The table after one more event of the last list. */
  function TableAfter(table: seq<Entry>, i: nat, p: nat, e: Event, counters: nat): (r: seq<Entry>)
    requires i <= |table| && p < counters && (i < |table| ==> p < |table[i].cmd|)
  {
    if i < |table| then table[i := Noted(table[i], p, e)]
    else table + [Noted(Blank(e.name, counters), p, e)]
  }

  lemma TableAfterTabulates(table: seq<Entry>, i: nat, lists: seq<seq<Event>>, counters: nat, e: Event)
    requires 0 < |lists| <= counters && Tabulates(table, lists, counters) && i <= |table|
    requires i < |table| ==> table[i].name == e.name
    requires i == |table| ==> e.name !in TableNames(table)
    ensures Tabulates(TableAfter(table, i, |lists| - 1, e, counters), Extended(lists, e), counters)
  {
    if i == |table| {
      BlankDescribes(table, lists, counters, e.name);
    }
    forall k: nat | k < |table| && k != i ensures table[k].name != e.name {
      assert table[k].name in TableNames(table);
    }
    EntriesDescribe(table, i, lists, counters, e);
    NamesKept(table, i, |lists| - 1, counters, e);
    NamesOfExtended(lists, e);
  }

  lemma EntriesDescribe(table: seq<Entry>, i: nat, lists: seq<seq<Event>>, counters: nat, e: Event)
    requires 0 < |lists| <= counters && i <= |table|
    requires forall k :: 0 <= k < |table| ==> Describes(table[k], lists, counters)
    requires forall k :: 0 <= k < |table| && k != i ==> table[k].name != e.name
    requires i < |table| ==> table[i].name == e.name && Describes(table[i], lists, counters)
    requires i == |table| ==> Describes(Blank(e.name, counters), lists, counters)
    ensures var after := TableAfter(table, i, |lists| - 1, e, counters);
            forall k :: 0 <= k < |after| ==> Describes(after[k], Extended(lists, e), counters)
  {
    var after := TableAfter(table, i, |lists| - 1, e, counters);
    NotedDescribes(if i < |table| then table[i] else Blank(e.name, counters), lists, counters, e);
    forall k | 0 <= k < |table| && k != i ensures Describes(after[k], Extended(lists, e), counters) {
      OthersDescribe(table[k], lists, counters, e);
    }
  }

  lemma NamesKept(table: seq<Entry>, i: nat, p: nat, counters: nat, e: Event)
    requires i <= |table| && p < counters && (i < |table| ==> p < |table[i].cmd| && table[i].name == e.name)
    requires NamesDiffer(table) && (i == |table| ==> e.name !in TableNames(table))
    ensures var after := TableAfter(table, i, p, e, counters);
            NamesDiffer(after) && TableNames(after) == TableNames(table) + {e.name}
  {
    var after := TableAfter(table, i, p, e, counters);
    assert after[i].name == e.name;
    forall k: nat | k < |table| ensures after[k].name == table[k].name && table[k].name in TableNames(after) {
    }
  }

  lemma {:induction false} TableSize(table: seq<Entry>)
    requires NamesDiffer(table)
    ensures |TableNames(table)| == |table|
  {
    if table != [] {
      var init, last := table[..|table| - 1], table[|table| - 1];
      TableSize(init);
      assert TableNames(table) == TableNames(init) + {last.name};
    }
  }

  /** A table never needs more entries than there are names. */
  lemma RoomFor(table: seq<Entry>, all: set<string>, name: string)
    requires NamesDiffer(table) && TableNames(table) <= all && name in all
    ensures |table| <= |all|
    ensures name !in TableNames(table) ==> |table| < |all|
  {
    TableSize(table);
    SubsetSize(TableNames(table), all);
    SubsetSize(TableNames(table) + {name}, all);
  }

  lemma EmptyListTabulates(table: seq<Entry>, lists: seq<seq<Event>>, counters: nat)
    requires |lists| < counters && Tabulates(table, lists, counters)
    ensures Tabulates(table, lists + [[]], counters)
  {
    var more: seq<seq<Event>> := lists + [[]];
    assert Names(more) == Names(lists) by {
      forall p: nat, k: nat | p < |lists| && k < |lists[p]| ensures lists[p][k].name in Names(more) {
        assert more[p][k] == lists[p][k];
      }
    }
  }

  lemma NamesOfExtended(lists: seq<seq<Event>>, e: Event)
    requires |lists| > 0
    ensures Names(Extended(lists, e)) == Names(lists) + {e.name}
  {
    var more: seq<seq<Event>>, last := Extended(lists, e), |lists| - 1;
    forall p: nat, k: nat | p < |lists| && k < |lists[p]| ensures lists[p][k].name in Names(more) {
      assert more[p][k] == lists[p][k];
    }
    assert more[last][|lists[last]|] == e;
  }

  // ---------- Groups ----------

  /** A hardware group: the commands that run together, one to a counter. */
  datatype Group = Group(id: nat, events: seq<int>)

  ghost predicate WellGrouped(groups: seq<Group>, counters: nat)
  {
    forall k :: 0 <= k < |groups| ==> groups[k].id < GROUPS && |groups[k].events| == counters
  }

  predicate Runs(g: Group, e: Entry, j: nat)
    requires j < |e.cmd| == |g.events|
  {
    Bit(e.selector, j) && e.cmd[j] == g.events[j]
  }

  /** The group runs the event's command on one of the first n counters. */
  predicate RunsBelow(g: Group, e: Entry, n: nat)
    requires n <= |e.cmd| == |g.events|
  {
    n > 0 && (Runs(g, e, n - 1) || RunsBelow(g, e, n - 1))
  }

  /** The mask after the first n groups, for the event's command on counter j. */
  function MarkRow(e: Entry, groups: seq<Group>, j: nat, n: nat, m: Mask): (r: Mask)
    requires WellGrouped(groups, |e.cmd|) && j < |e.cmd| && n <= |groups| && |m| == WORDS
    ensures |r| == WORDS
  {
    if n == 0 then m
    else
      var row := MarkRow(e, groups, j, n - 1, m);
      if e.cmd[j] == groups[n - 1].events[j] then SetBit(row, groups[n - 1].id) else row
  }

  /** The mask after the first n counters. */
  function MarkRows(e: Entry, groups: seq<Group>, n: nat): (r: Mask)
    requires WellGrouped(groups, |e.cmd|) && n <= |e.cmd|
    ensures |r| == WORDS
  {
    if n == 0 then NO_GROUPS
    else if Bit(e.selector, n - 1) then MarkRow(e, groups, n - 1, |groups|, MarkRows(e, groups, n - 1))
    else MarkRows(e, groups, n - 1)
  }

  lemma {:induction false} MarkRowMarks(e: Entry, groups: seq<Group>, j: nat, n: nat, m: Mask, g: nat)
    requires WellGrouped(groups, |e.cmd|) && j < |e.cmd| && n <= |groups| && IsMask(m) && g < GROUPS
    ensures IsMask(MarkRow(e, groups, j, n, m))
    ensures Has(MarkRow(e, groups, j, n, m), g)
       <==> Has(m, g) || exists k :: 0 <= k < n && groups[k].id == g && e.cmd[j] == groups[k].events[j]
  {
    if n > 0 {
      MarkRowMarks(e, groups, j, n - 1, m, g);
      var row := MarkRow(e, groups, j, n - 1, m);
      SetBitAdds(row, groups[n - 1].id, g);
      SetBitKeepsMask(row, groups[n - 1].id);
    }
  }

  /** An event's mask has exactly the groups that run it on a counter it selects. */
  lemma {:induction false} MarkRowsMark(e: Entry, groups: seq<Group>, n: nat, g: nat)
    requires WellGrouped(groups, |e.cmd|) && n <= |e.cmd| && g < GROUPS
    ensures IsMask(MarkRows(e, groups, n))
    ensures Has(MarkRows(e, groups, n), g)
       <==> exists k :: 0 <= k < |groups| && groups[k].id == g && RunsBelow(groups[k], e, n)
  {
    if n == 0 {
      NoGroupsIsEmpty(g);
    } else {
      MarkRowsMark(e, groups, n - 1, g);
      MarkRowMarks(e, groups, n - 1, |groups|, MarkRows(e, groups, n - 1), g);
    }
  }

  // ---------- Intersection and the lowest group ----------

  function AndMask(a: Mask, b: Mask): (r: Mask)
    requires |a| == |b| == WORDS
    ensures |r| == WORDS
  {
    seq(WORDS, w requires 0 <= w < WORDS => And(a[w], b[w]))
  }

  function Meet(masks: seq<Mask>): (r: Mask)
    requires |masks| > 0 && forall i :: 0 <= i < |masks| ==> |masks[i]| == WORDS
    ensures |r| == WORDS
  {
    if |masks| == 1 then masks[0] else AndMask(Meet(masks[..|masks| - 1]), masks[|masks| - 1])
  }

  ghost predicate AllMasks(masks: seq<Mask>)
  {
    forall i :: 0 <= i < |masks| ==> IsMask(masks[i])
  }

  lemma {:induction false} MeetHas(masks: seq<Mask>, g: nat)
    requires |masks| > 0 && AllMasks(masks) && g < GROUPS
    ensures IsMask(Meet(masks))
    ensures Has(Meet(masks), g) <==> forall i :: 0 <= i < |masks| ==> Has(masks[i], g)
  {
    var n := |masks| - 1;
    if n > 0 {
      MeetHas(masks[..n], g);
      AndMaskHas(Meet(masks[..n]), masks[n], g);
      assert masks == masks[..n] + [masks[n]];
    }
  }

  lemma AndMaskHas(a: Mask, b: Mask, g: nat)
    requires IsMask(a) && IsMask(b) && g < GROUPS
    ensures IsMask(AndMask(a, b)) && (Has(AndMask(a, b), g) <==> Has(a, g) && Has(b, g))
  {
    AndBits(a[g / WORD_BITS], b[g / WORD_BITS], g % WORD_BITS);
    forall w | 0 <= w < WORDS ensures And(a[w], b[w]) < Pow2(WORD_BITS) {
      OpsFit(a[w], b[w], WORD_BITS);
    }
  }

  ghost predicate IsLowest(m: Mask, group: int)
    requires |m| == WORDS
  {
    if group < 0 then forall g: nat :: g < GROUPS ==> !Has(m, g)
    else group < GROUPS && Has(m, group) && forall g: nat :: g < group ==> !Has(m, g)
  }

  /** The lowest bit of the first non-zero word is the lowest of the mask. */
  lemma FirstWordHasLowest(m: Mask, w: nat)
    requires IsMask(m) && w < WORDS && m[w] != 0 && forall v :: 0 <= v < w ==> m[v] == 0
    ensures Ffs(m[w]) > 0 && IsLowest(m, Ffs(m[w]) - 1 + w * WORD_BITS)
  {
    FfsLowest(m[w]);
    var low := Ffs(m[w]) - 1;
    if low >= WORD_BITS {
      HighBits(m[w], WORD_BITS, low);
    }
    forall g: nat | g < low + w * WORD_BITS ensures !Has(m, g) {
      if g / WORD_BITS < w {
        ZeroBits(g % WORD_BITS);
      }
    }
  }

  lemma ZeroWordsAreEmpty(m: Mask)
    requires |m| == WORDS && forall v :: 0 <= v < WORDS ==> m[v] == 0
    ensures IsLowest(m, -1)
  {
    forall g: nat | g < GROUPS ensures !Has(m, g) {
      ZeroBits(g % WORD_BITS);
    }
  }

  // ---------- Positions ----------

  /** The last of the first n counters whose group command is the event's own. */
  function Position(cmd: seq<int>, events: seq<int>, n: nat): (p: int)
    requires n <= |cmd| == |events|
    ensures -1 <= p < n
    ensures p >= 0 ==> cmd[p] >= 0 && cmd[p] == events[p]
    ensures forall j :: p < j < n ==> cmd[j] < 0 || cmd[j] != events[j]
  {
    if n == 0 then -1
    else if cmd[n - 1] >= 0 && cmd[n - 1] == events[n - 1] then n - 1
    else Position(cmd, events, n - 1)
  }

  // ---------- What an allocation has to give ----------

  /** The group runs the event: on some counter its command is the event's. */
  ghost predicate Counts(g: Group, lists: seq<seq<Event>>, name: string)
    requires |lists| <= |g.events|
  {
    exists p :: 0 <= p < |lists| && Listed(lists[p], name) && Command(lists[p], name) == g.events[p]
  }

  ghost predicate CountsAll(g: Group, lists: seq<seq<Event>>, entries: seq<Entry>)
    requires |lists| <= |g.events|
  {
    forall i :: 0 <= i < |entries| ==> Counts(g, lists, entries[i].name)
  }

  lemma {:induction false} RunsBelowIff(g: Group, e: Entry, n: nat)
    requires n <= |e.cmd| == |g.events|
    ensures RunsBelow(g, e, n) <==> exists j :: 0 <= j < n && Runs(g, e, j)
  {
    if n > 0 {
      RunsBelowIff(g, e, n - 1);
    }
  }

  lemma RunsIffCounts(g: Group, lists: seq<seq<Event>>, e: Entry)
    requires |lists| <= |g.events| && Describes(e, lists, |g.events|)
    ensures RunsBelow(g, e, |e.cmd|) <==> Counts(g, lists, e.name)
  {
    RunsBelowIff(g, e, |e.cmd|);
    if Counts(g, lists, e.name) {
      var p :| 0 <= p < |lists| && Listed(lists[p], e.name) && Command(lists[p], e.name) == g.events[p];
      assert Runs(g, e, p);
    }
    if RunsBelow(g, e, |e.cmd|) {
      var j :| 0 <= j < |e.cmd| && Runs(g, e, j);
      assert Bit(e.selector, j);
    }
  }

  /** Entries of a finished table. */
  ghost predicate Finished(e: Entry, lists: seq<seq<Event>>, groups: seq<Group>, counters: nat)
    requires |lists| <= counters && WellGrouped(groups, counters)
  {
    Describes(e, lists, counters) && e.group == MarkRows(e, groups, counters)
  }

  ghost predicate UniqueIds(groups: seq<Group>)
  {
    forall k, l :: 0 <= k < l < |groups| ==> groups[k].id != groups[l].id
  }

  /** A finished entry's mask has exactly the groups that count its event. */
  lemma MaskIffCounts(e: Entry, lists: seq<seq<Event>>, groups: seq<Group>, counters: nat, k: nat)
    requires |lists| <= counters && WellGrouped(groups, counters) && UniqueIds(groups) && k < |groups|
    requires Finished(e, lists, groups, counters)
    ensures IsMask(e.group) && (Has(e.group, groups[k].id) <==> Counts(groups[k], lists, e.name))
  {
    MarkRowsMark(e, groups, counters, groups[k].id);
    RunsIffCounts(groups[k], lists, e);
  }

  lemma MaskOnlyGroups(e: Entry, lists: seq<seq<Event>>, groups: seq<Group>, counters: nat, g: nat) returns (k: nat)
    requires |lists| <= counters && WellGrouped(groups, counters) && g < GROUPS
    requires Finished(e, lists, groups, counters) && Has(e.group, g)
    ensures k < |groups| && groups[k].id == g
  {
    MarkRowsMark(e, groups, counters, g);
    k :| 0 <= k < |groups| && groups[k].id == g;
  }

  function Masks(entries: seq<Entry>): (r: seq<Mask>)
    ensures |r| == |entries| && forall i :: 0 <= i < |r| ==> r[i] == entries[i].group
  {
    seq(|entries|, i requires 0 <= i < |entries| => entries[i].group)
  }

  ghost predicate AllFinished(entries: seq<Entry>, lists: seq<seq<Event>>, groups: seq<Group>, counters: nat)
    requires |lists| <= counters && WellGrouped(groups, counters)
  {
    forall i :: 0 <= i < |entries| ==> Finished(entries[i], lists, groups, counters)
  }

  /** Setting the masks finishes a table. */
  lemma MarkedIsFinished(was: seq<Entry>, now: seq<Entry>, lists: seq<seq<Event>>, groups: seq<Group>, counters: nat)
    requires |lists| <= counters && WellGrouped(groups, counters) && Tabulates(was, lists, counters)
    requires |now| == |was|
    requires forall k :: 0 <= k < |was| ==> now[k] == was[k].(group := MarkRows(was[k], groups, counters))
    ensures AllFinished(now, lists, groups, counters)
    ensures NamesDiffer(now) && TableNames(now) == Names(lists)
  {
    forall k | 0 <= k < |was| ensures Finished(now[k], lists, groups, counters) {
      MaskIgnoresMask(was[k], groups, counters, MarkRows(was[k], groups, counters));
    }
    assert TableNames(now) == TableNames(was) by {
      forall k: nat | k < |was| ensures was[k].name in TableNames(now) && now[k].name in TableNames(was) {
        assert now[k].name == was[k].name;
      }
    }
  }

  /** An entry's mask depends on its commands only. */
  lemma {:induction false} MaskIgnoresMask(e: Entry, groups: seq<Group>, n: nat, m: Mask)
    requires WellGrouped(groups, |e.cmd|) && n <= |e.cmd|
    ensures MarkRows(e.(group := m), groups, n) == MarkRows(e, groups, n)
  {
    if n > 0 {
      MaskIgnoresMask(e, groups, n - 1, m);
      RowIgnoresMask(e, groups, n - 1, |groups|, MarkRows(e, groups, n - 1), m);
    }
  }

  lemma {:induction false} RowIgnoresMask(e: Entry, groups: seq<Group>, j: nat, n: nat, row: Mask, m: Mask)
    requires WellGrouped(groups, |e.cmd|) && j < |e.cmd| && n <= |groups| && |row| == WORDS
    ensures MarkRow(e.(group := m), groups, j, n, row) == MarkRow(e, groups, j, n, row)
  {
    if n > 0 {
      RowIgnoresMask(e, groups, j, n - 1, row, m);
    }
  }

  lemma FinishedMasks(entries: seq<Entry>, lists: seq<seq<Event>>, groups: seq<Group>, counters: nat)
    requires |lists| <= counters && WellGrouped(groups, counters) && AllFinished(entries, lists, groups, counters)
    ensures AllMasks(Masks(entries))
  {
    forall i | 0 <= i < |entries| ensures IsMask(entries[i].group) {
      MarkRowsMark(entries[i], groups, counters, 0);
    }
  }

  lemma MeetIffCountsAll(entries: seq<Entry>, lists: seq<seq<Event>>, groups: seq<Group>, counters: nat, k: nat)
    requires |lists| <= counters && WellGrouped(groups, counters) && UniqueIds(groups) && k < |groups|
    requires |entries| > 0 && AllFinished(entries, lists, groups, counters)
    ensures AllMasks(Masks(entries))
    ensures Has(Meet(Masks(entries)), groups[k].id) <==> CountsAll(groups[k], lists, entries)
  {
    FinishedMasks(entries, lists, groups, counters);
    MeetHas(Masks(entries), groups[k].id);
    forall i | 0 <= i < |entries|
      ensures Has(Masks(entries)[i], groups[k].id) <==> Counts(groups[k], lists, entries[i].name)
    {
      MaskIffCounts(entries[i], lists, groups, counters, k);
    }
  }

  /** k is the group with the lowest number of those that count all the events. */
  ghost predicate LowestCountingAll(groups: seq<Group>, lists: seq<seq<Event>>, entries: seq<Entry>, k: int)
    requires forall l :: 0 <= l < |groups| ==> |lists| <= |groups[l].events|
  {
    && 0 <= k < |groups| && CountsAll(groups[k], lists, entries)
    && forall l :: 0 <= l < |groups| && CountsAll(groups[l], lists, entries) ==> groups[k].id <= groups[l].id
  }

  /** The lowest bit of the intersected masks is the lowest-numbered group that counts
      all the events; there is no bit exactly when there is no such group. */
  lemma LowestBitIsLowestGroup(entries: seq<Entry>, lists: seq<seq<Event>>, groups: seq<Group>, counters: nat,
                               group: int) returns (k: int)
    requires |lists| <= counters && WellGrouped(groups, counters) && UniqueIds(groups)
    requires |entries| > 0 && AllFinished(entries, lists, groups, counters)
    requires IsLowest(Meet(Masks(entries)), group)
    ensures group < 0 <==> forall l :: 0 <= l < |groups| ==> !CountsAll(groups[l], lists, entries)
    ensures group >= 0 ==> LowestCountingAll(groups, lists, entries, k) && groups[k].id == group
  {
    forall l | 0 <= l < |groups|
      ensures Has(Meet(Masks(entries)), groups[l].id) <==> CountsAll(groups[l], lists, entries)
    {
      MeetIffCountsAll(entries, lists, groups, counters, l);
    }
    k := 0;
    if group >= 0 {
      FinishedMasks(entries, lists, groups, counters);
      MeetHas(Masks(entries), group);
      assert Has(Masks(entries)[0], group);
      k := MaskOnlyGroups(entries[0], lists, groups, counters, group);
    }
  }

  /** Event ids are not negative, and on one counter tell events apart. */
  ghost predicate GoodIds(lists: seq<seq<Event>>)
  {
    && (forall p, k :: 0 <= p < |lists| && 0 <= k < |lists[p]| ==> lists[p][k].id >= 0)
    && (forall p :: 0 <= p < |lists| ==> IdsTellApart(lists[p]))
  }

  ghost predicate IdsTellApart(list: seq<Event>)
  {
    forall k, l :: 0 <= k < |list| && 0 <= l < |list| && list[k].id == list[l].id ==> list[k].name == list[l].name
  }

  /** In a group that counts the event, its position is a counter whose group command
      is the event's own. */
  lemma PositionIsOwn(g: Group, lists: seq<seq<Event>>, e: Entry)
    requires |lists| <= |g.events| && Describes(e, lists, |g.events|) && GoodIds(lists)
    requires Counts(g, lists, e.name)
    ensures var p := Position(e.cmd, g.events, |e.cmd|);
            0 <= p < |lists| && Listed(lists[p], e.name) && Command(lists[p], e.name) == g.events[p]
  {
    var q :| 0 <= q < |lists| && Listed(lists[q], e.name) && Command(lists[q], e.name) == g.events[q];
    var k := CommandIsAnId(lists[q], e.name);
    assert e.cmd[q] >= 0;
    var p := Position(e.cmd, g.events, |e.cmd|);
    if p < |lists| && !Listed(lists[p], e.name) {
      ListedIff(lists[p], e.name);
    }
  }

  /** Different events get different positions. */
  lemma PositionsDiffer(g: Group, lists: seq<seq<Event>>, a: Entry, b: Entry)
    requires |lists| <= |g.events| && GoodIds(lists) && a.name != b.name
    requires Describes(a, lists, |g.events|) && Describes(b, lists, |g.events|)
    requires Counts(g, lists, a.name) && Counts(g, lists, b.name)
    ensures Position(a.cmd, g.events, |a.cmd|) != Position(b.cmd, g.events, |b.cmd|)
  {
    PositionIsOwn(g, lists, a);
    PositionIsOwn(g, lists, b);
    var p, q := Position(a.cmd, g.events, |a.cmd|), Position(b.cmd, g.events, |b.cmd|);
    if p == q {
      var k := CommandIsAnId(lists[p], a.name);
      var l := CommandIsAnId(lists[p], b.name);
    }
  }

  lemma SelectedFinished(table: seq<Entry>, requested: seq<nat>, lists: seq<seq<Event>>, groups: seq<Group>,
                         counters: nat)
    requires forall i :: 0 <= i < |requested| ==> requested[i] < |table|
    requires |lists| <= counters && WellGrouped(groups, counters) && AllFinished(table, lists, groups, counters)
    ensures AllFinished(Select(table, requested), lists, groups, counters)
  {
  }

  function Positions(g: Group, entries: seq<Entry>): (r: seq<int>)
    requires forall i :: 0 <= i < |entries| ==> |entries[i].cmd| == |g.events|
    ensures |r| == |entries|
    ensures forall i :: 0 <= i < |r| ==> r[i] == Position(entries[i].cmd, g.events, |g.events|)
  {
    seq(|entries|, i requires 0 <= i < |entries| => Position(entries[i].cmd, g.events, |g.events|))
  }

  /** Everything an allocation records is right: in the chosen group each event stands on
      a counter that runs its own command, and different events on different counters. */
  lemma AllPlaced(g: Group, lists: seq<seq<Event>>, entries: seq<Entry>)
    requires |lists| <= |g.events| && GoodIds(lists) && CountsAll(g, lists, entries)
    requires forall i :: 0 <= i < |entries| ==>
      |entries[i].cmd| == |g.events| && Describes(entries[i], lists, |g.events|)
    ensures forall i :: 0 <= i < |entries| ==>
      var p := Positions(g, entries)[i];
      0 <= p < |lists| && Listed(lists[p], entries[i].name) && Command(lists[p], entries[i].name) == g.events[p]
    ensures forall i, j :: 0 <= i < j < |entries| && entries[i].name != entries[j].name ==>
      Positions(g, entries)[i] != Positions(g, entries)[j]
  {
    forall i | 0 <= i < |entries|
      ensures var p := Positions(g, entries)[i];
        0 <= p < |lists| && Listed(lists[p], entries[i].name) && Command(lists[p], entries[i].name) == g.events[p]
    {
      PositionIsOwn(g, lists, entries[i]);
    }
    forall i, j | 0 <= i < j < |entries| && entries[i].name != entries[j].name
      ensures Positions(g, entries)[i] != Positions(g, entries)[j]
    {
      PositionsDiffer(g, lists, entries[i], entries[j]);
    }
  }

  /** Each position is a counter that runs the event's own command, and different codes
      have different positions. */
  ghost predicate Placed(g: Group, lists: seq<seq<Event>>, entries: seq<Entry>, requested: seq<nat>,
                         positions: seq<int>)
    requires |lists| <= |g.events| && |entries| == |requested| == |positions|
  {
    && (forall i :: 0 <= i < |entries| ==>
          && 0 <= positions[i] < |lists| && Listed(lists[positions[i]], entries[i].name)
          && Command(lists[positions[i]], entries[i].name) == g.events[positions[i]])
    && (forall i, j :: 0 <= i < j < |entries| && requested[i] != requested[j] ==> positions[i] != positions[j])
  }

  lemma CodesPlaced(table: seq<Entry>, requested: seq<nat>, lists: seq<seq<Event>>, g: Group)
    requires |lists| <= |g.events| && GoodIds(lists) && NamesDiffer(table)
    requires forall i :: 0 <= i < |table| ==> |table[i].cmd| == |g.events| && Describes(table[i], lists, |g.events|)
    requires forall i :: 0 <= i < |requested| ==> requested[i] < |table|
    requires CountsAll(g, lists, Select(table, requested))
    ensures var entries := Select(table, requested); Placed(g, lists, entries, requested, Positions(g, entries))
  {
    var entries := Select(table, requested);
    AllPlaced(g, lists, entries);
    forall i, j | 0 <= i < j < |entries| && requested[i] != requested[j]
      ensures Positions(g, entries)[i] != Positions(g, entries)[j]
    {
      assert entries[i].name != entries[j].name;
    }
  }
}
