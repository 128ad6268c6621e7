/** Discovering the cores of the machine and renumbering their sockets. */
module Topology {
  import opened Finite

  /** A line of /proc/cpuinfo, as far as the parser looks at it. Socket ids are the
      32-bit keys they are stored under. */
  datatype Line = Processor(osId: int) | PhysicalId(id: nat) | CoreId(coreId: int) | Other

  datatype Entry = Entry(osId: int, socket: nat, coreId: int)

  /** The key of a core whose physical id was never given: -1 as 32 bits. */
  const NO_ID: nat := 0xffff_ffff

  /** The parser's state: the entry being filled, the cores found, the ids recorded. */
  datatype Parser = Parser(entry: Entry, cores: seq<Entry>, ids: set<nat>)

  // ---------- Parsing ----------

  function Flush(p: Parser): seq<Entry>
  {
    if p.entry.osId >= 0 then p.cores + [p.entry] else p.cores
  }

  function Step(p: Parser, line: Line): Parser
  {
    match line
    case Processor(osId) => p.(cores := Flush(p), entry := p.entry.(osId := osId))
    case PhysicalId(id) => p.(entry := p.entry.(socket := id), ids := p.ids + {id})
    case CoreId(coreId) => p.(entry := p.entry.(coreId := coreId))
    case Other => p
  }

  function ParsePrefix(lines: seq<Line>): Parser
  {
    if lines == [] then Parser(Entry(-1, NO_ID, -1), [], {})
    else Step(ParsePrefix(lines[..|lines| - 1]), lines[|lines| - 1])
  }

  /** The logical cores of the first physical core of socket 0, by the ids as read. */
  function Threads(cores: seq<Entry>): nat
  {
    if cores == [] then 0
    else Threads(cores[..|cores| - 1]) + if OnFirst(cores[|cores| - 1]) then 1 else 0
  }

  predicate OnFirst(e: Entry)
  {
    e.socket == 0 && e.coreId == 0
  }

  lemma OneMoreThread(cores: seq<Entry>, e: Entry)
    ensures Threads(cores + [e]) == Threads(cores) + if OnFirst(e) then 1 else 0
  {
    assert (cores + [e])[..|cores|] == cores;
  }

  method Parse(lines: seq<Line>) returns (topology: seq<Entry>, ids: set<nat>, threadsPerCore: nat)
    ensures topology == Flush(ParsePrefix(lines)) && ids == ParsePrefix(lines).ids
    ensures threadsPerCore == Threads(topology)
    ensures AsRead(lines, topology, ids, threadsPerCore)
  {
    var entry := Entry(-1, NO_ID, -1);
    topology, ids, threadsPerCore := [], {}, 0;
    for i := 0 to |lines|
      invariant Parser(entry, topology, ids) == ParsePrefix(lines[..i])
      invariant threadsPerCore == Threads(topology)
    {
      assert lines[..i + 1][..i] == lines[..i];
      match lines[i] {
        case Processor(osId) =>
          if entry.osId >= 0 {
            OneMoreThread(topology, entry);
            topology := topology + [entry];
            threadsPerCore := threadsPerCore + if OnFirst(entry) then 1 else 0;
          }
          entry := entry.(osId := osId);
        case PhysicalId(id) =>
          entry := entry.(socket := id);
          ids := ids + {id};
        case CoreId(coreId) =>
          entry := entry.(coreId := coreId);
        case Other =>
      }
    }
    assert lines[..|lines|] == lines;
    if entry.osId >= 0 {
      OneMoreThread(topology, entry);
      topology := topology + [entry];
      threadsPerCore := threadsPerCore + if OnFirst(entry) then 1 else 0;
    }
    ParsedAsRead(lines);
  }

  // ---------- What the entries are ----------

  /** The positions, in order, of the numbered processor lines among the first n lines. */
  ghost predicate Numbering(lines: seq<Line>, n: nat, at: seq<nat>)
  {
    && (forall i, j :: 0 <= i < j < |at| ==> at[i] < at[j])
    && (forall i :: 0 <= i < |at| ==> at[i] < n && IsNumbered(lines, at[i]))
    && (forall k: nat :: k < n && IsNumbered(lines, k) ==> k in at)
  }

  ghost predicate IsNumbered(lines: seq<Line>, k: nat)
  {
    k < |lines| && lines[k].Processor? && lines[k].osId >= 0
  }

  /** n is the next processor line after i, or the end. */
  ghost predicate BlockEnds(lines: seq<Line>, i: nat, n: nat)
  {
    && i < n <= |lines| && (n < |lines| ==> lines[n].Processor?)
    && forall k :: i < k < n ==> !lines[k].Processor?
  }

  /** The last physical id in the first n lines, or the mark for none. */
  ghost predicate LastSocket(lines: seq<Line>, n: nat, id: nat)
    requires n <= |lines|
  {
    || (id == NO_ID && forall k :: 0 <= k < n ==> !lines[k].PhysicalId?)
    || (exists j :: 0 <= j < n && lines[j] == PhysicalId(id) && forall k :: j < k < n ==> !lines[k].PhysicalId?)
  }

  /** The last core id in the first n lines, or -1. */
  ghost predicate LastCore(lines: seq<Line>, n: nat, id: int)
    requires n <= |lines|
  {
    || (id == -1 && forall k :: 0 <= k < n ==> !lines[k].CoreId?)
    || (exists j :: 0 <= j < n && lines[j] == CoreId(id) && forall k :: j < k < n ==> !lines[k].CoreId?)
  }

  /** The entry has the processor line's number, and the last ids read before the next. */
  ghost predicate EntryFor(lines: seq<Line>, i: nat, e: Entry)
  {
    && i < |lines| && lines[i] == Processor(e.osId)
    && exists n: nat :: BlockEnds(lines, i, n) && LastSocket(lines, n, e.socket) && LastCore(lines, n, e.coreId)
  }

  ghost predicate EntriesFor(lines: seq<Line>, at: seq<nat>, cores: seq<Entry>)
  {
    |at| == |cores| && forall i :: 0 <= i < |cores| ==> EntryFor(lines, at[i], cores[i])
  }

  /** Every numbered processor line has exactly one entry, in order. */
  ghost predicate OneEntryPerProcessor(lines: seq<Line>, cores: seq<Entry>)
  {
    exists at :: Numbering(lines, |lines|, at) && EntriesFor(lines, at, cores)
  }

  /** One entry for each numbered processor line, all physical ids, and as many threads as
      entries that give socket 0 and core 0 as read. */
  ghost predicate AsRead(lines: seq<Line>, cores: seq<Entry>, ids: set<nat>, threads: nat)
  {
    && OneEntryPerProcessor(lines, cores)
    && (forall k :: k in ids <==> PhysicalId(k) in lines)
    && threads == |set i: nat | i < |cores| && cores[i].socket == 0 && cores[i].coreId == 0|
  }

  lemma ParsedAsRead(lines: seq<Line>)
    ensures var p := ParsePrefix(lines); AsRead(lines, Flush(p), p.ids, Threads(Flush(p)))
  {
    EntriesPerProcessor(lines);
    IdsAreRecorded(lines);
    ThreadsAreOnFirst(Flush(ParsePrefix(lines)));
  }

  /** The last processor line before n, if any, and its number. */
  ghost predicate LastProcessor(lines: seq<Line>, n: nat, cur: int, osId: int)
    requires n <= |lines|
  {
    && -1 <= cur < n && (forall k :: cur < k < n ==> !lines[k].Processor?)
    && if cur == -1 then osId == -1 else lines[cur] == Processor(osId)
  }

  /** The entries closed before the line n, and the one still open. */
  ghost predicate Follows(lines: seq<Line>, n: nat, p: Parser, at: seq<nat>, cur: int)
    requires n <= |lines|
  {
    && LastProcessor(lines, n, cur, p.entry.osId)
    && LastSocket(lines, n, p.entry.socket) && LastCore(lines, n, p.entry.coreId)
    && Numbering(lines, if cur == -1 then 0 else cur, at) && EntriesFor(lines, at, p.cores)
  }

  /** At a processor line and at the end, the open entry is the last processor line's. */
  lemma Closed(lines: seq<Line>, n: nat, p: Parser, at: seq<nat>, cur: int) returns (now: seq<nat>)
    requires n <= |lines| && (n < |lines| ==> lines[n].Processor?) && Follows(lines, n, p, at, cur)
    ensures Numbering(lines, n, now) && EntriesFor(lines, now, Flush(p))
  {
    now := at;
    if p.entry.osId >= 0 {
      assert BlockEnds(lines, cur, n);
      assert EntryFor(lines, cur, p.entry);
      now := at + [cur];
    }
    forall k: nat | k < n && IsNumbered(lines, k) ensures k in now {
      assert k <= cur;
      if k < cur {
        assert k in at;
      }
    }
  }

  lemma {:induction false} PrefixFollows(lines: seq<Line>, n: nat) returns (at: seq<nat>, cur: int)
    requires n <= |lines|
    ensures Follows(lines, n, ParsePrefix(lines[..n]), at, cur)
  {
    if n == 0 {
      at, cur := [], -1;
    } else {
      assert lines[..n][..n - 1] == lines[..n - 1];
      var p, line := ParsePrefix(lines[..n - 1]), lines[n - 1];
      at, cur := PrefixFollows(lines, n - 1);
      if line.Processor? {
        at := Closed(lines, n - 1, p, at, cur);
        cur := n - 1;
      }
      LastsFollow(lines, n, p.entry, Step(p, line).entry);
    }
  }

  lemma LastsFollow(lines: seq<Line>, n: nat, before: Entry, after: Entry)
    requires 0 < n <= |lines| && LastSocket(lines, n - 1, before.socket) && LastCore(lines, n - 1, before.coreId)
    requires after.socket == if lines[n - 1].PhysicalId? then lines[n - 1].id else before.socket
    requires after.coreId == if lines[n - 1].CoreId? then lines[n - 1].coreId else before.coreId
    ensures LastSocket(lines, n, after.socket) && LastCore(lines, n, after.coreId)
  {
  }

  lemma EntriesPerProcessor(lines: seq<Line>)
    ensures OneEntryPerProcessor(lines, Flush(ParsePrefix(lines)))
  {
    assert lines[..|lines|] == lines;
    var at, cur := PrefixFollows(lines, |lines|);
    var now := Closed(lines, |lines|, ParsePrefix(lines), at, cur);
  }

  lemma {:induction false} IdsAreRecorded(lines: seq<Line>)
    ensures forall k :: k in ParsePrefix(lines).ids <==> PhysicalId(k) in lines
  {
    if lines != [] {
      var init, last := lines[..|lines| - 1], lines[|lines| - 1];
      IdsAreRecorded(init);
      assert lines == init + [last];
    }
  }

  lemma {:induction false} ThreadsAreOnFirst(cores: seq<Entry>)
    ensures Threads(cores) == |set i: nat | i < |cores| && cores[i].socket == 0 && cores[i].coreId == 0|
  {
    if cores != [] {
      var n := |cores| - 1;
      ThreadsAreOnFirst(cores[..n]);
      var before := set i: nat | i < n && cores[..n][i].socket == 0 && cores[..n][i].coreId == 0;
      var after := set i: nat | i < n + 1 && cores[i].socket == 0 && cores[i].coreId == 0;
      assert after == if OnFirst(cores[n]) then before + {n} else before;
    }
  }

  // ---------- Renumbering ----------

  /** How many recorded ids are smaller than k. */
  ghost function Rank(ids: set<nat>, k: nat): nat
  {
    |set j | j in ids && j < k|
  }

  lemma {:induction false} LeastExists(ids: set<nat>) returns (m: nat)
    requires ids != {}
    ensures m in ids && forall j | j in ids :: m <= j
  {
    var first :| first in ids;
    m := first;
    var rest := ids - {first};
    if rest != {} {
      var r := LeastExists(rest);
      m := if r < first then r else first;
    }
    forall j | j in ids ensures m <= j {
      assert j == first || j in rest;
    }
  }

  lemma HasLeast(ids: set<nat>)
    requires ids != {}
    ensures exists m :: m in ids && forall j | j in ids :: m <= j
  {
    var m := LeastExists(ids);
  }

  function Least(ids: set<nat>): (m: nat)
    requires ids != {}
    ensures m in ids && forall j | j in ids :: m <= j
  {
    HasLeast(ids);
    var m :| m in ids && forall j | j in ids :: m <= j;
    m
  }

  /** The map's values follow its keys: the recorded ids in order get 0, 1, 2, ... */
  method NumberIds(ids: set<nat>) returns (socketIdMap: map<nat, nat>)
    ensures socketIdMap.Keys == ids
    ensures forall k | k in ids :: socketIdMap[k] == Rank(ids, k)
  {
    socketIdMap := map[];
    var left, sid := ids, 0;
    while left != {}
      invariant left <= ids && sid == |socketIdMap.Keys| && NumberedBelow(ids, left, socketIdMap)
      decreases left
    {
      var k := Least(left);
      NumberNext(ids, left, socketIdMap, k);
      KeyAdded(socketIdMap, k, sid);
      socketIdMap := socketIdMap[k := sid];
      sid := sid + 1;
      left := left - {k};
    }
  }

  /** The ids not left are numbered by rank, and all are smaller than those left. */
  ghost predicate NumberedBelow(ids: set<nat>, left: set<nat>, m: map<nat, nat>)
  {
    && m.Keys <= ids
    && (forall j | j in ids :: j in m <==> j !in left)
    && (forall j, k | j in m && k in left :: j < k)
    && (forall k | k in m :: m[k] == Rank(ids, k))
  }

  lemma NumberNext(ids: set<nat>, left: set<nat>, m: map<nat, nat>, k: nat)
    requires left <= ids && NumberedBelow(ids, left, m) && k in left && forall j | j in left :: k <= j
    ensures NumberedBelow(ids, left - {k}, m[k := |m.Keys|])
  {
    RankOfNext(ids, m.Keys, k);
    var m' := m[k := |m.Keys|];
    forall j | j in ids ensures j in m' <==> j !in left - {k} {
    }
    forall i, j | i in m' && j in left - {k} ensures i < j {
      assert k <= j;
      assert i == k || i in m;
    }
  }

  lemma KeyAdded(m: map<nat, nat>, k: nat, v: nat)
    requires k !in m
    ensures |m[k := v].Keys| == |m.Keys| + 1
  {
    assert m[k := v].Keys == m.Keys + {k};
  }

  lemma RankOfNext(ids: set<nat>, numbered: set<nat>, k: nat)
    requires k in ids && numbered <= ids
    requires forall j | j in ids :: j in numbered <==> j < k
    ensures Rank(ids, k) == |numbered|
  {
    assert (set j | j in ids && j < k) == numbered;
  }

  ghost function NumSockets(ids: set<nat>): nat
  {
    if ids == {} then 1 else |ids|
  }

  /** An id that was never recorded reads as 0 from the map. */
  ghost function NewSocket(ids: set<nat>, raw: nat): nat
  {
    if raw in ids then Rank(ids, raw) else 0
  }

  ghost function Renumbered(cores: seq<Entry>, ids: set<nat>): (r: seq<Entry>)
    ensures |r| == |cores|
  {
    seq(|cores|, i requires 0 <= i < |cores| => cores[i].(socket := NewSocket(ids, cores[i].socket)))
  }

  method Renumber(cores: seq<Entry>, ids: set<nat>) returns (topology: seq<Entry>, numSockets: nat)
    ensures topology == Renumbered(cores, ids) && numSockets == NumSockets(ids)
  {
    numSockets := if |ids| > 1 then |ids| else 1;
    var socketIdMap := NumberIds(ids);
    topology := cores;
    for i := 0 to |cores|
      invariant |topology| == |cores|
      invariant topology[..i] == Renumbered(cores, ids)[..i]
      invariant topology[i..] == cores[i..]
    {
      var raw := topology[i].socket;
      assert raw == cores[i..][0].socket;
      topology := topology[i := topology[i].(socket := if raw in socketIdMap then socketIdMap[raw] else 0)];
    }
    SizeOne(ids);
  }

  lemma SizeOne(ids: set<nat>)
    ensures NumSockets(ids) == if |ids| > 1 then |ids| else 1
  {
    if ids != {} && |ids| <= 1 {
      var x :| x in ids;
      assert |ids - {x}| == |ids| - 1;
    }
  }

  /** The reference core of a socket: the last core on it, or 0 if it has none. */
  method RefCores(topology: seq<Entry>, numSockets: nat) returns (socketRefCore: seq<nat>)
    requires forall i :: 0 <= i < |topology| ==> topology[i].socket < numSockets
    ensures |socketRefCore| == numSockets
    ensures forall s :: 0 <= s < numSockets ==>
      if HasCore(topology, s) then NamesCore(topology, socketRefCore, s) else socketRefCore[s] == 0
  {
    socketRefCore := seq(numSockets, _ => 0);
    for i := 0 to |topology|
      invariant |socketRefCore| == numSockets
      invariant forall s :: 0 <= s < numSockets ==>
        if HasCore(topology[..i], s) then NamesCore(topology[..i], socketRefCore, s) else socketRefCore[s] == 0
    {
      assert topology[..i + 1] == topology[..i] + [topology[i]];
      assert topology[..i + 1][i] == topology[i];
      socketRefCore := socketRefCore[topology[i].socket := i];
    }
    assert topology[..|topology|] == topology;
  }

  ghost predicate HasCore(topology: seq<Entry>, s: nat)
  {
    exists i :: 0 <= i < |topology| && topology[i].socket == s
  }

  /** The socket's reference core is the last one on it. */
  ghost predicate NamesCore(topology: seq<Entry>, socketRefCore: seq<nat>, s: nat)
    requires s < |socketRefCore|
  {
    && socketRefCore[s] < |topology| && topology[socketRefCore[s]].socket == s
    && forall i :: socketRefCore[s] < i < |topology| ==> topology[i].socket != s
  }

  // ---------- What renumbering guarantees ----------

  /** Renumbering keeps the order of the recorded ids, so it is one-to-one. */
  lemma RankKeepsOrder(ids: set<nat>, j: nat, k: nat)
    requires j in ids && k in ids
    ensures Rank(ids, j) < Rank(ids, k) <==> j < k
    ensures Rank(ids, j) == Rank(ids, k) <==> j == k
    ensures Rank(ids, k) < |ids|
  {
    var below := (x: nat) => set i | i in ids && i < x;
    if j < k {
      assert j in below(k) - below(j);
      SubsetSize(below(j), below(k));
    } else if k < j {
      assert k in below(j) - below(k);
      SubsetSize(below(k), below(j));
    }
    assert k in ids - below(k);
    SubsetSize(below(k), ids);
  }

  /** Renumbering touches the socket alone: cores are on one socket, or on a lower one,
      exactly when their recorded ids say so, and a core without one is on socket 0. */
  lemma RenumberedMeans(cores: seq<Entry>, ids: set<nat>, i: nat, j: nat)
    requires i < |cores| && j < |cores|
    ensures var t := Renumbered(cores, ids);
      && t[i].osId == cores[i].osId && t[i].coreId == cores[i].coreId
      && (cores[i].socket !in ids ==> t[i].socket == 0)
      && (cores[i].socket in ids && cores[j].socket in ids ==>
           && (t[i].socket < t[j].socket <==> cores[i].socket < cores[j].socket)
           && (t[i].socket == t[j].socket <==> cores[i].socket == cores[j].socket))
  {
    if cores[i].socket in ids && cores[j].socket in ids {
      RankKeepsOrder(ids, cores[i].socket, cores[j].socket);
    }
  }

  /** Every number below |ids| is the rank of a recorded id. */
  lemma {:induction false} RankIsOnto(ids: set<nat>, s: nat) returns (k: nat)
    requires s < |ids|
    ensures k in ids && Rank(ids, k) == s
  {
    var m := LeastExists(ids);
    if s == 0 {
      k := m;
      assert (set j | j in ids && j < m) == {};
    } else {
      k := RankIsOnto(ids - {m}, s - 1);
      assert (set j | j in ids && j < k) == (set j | j in ids - {m} && j < k) + {m};
    }
  }

  /** Every core's socket is below the number of sockets, recorded or not. */
  lemma SocketsInRange(ids: set<nat>, raw: nat)
    ensures NewSocket(ids, raw) < NumSockets(ids)
  {
    if raw in ids { RankKeepsOrder(ids, raw, raw); }
    if ids != {} {
      var x :| x in ids;
      assert |ids| > 0;
    }
  }

  ghost predicate HasRaw(cores: seq<Entry>, id: nat)
  {
    exists i :: 0 <= i < |cores| && cores[i].socket == id
  }

  /** Every recorded id is some core's id; for the smallest id a core without a
      recorded id does as well, because it counts as socket 0. */
  ghost predicate Covered(cores: seq<Entry>, ids: set<nat>)
  {
    && |cores| > 0
    && forall k | k in ids ::
         || HasRaw(cores, k)
         || ((forall j | j in ids :: k <= j) && exists i :: 0 <= i < |cores| && cores[i].socket !in ids)
  }

  /** All sockets have a core to refer to exactly when the recorded ids are covered. */
  lemma SocketsNamedIffCovered(cores: seq<Entry>, ids: set<nat>)
    ensures (forall s: nat :: s < NumSockets(ids) ==> HasCore(Renumbered(cores, ids), s)) <==> Covered(cores, ids)
  {
    var t, n := Renumbered(cores, ids), NumSockets(ids);
    if Covered(cores, ids) {
      forall s: nat | s < n ensures HasCore(t, s) {
        CoveredHasCore(cores, ids, s);
      }
    }
    if forall s: nat :: s < n ==> HasCore(t, s) {
      NamedCovers(cores, ids);
    }
  }

  lemma LeastHasRankZero(ids: set<nat>, k: nat)
    requires k in ids
    ensures Rank(ids, k) == 0 <==> forall j | j in ids :: k <= j
  {
    var below := set j | j in ids && j < k;
    if j :| j in ids && j < k {
      assert j in below;
      assert |below| != 0;
    } else {
      assert below == {};
    }
  }

  lemma CoveredHasCore(cores: seq<Entry>, ids: set<nat>, s: nat)
    requires Covered(cores, ids) && s < NumSockets(ids)
    ensures HasCore(Renumbered(cores, ids), s)
  {
    var t := Renumbered(cores, ids);
    if ids == {} {
      assert t[0].socket == s;
    } else {
      var k := RankIsOnto(ids, s);
      if HasRaw(cores, k) {
        var i :| 0 <= i < |cores| && cores[i].socket == k;
        assert t[i].socket == s;
      } else {
        LeastHasRankZero(ids, k);
        var i :| 0 <= i < |cores| && cores[i].socket !in ids;
        assert t[i].socket == s;
      }
    }
  }

  lemma NamedCovers(cores: seq<Entry>, ids: set<nat>)
    requires forall s: nat :: s < NumSockets(ids) ==> HasCore(Renumbered(cores, ids), s)
    ensures Covered(cores, ids)
  {
    var t := Renumbered(cores, ids);
    SocketsInRange(ids, NO_ID);
    assert HasCore(t, 0);
    forall k | k in ids && !HasRaw(cores, k)
      ensures (forall j | j in ids :: k <= j) && exists i :: 0 <= i < |cores| && cores[i].socket !in ids
    {
      RankKeepsOrder(ids, k, k);
      assert HasCore(t, Rank(ids, k));
      var i :| 0 <= i < |t| && t[i].socket == Rank(ids, k);
      if cores[i].socket in ids {
        RankKeepsOrder(ids, cores[i].socket, k);
      }
      LeastHasRankZero(ids, k);
    }
  }

  // ---------- Well-formed input ----------

  /** What has been seen of the current processor's block. */
  datatype Block = Outside | NoIdYet | IdGiven

  function BlockAfter(lines: seq<Line>): Block
  {
    if lines == [] then Outside
    else match lines[|lines| - 1]
      case Processor(_) => NoIdYet
      case PhysicalId(_) => IdGiven
      case _ => BlockAfter(lines[..|lines| - 1])
  }

  /** Numbered processors, and at most one physical id in each one's block. */
  ghost predicate OneIdPerProcessor(lines: seq<Line>)
  {
    && (forall k :: 0 <= k < |lines| && lines[k].Processor? ==> lines[k].osId >= 0)
    && (forall k :: 0 <= k < |lines| && lines[k].PhysicalId? ==> BlockAfter(lines[..k]) == NoIdYet)
  }

  /** Every recorded id is a found core's id, or the open entry's if its block gave one. */
  ghost predicate Accounted(p: Parser, block: Block)
  {
    && (block == Outside || p.entry.osId >= 0)
    && forall k | k in p.ids :: HasRaw(p.cores, k) || (block == IdGiven && k == p.entry.socket)
  }

  lemma StepAccounted(p: Parser, block: Block, line: Line)
    requires Accounted(p, block)
    requires line.Processor? ==> line.osId >= 0
    requires line.PhysicalId? ==> block == NoIdYet
    ensures Accounted(Step(p, line),
                      match line case Processor(_) => NoIdYet case PhysicalId(_) => IdGiven case _ => block)
  {
    FlushKeepsRaw(p);
  }

  lemma {:induction false} IdsAccounted(lines: seq<Line>)
    requires OneIdPerProcessor(lines)
    ensures Accounted(ParsePrefix(lines), BlockAfter(lines))
  {
    if lines != [] {
      var init := lines[..|lines| - 1];
      assert forall k :: 0 <= k < |init| ==> lines[..k] == init[..k] && lines[k] == init[k];
      IdsAccounted(init);
      StepAccounted(ParsePrefix(init), BlockAfter(init), lines[|lines| - 1]);
    }
  }

  lemma FlushKeepsRaw(p: Parser)
    ensures forall k :: HasRaw(p.cores, k) ==> HasRaw(Flush(p), k)
    ensures p.entry.osId >= 0 ==> HasRaw(Flush(p), p.entry.socket)
  {
    forall k | HasRaw(p.cores, k) ensures HasRaw(Flush(p), k) {
      var i :| 0 <= i < |p.cores| && p.cores[i].socket == k;
      assert Flush(p)[i].socket == k;
    }
    if p.entry.osId >= 0 {
      assert Flush(p)[|p.cores|].socket == p.entry.socket;
    }
  }

  /** So with at least one core every socket gets a reference core. */
  lemma WellFormedIsCovered(lines: seq<Line>)
    requires OneIdPerProcessor(lines) && Flush(ParsePrefix(lines)) != []
    ensures Covered(Flush(ParsePrefix(lines)), ParsePrefix(lines).ids)
  {
    IdsAccounted(lines);
    FlushKeepsRaw(ParsePrefix(lines));
  }

  /** The whole discovery: on well-formed input with a core, every socket number is
      below the number of sockets and every reference core lies on its socket. */
  method Discover(lines: seq<Line>)
    returns (topology: seq<Entry>, numSockets: nat, socketRefCore: seq<nat>, threadsPerCore: nat)
    ensures topology == Renumbered(Flush(ParsePrefix(lines)), ParsePrefix(lines).ids)
    ensures |socketRefCore| == numSockets && threadsPerCore == Threads(Flush(ParsePrefix(lines)))
    ensures forall i :: 0 <= i < |topology| ==> topology[i].socket < numSockets
    ensures (forall s :: 0 <= s < numSockets ==> NamesCore(topology, socketRefCore, s))
            <==> Covered(Flush(ParsePrefix(lines)), ParsePrefix(lines).ids)
    ensures OneIdPerProcessor(lines) && topology != [] ==>
      forall s :: 0 <= s < numSockets ==> NamesCore(topology, socketRefCore, s)
  {
    var cores, ids;
    cores, ids, threadsPerCore := Parse(lines);
    topology, numSockets := Renumber(cores, ids);
    forall i | 0 <= i < |topology| ensures topology[i].socket < numSockets {
      SocketsInRange(ids, cores[i].socket);
    }
    socketRefCore := RefCores(topology, numSockets);
    SocketsNamedIffCovered(cores, ids);
    NamedMeansHasCore(topology, socketRefCore);
    if OneIdPerProcessor(lines) && topology != [] {
      WellFormedIsCovered(lines);
    }
  }

  lemma NamedMeansHasCore(topology: seq<Entry>, socketRefCore: seq<nat>)
    ensures forall s: nat :: s < |socketRefCore| && NamesCore(topology, socketRefCore, s) ==> HasCore(topology, s)
  {
  }

  // ---------- A socket without a core ----------

  /** Two physical ids in one processor's block: the first is recorded, and no core's. */
  const TWO_IDS: seq<Line> := [Processor(0), PhysicalId(0), PhysicalId(1)]

  lemma TwoIdsParsed()
    ensures ParsePrefix(TWO_IDS) == Parser(Entry(0, 1, -1), [], {0, 1})
  {
    OneMoreLine([], TWO_IDS[0]);
    OneMoreLine([TWO_IDS[0]], TWO_IDS[1]);
    OneMoreLine([TWO_IDS[0], TWO_IDS[1]], TWO_IDS[2]);
    assert [] + [TWO_IDS[0]] == [TWO_IDS[0]];
    assert TWO_IDS == [TWO_IDS[0], TWO_IDS[1]] + [TWO_IDS[2]];
  }

  lemma SocketWithoutCore()
    ensures var cores, ids := Flush(ParsePrefix(TWO_IDS)), ParsePrefix(TWO_IDS).ids;
            && cores == [Entry(0, 1, -1)] && NumSockets(ids) == 2
            && !HasCore(Renumbered(cores, ids), 0) && !Covered(cores, ids)
  {
    TwoIdsParsed();
    LeastHasRankZero({0, 1}, 1);
    assert !HasRaw([Entry(0, 1, -1)], 0);
  }

  lemma OneMoreLine(lines: seq<Line>, line: Line)
    ensures ParsePrefix(lines + [line]) == Step(ParsePrefix(lines), line)
  {
    assert (lines + [line])[..|lines|] == lines;
  }
}
