/** What the shared-library map says about the lines of a process's memory map. */
module ShlibModel {

  const MAX_NAME: nat := 128

  /** A parsed line: the address range, the permissions, the inode and the file name. */
  datatype Line = Line(begin: nat, end: nat, r: bool, w: bool, x: bool, inode: nat, name: string)

  /** An entry of the shared-library map. */
  datatype AddressMap = AddressMap(name: string, textStart: nat, textEnd: nat,
                                   dataStart: nat, dataEnd: nat, bssStart: nat, bssEnd: nat)

  /** Executable and file-backed; otherwise writable and file-backed; otherwise writable
      and anonymous. */
  datatype Kind = Text | Data | Bss | Other

  function KindOf(l: Line): Kind
  {
    if l.x && l.r && l.inode != 0 then Text
    else if l.r && l.w && l.inode != 0 then Data
    else if l.r && l.w && l.inode == 0 then Bss
    else Other
  }

  /** Anonymous memory belongs to whatever comes before it; the program's own files are
      left out. */
  predicate Is(l: Line, own: string, kind: Kind)
  {
    KindOf(l) == kind && (kind.Bss? || l.name != own)
  }

  function Clip(name: string): (r: string)
    ensures r <= name && |r| == if |name| < MAX_NAME then |name| else MAX_NAME
  {
    if |name| > MAX_NAME then name[..MAX_NAME] else name
  }

  // ---------- The two passes ----------

  /** The entries the counting pass makes room for in the first n lines: all executable
      mappings. */
  function Count(lines: seq<Line>, n: nat): nat
    requires n <= |lines|
  {
    if n == 0 then 0 else Count(lines, n - 1) + if KindOf(lines[n - 1]).Text? then 1 else 0
  }

  function OwnTexts(lines: seq<Line>, own: string, n: nat): nat
    requires n <= |lines|
  {
    if n == 0 then 0
    else OwnTexts(lines, own, n - 1) + if KindOf(lines[n - 1]).Text? && lines[n - 1].name == own then 1 else 0
  }

  /** The map after one more line of the filling pass. */
  function Filled(m: seq<AddressMap>, l: Line, own: string): seq<AddressMap>
  {
    if Is(l, own, Text) then m + [AddressMap(Clip(l.name), l.begin, l.end, 0, 0, 0, 0)]
    else if m == [] then m
    else m[|m| - 1 := Patched(m[|m| - 1], l, own)]
  }

  /** The map after the first n lines. */
  function Fill(lines: seq<Line>, own: string, n: nat): seq<AddressMap>
    requires n <= |lines|
  {
    if n == 0 then [] else Filled(Fill(lines, own, n - 1), lines[n - 1], own)
  }

  /** The room left is one entry for each of the program's own executable mappings, so
      the filling pass never outruns the counting pass. */
  lemma {:induction false} RoomIsOwnTexts(lines: seq<Line>, own: string, n: nat)
    requires n <= |lines|
    ensures |Fill(lines, own, n)| + OwnTexts(lines, own, n) == Count(lines, n)
  {
    if n > 0 {
      RoomIsOwnTexts(lines, own, n - 1);
    }
  }

  lemma {:induction false} CountGrows(lines: seq<Line>, m: nat, n: nat)
    requires m <= n <= |lines|
    ensures Count(lines, m) <= Count(lines, n)
  {
    if m < n {
      CountGrows(lines, m, n - 1);
    }
  }

  // ---------- What an entry holds ----------

  /** The indices of the executable mappings of other files among the first n lines. */
  function Texts(lines: seq<Line>, own: string, n: nat): (r: seq<nat>)
    requires n <= |lines|
    ensures forall k :: 0 <= k < |r| ==> r[k] < n && Is(lines[r[k]], own, Text)
    ensures forall k, l :: 0 <= k < l < |r| ==> r[k] < r[l]
    ensures forall i :: 0 <= i < n && Is(lines[i], own, Text) ==> i in r
  {
    if n == 0 then []
    else Texts(lines, own, n - 1) + if Is(lines[n - 1], own, Text) then [n - 1] else []
  }

  /** The range is that of the first mapping of the kind among the lines, passing over
      mappings at address zero; with only such, the last one's; with none, empty. */
  ghost predicate Picked(lines: seq<Line>, own: string, kind: Kind, from: nat, to: nat, start: nat, end: nat)
    requires from <= to <= |lines|
  {
    if start != 0 then
      exists i :: from <= i < to && Is(lines[i], own, kind) && start == lines[i].begin && end == lines[i].end
               && forall j :: from <= j < i && Is(lines[j], own, kind) ==> lines[j].begin == 0
    else
      && (forall j :: from <= j < to && Is(lines[j], own, kind) ==> lines[j].begin == 0)
      && ((end == 0 && forall j :: from <= j < to ==> !Is(lines[j], own, kind))
          || exists i :: from <= i < to && Is(lines[i], own, kind) && end == lines[i].end
                      && forall j :: i < j < to ==> !Is(lines[j], own, kind))
  }

  lemma PickedKeeps(lines: seq<Line>, own: string, kind: Kind, from: nat, to: nat, start: nat, end: nat)
    requires from <= to < |lines| && Picked(lines, own, kind, from, to, start, end)
    requires !Is(lines[to], own, kind) || start != 0
    ensures Picked(lines, own, kind, from, to + 1, start, end)
  {
  }

  lemma PickedNow(lines: seq<Line>, own: string, kind: Kind, from: nat, to: nat, end: nat)
    requires from <= to < |lines| && Picked(lines, own, kind, from, to, 0, end) && Is(lines[to], own, kind)
    ensures Picked(lines, own, kind, from, to + 1, lines[to].begin, lines[to].end)
  {
  }

  /** An entry for the text at line t, with what follows before line `to`. */
  ghost predicate EntryOk(lines: seq<Line>, own: string, t: nat, to: nat, m: AddressMap)
    requires t < to <= |lines|
  {
    && m.name == Clip(lines[t].name) && m.textStart == lines[t].begin && m.textEnd == lines[t].end
    && Picked(lines, own, Data, t + 1, to, m.dataStart, m.dataEnd)
    && Picked(lines, own, Bss, t + 1, to, m.bssStart, m.bssEnd)
  }

  ghost predicate MapOk(lines: seq<Line>, own: string, n: nat, m: seq<AddressMap>)
    requires n <= |lines|
  {
    |m| == |Texts(lines, own, n)| && forall k :: 0 <= k < |m| ==> EntryAt(lines, own, n, Texts(lines, own, n), m, k)
  }

  /** Entry k is right up to the next entry's text. */
  ghost predicate EntryAt(lines: seq<Line>, own: string, n: nat, texts: seq<nat>, m: seq<AddressMap>, k: nat)
    requires k < |m| == |texts|
  {
    var to := if k + 1 < |m| then texts[k + 1] else n;
    texts[k] < to <= |lines| && EntryOk(lines, own, texts[k], to, m[k])
  }

  /** The map lists exactly the executable mappings of other files, in order, each with
      the data and bss mappings that come before the next of them. */
  lemma {:induction false} FillIsRight(lines: seq<Line>, own: string, n: nat) returns (m: seq<AddressMap>)
    requires n <= |lines|
    ensures m == Fill(lines, own, n) && MapOk(lines, own, n, m)
  {
    if n == 0 {
      m := [];
    } else {
      var before := FillIsRight(lines, own, n - 1);
      m := Filled(before, lines[n - 1], own);
      LineKeepsMap(lines, own, n - 1, n, before, m);
    }
  }

  lemma LineKeepsMap(lines: seq<Line>, own: string, n: nat, more: nat, m: seq<AddressMap>, now: seq<AddressMap>)
    requires more == n + 1 <= |lines| && MapOk(lines, own, n, m) && now == Filled(m, lines[n], own)
    ensures MapOk(lines, own, more, now)
  {
    var before, after := Texts(lines, own, n), Texts(lines, own, more);
    forall k | 0 <= k < |now| ensures EntryAt(lines, own, more, after, now, k) {
      if k < |m| {
        assert EntryAt(lines, own, n, before, m, k);
        if k == |m| - 1 {
          LineKeepsEntry(lines, own, before[k], n, m[k]);
        }
      }
    }
  }

  /** What a line does to the last entry. */
  function Patched(e: AddressMap, l: Line, own: string): AddressMap
  {
    if Is(l, own, Data) && e.dataStart == 0 then e.(dataStart := l.begin, dataEnd := l.end)
    else if Is(l, own, Bss) && e.bssStart == 0 then e.(bssStart := l.begin, bssEnd := l.end)
    else e
  }

  lemma LineKeepsEntry(lines: seq<Line>, own: string, t: nat, n: nat, e: AddressMap)
    requires t < n < |lines| && EntryOk(lines, own, t, n, e)
    ensures EntryOk(lines, own, t, n + 1, Patched(e, lines[n], own))
  {
    if Is(lines[n], own, Data) && e.dataStart == 0 {
      PickedNow(lines, own, Data, t + 1, n, e.dataEnd);
    } else {
      PickedKeeps(lines, own, Data, t + 1, n, e.dataStart, e.dataEnd);
    }
    if Is(lines[n], own, Bss) && e.bssStart == 0 {
      PickedNow(lines, own, Bss, t + 1, n, e.bssEnd);
    } else {
      PickedKeeps(lines, own, Bss, t + 1, n, e.bssStart, e.bssEnd);
    }
  }

  // ---------- The program's own segments ----------

  function NameBefore(lines: seq<Line>, i: nat): string
    requires i <= |lines|
  {
    if i == 0 then "" else lines[i - 1].name
  }

  /** A mapping of the program: by its own file name, or for anonymous memory by the name
      on the line before. */
  predicate Owns(lines: seq<Line>, own: string, i: nat, kind: Kind)
    requires i < |lines|
  {
    KindOf(lines[i]) == kind && own == if kind.Bss? then NameBefore(lines, i) else lines[i].name
  }

  /** The last such mapping among the first n lines, -1 if there is none. */
  function LastOwned(lines: seq<Line>, own: string, n: nat, kind: Kind): (i: int)
    requires n <= |lines|
    ensures -1 <= i < n
    ensures i >= 0 ==> Owns(lines, own, i, kind)
    ensures forall j: nat :: i < j < n ==> !Owns(lines, own, j, kind)
  {
    if n == 0 then -1
    else if Owns(lines, own, n - 1, kind) then n - 1
    else LastOwned(lines, own, n - 1, kind)
  }

  /** The program's segments after the first n lines. */
  function Segments(was: AddressMap, lines: seq<Line>, own: string, n: nat): AddressMap
    requires n <= |lines|
  {
    var t, d, b := LastOwned(lines, own, n, Text), LastOwned(lines, own, n, Data), LastOwned(lines, own, n, Bss);
    AddressMap(was.name,
               if t < 0 then was.textStart else lines[t].begin, if t < 0 then was.textEnd else lines[t].end,
               if d < 0 then was.dataStart else lines[d].begin, if d < 0 then was.dataEnd else lines[d].end,
               if b < 0 then was.bssStart else lines[b].begin, if b < 0 then was.bssEnd else lines[b].end)
  }

  /** The range is that of the last of the lines picked out; as it was if there is none. */
  ghost predicate LastOf(lines: seq<Line>, picked: set<nat>, was: (nat, nat), now: (nat, nat))
    requires forall i :: i in picked ==> i < |lines|
  {
    if picked == {} then now == was
    else exists i :: i in picked && (forall j :: j in picked ==> j <= i) && now == (lines[i].begin, lines[i].end)
  }

  /** The program's text, data and bss by what the lines say: executable, readable and in
      the program's file; otherwise readable, writable and in it; readable, writable,
      anonymous and on the line after one in it. */
  lemma SegmentsMean(was: AddressMap, lines: seq<Line>, own: string)
    ensures var m, n := Segments(was, lines, own, |lines|), |lines|;
      && m.name == was.name
      && LastOf(lines,
                set i: nat | i < n && lines[i].x && lines[i].r && lines[i].inode != 0 && lines[i].name == own,
                (was.textStart, was.textEnd), (m.textStart, m.textEnd))
      && LastOf(lines,
                set i: nat | i < n && !lines[i].x && lines[i].r && lines[i].w && lines[i].inode != 0
                             && lines[i].name == own,
                (was.dataStart, was.dataEnd), (m.dataStart, m.dataEnd))
      && LastOf(lines,
                set i: nat | i < n && lines[i].r && lines[i].w && lines[i].inode == 0
                             && own == if i == 0 then "" else lines[i - 1].name,
                (was.bssStart, was.bssEnd), (m.bssStart, m.bssEnd))
  {
    var n := |lines|;
    var texts := set i: nat | i < n && lines[i].x && lines[i].r && lines[i].inode != 0 && lines[i].name == own;
    var datas := set i: nat | i < n && !lines[i].x && lines[i].r && lines[i].w && lines[i].inode != 0
                              && lines[i].name == own;
    var bsses := set i: nat | i < n && lines[i].r && lines[i].w && lines[i].inode == 0
                              && own == if i == 0 then "" else lines[i - 1].name;
    LastIsLastOwned(lines, own, Text, texts, (was.textStart, was.textEnd));
    LastIsLastOwned(lines, own, Data, datas, (was.dataStart, was.dataEnd));
    LastIsLastOwned(lines, own, Bss, bsses, (was.bssStart, was.bssEnd));
  }

  lemma LastIsLastOwned(lines: seq<Line>, own: string, kind: Kind, picked: set<nat>, was: (nat, nat))
    requires forall i: nat :: i in picked <==> i < |lines| && Owns(lines, own, i, kind)
    ensures var i := LastOwned(lines, own, |lines|, kind);
            LastOf(lines, picked, was, if i < 0 then was else (lines[i].begin, lines[i].end))
  {
    var i := LastOwned(lines, own, |lines|, kind);
    if i < 0 {
      assert picked == {};
    } else {
      assert i in picked;
    }
  }

  // ---------- A small map ----------

  /** A library, the program's data with anonymous memory behind it, the library's data,
      and the program's code. */
  const SMALL: seq<Line> :=
    [Line(10, 20, true, false, true, 7, "/l"), Line(30, 40, true, true, false, 8, "/p"),
     Line(50, 60, true, true, false, 0, ""), Line(70, 80, true, true, false, 7, "/l"),
     Line(90, 95, true, false, true, 8, "/p")]

  /** The program's data is not taken for the library's, but its anonymous memory is. */
  lemma SmallMap(was: AddressMap)
    ensures Fill(SMALL, "/p", 5) == [AddressMap("/l", 10, 20, 70, 80, 50, 60)]
    ensures Segments(was, SMALL, "/p", 5) == AddressMap(was.name, 90, 95, 30, 40, 50, 60)
  {
    assert Fill(SMALL, "/p", 1) == [AddressMap("/l", 10, 20, 0, 0, 0, 0)];
    assert Fill(SMALL, "/p", 2) == [AddressMap("/l", 10, 20, 0, 0, 0, 0)];
    assert Fill(SMALL, "/p", 3) == [AddressMap("/l", 10, 20, 0, 0, 50, 60)];
    assert Fill(SMALL, "/p", 4) == [AddressMap("/l", 10, 20, 70, 80, 50, 60)];
    assert Owns(SMALL, "/p", 1, Data) && Owns(SMALL, "/p", 2, Bss) && Owns(SMALL, "/p", 4, Text);
  }
}
