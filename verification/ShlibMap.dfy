/** _linux_update_shlib_info: one pass over the lines of the memory map counts, a second
    one fills the entries the first made room for. */
module ShlibMap {
  import opened ShlibModel

  const PAPI_OK := 0
  const PAPI_ENOMEM := -2

  class Mdi {
    var fullname: string
    var exe: AddressMap
    var entries: array<AddressMap>
    var count: nat

    constructor (fullname: string)
    {
      this.fullname := fullname;
      exe := AddressMap("", 0, 0, 0, 0, 0, 0);
      entries := new AddressMap[0](_ => AddressMap("", 0, 0, 0, 0, 0, 0));
      count := 0;
    }

    /** The counting pass, which also finds the program's own segments. */
    method CountPass(lines: seq<Line>) returns (tIndex: nat)
      modifies this`exe
      ensures tIndex == Count(lines, |lines|)
      ensures exe == Segments(old(exe), lines, fullname, |lines|)
    {
      tIndex := 0;
      var mapname, lastmapname := "", "";
      for i := 0 to |lines|
        invariant tIndex == Count(lines, i) && mapname == NameBefore(lines, i)
        invariant exe == Segments(old(exe), lines, fullname, i)
      {
        var l := lines[i];
        lastmapname := mapname;
        mapname := l.name;
        if l.x && l.r && l.inode != 0 {
          if fullname == mapname {
            exe := exe.(textStart := l.begin, textEnd := l.end);
          }
          tIndex := tIndex + 1;
        } else if l.r && l.w && l.inode != 0 && fullname == mapname {
          exe := exe.(dataStart := l.begin, dataEnd := l.end);
        } else if l.r && l.w && l.inode == 0 && fullname == lastmapname {
          exe := exe.(bssStart := l.begin, bssEnd := l.end);
        }
      }
    }

    /** The filling pass, into zeroed entries. */
    method FillPass(lines: seq<Line>, tmp: array<AddressMap>) returns (tIndex: nat)
      requires tmp.Length == Count(lines, |lines|)
      requires forall k :: 0 <= k < tmp.Length ==> tmp[k] == AddressMap("", 0, 0, 0, 0, 0, 0)
      modifies tmp
      ensures tIndex <= tmp.Length && tmp[..tIndex] == Fill(lines, fullname, |lines|)
    {
      tIndex := 0;
      for i := 0 to |lines|
        invariant tIndex <= tmp.Length && tmp[..tIndex] == Fill(lines, fullname, i)
        invariant forall k :: tIndex <= k < tmp.Length ==> tmp[k] == AddressMap("", 0, 0, 0, 0, 0, 0)
      {
        var l := lines[i];
        RoomIsOwnTexts(lines, fullname, i + 1);
        CountGrows(lines, i + 1, |lines|);
        tIndex := FillLine(l, tmp, tIndex);
      }
    }

    /** One line of the filling pass. */
    method FillLine(l: Line, tmp: array<AddressMap>, index: nat) returns (tIndex: nat)
      requires index <= tmp.Length && (Is(l, fullname, Text) ==> index < tmp.Length)
      requires forall k :: index <= k < tmp.Length ==> tmp[k] == AddressMap("", 0, 0, 0, 0, 0, 0)
      modifies tmp
      ensures tIndex <= tmp.Length && tmp[..tIndex] == Filled(old(tmp[..index]), l, fullname)
      ensures forall k :: tIndex <= k < tmp.Length ==> tmp[k] == old(tmp[k])
    {
      tIndex := index;
      if l.x && l.r && l.inode != 0 {
        if fullname != l.name {
          tIndex := tIndex + 1;
          tmp[tIndex - 1] := tmp[tIndex - 1].(textStart := l.begin, textEnd := l.end, name := Clip(l.name));
        }
      } else if l.r && l.w && l.inode != 0 {
        if fullname != l.name && tIndex > 0 && tmp[tIndex - 1].dataStart == 0 {
          tmp[tIndex - 1] := tmp[tIndex - 1].(dataStart := l.begin, dataEnd := l.end);
        }
      } else if l.r && l.w && l.inode == 0 {
        if tIndex > 0 && tmp[tIndex - 1].bssStart == 0 {
          tmp[tIndex - 1] := tmp[tIndex - 1].(bssStart := l.begin, bssEnd := l.end);
        }
      }
    }

    /** `readable` and `hasRoom` say whether the map file could be opened and room be had for
        the entries. */
    method UpdateShlibInfo(lines: seq<Line>, readable: bool, hasRoom: bool) returns (retval: int)
      modifies this
      ensures fullname == old(fullname) && retval == if readable && !hasRoom then PAPI_ENOMEM else PAPI_OK
      ensures exe == if readable then Segments(old(exe), lines, fullname, |lines|) else old(exe)
      ensures !(readable && hasRoom) ==> entries == old(entries) && count == old(count)
      ensures readable && hasRoom ==>
        && fresh(entries) && entries.Length == count + OwnTexts(lines, fullname, |lines|)
        && MapOk(lines, fullname, |lines|, entries[..count])
    {
      if !readable {
        return PAPI_OK;
      }
      var tIndex := CountPass(lines);
      if !hasRoom {
        return PAPI_ENOMEM;
      }
      var tmp := new AddressMap[tIndex](_ => AddressMap("", 0, 0, 0, 0, 0, 0));
      tIndex := FillPass(lines, tmp);
      entries := tmp;
      count := tIndex;
      RoomIsOwnTexts(lines, fullname, |lines|);
      ghost var m := FillIsRight(lines, fullname, |lines|);
      return PAPI_OK;
    }
  }
}
