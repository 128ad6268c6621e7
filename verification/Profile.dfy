/** The profile dispatcher: it updates the histogram of one region in place. */
module Profile {
  import opened Finite
  import opened Options
  import opened ProfileModel
  import opened ProfileRuns
  import opened Words

  /** A region with its histogram, one array element to a bucket. */
  datatype Sprofil = Sprofil(base: array<nat>, region: Region)

  ghost predicate Valid(prof: Sprofil, flags: nat)
    reads prof.base
  {
    prof.base.Length == Buckets(prof.region, flags)
  }

  function Regions(profs: seq<Sprofil>): (regions: seq<Region>)
    ensures |regions| == |profs| && forall b :: 0 <= b < |regions| ==> regions[b] == profs[b].region
  {
    seq(|profs|, b requires 0 <= b < |profs| => profs[b].region)
  }

  /** The region that the dispatcher chooses. */
  function ChosenProf(profs: seq<Sprofil>, pc: nat): Sprofil
    requires |profs| > 0
  {
    profs[Chosen(Starts(Regions(profs)), pc)]
  }

  /** No two regions share a histogram. */
  ghost predicate Apart(profs: seq<Sprofil>)
  {
    forall a, b :: 0 <= a < b < |profs| ==> profs[a].base != profs[b].base
  }

  ghost function Histograms(profs: seq<Sprofil>): (hs: seq<seq<nat>>)
    reads set b | 0 <= b < |profs| :: profs[b].base
    ensures |hs| == |profs| && forall b :: 0 <= b < |hs| ==> hs[b] == profs[b].base[..]
  {
    seq(|profs|, b requires 0 <= b < |profs| reads set c | 0 <= c < |profs| :: profs[c].base => profs[b].base[..])
  }

  class Profiler {
    /** State of the random generator. */
    var rnum: nat

    method RandomUshort() returns (r: nat)
      modifies this
      ensures rnum == NextSeed(old(rnum)) && r == rnum % U16
    {
      rnum := NextSeed(rnum);
      return rnum % U16;
    }

    method ProfilIncrement(value: int, flags: nat, excess: int, threshold: int) returns (increment: int)
      requires Amount(rnum, value, flags, excess, threshold).Some?
      modifies this
      ensures increment == Amount(old(rnum), value, flags, excess, threshold).value
      ensures rnum == SeedAfter(old(rnum), flags)
    {
      increment := 1;
      if flags == 0 {
        ZeroBits(RANDOM);
        ZeroBits(WEIGHTED);
        ZeroBits(COMPRESS);
        return 1;
      }
      if Bit(flags, RANDOM) {
        var draw := RandomUshort();
        if draw <= (U16 - 1) / 4 {
          return 0;
        }
      }
      if Bit(flags, COMPRESS) {
        var draw := RandomUshort();
        if draw < value {
          return 0;
        }
      }
      if Bit(flags, WEIGHTED) {
        if excess <= 1 {
          increment := 1;
        } else if excess > threshold {
          increment := 255;
        } else {
          increment := excess / (threshold / 255);
        }
      }
    }

    method PosixProfil(address: nat, prof: Sprofil, flags: nat, excess: int, threshold: int)
      requires Valid(prof, flags)
      requires Recorded(prof.base[..], prof.region, flags, rnum, Sample(address, excess), threshold).Some?
      modifies this, prof.base
      ensures Some(prof.base[..])
           == Recorded(old(prof.base[..]), prof.region, flags, old(rnum), Sample(address, excess), threshold)
      ensures rnum == SeedAfterSample(old(rnum), prof.region, flags, Sample(address, excess))
    {
      var r := prof.region;
      var indx: nat;
      if r.off == 0 && r.scale == 2 {
        indx := 0;
      } else {
        var lloffset := (address - r.off) * r.scale % U64;
        indx := lloffset / 131072;
      }
      HitIsInside(r, address, flags);
      if address >= r.off {
        if indx * Width(flags) < r.size {
          var add := ProfilIncrement(Seen(prof.base[indx], flags), flags, excess, threshold);
          WrapIsRemainder(prof.base[indx] + add, Modulus(flags));
          prof.base[indx] := (prof.base[indx] + add) % Modulus(flags);
        }
      }
    }

    /** The scan for the best region. */
    method ChooseRegion(profs: seq<Sprofil>, pc: nat) returns (best: nat)
      requires |profs| > 0
      ensures best == Chosen(Starts(Regions(profs)), pc)
    {
      var bestOffset, bestIndex := 0, -1;
      for i := 0 to |profs|
        invariant bestIndex == Best(Starts(Regions(profs)), pc, i)
        invariant bestOffset == if bestIndex == -1 then 0 else profs[bestIndex].region.off
      {
        var offset := profs[i].region.off;
        if offset < pc && offset > bestOffset {
          bestIndex := i;
          bestOffset := offset;
        }
      }
      if bestIndex == -1 {
        bestIndex := 0;
      }
      return bestIndex;
    }

    /** _papi_hwi_dispatch_profile on the regions, flags and threshold of one event. */
    method DispatchProfile(profs: seq<Sprofil>, flags: nat, threshold: int, pc: nat, over: int)
      requires |profs| > 0 && Valid(ChosenProf(profs, pc), flags)
      requires var p := ChosenProf(profs, pc);
        Recorded(p.base[..], p.region, flags, rnum, Sample(pc, over), threshold).Some?
      modifies this, ChosenProf(profs, pc).base
      ensures var p := ChosenProf(profs, pc);
        && Valid(p, flags)
        && Some(p.base[..]) == Recorded(old(p.base[..]), p.region, flags, old(rnum), Sample(pc, over), threshold)
        && rnum == SeedAfterSample(old(rnum), p.region, flags, Sample(pc, over))
    {
      var bestIndex := ChooseRegion(profs, pc);
      PosixProfil(pc, profs[bestIndex], flags, over, threshold);
    }

    /** With a histogram for each region, a call is one step of a run. */
    method DispatchStep(profs: seq<Sprofil>, u: Setup, s: Sample)
      requires |profs| > 0 && Apart(profs) && u.regions == Regions(profs)
      requires Shaped(Histograms(profs), u)
      requires Dispatch(Profiling(rnum, Histograms(profs)), u, s).Some?
      modifies this, ChosenProf(profs, s.pc).base
      ensures Some(Profiling(rnum, Histograms(profs)))
           == Dispatch(Profiling(old(rnum), old(Histograms(profs))), u, s)
    {
      ghost var hs, b := Histograms(profs), Chosen(Starts(u.regions), s.pc);
      DispatchProfile(profs, u.flags, u.threshold, s.pc, s.over);
      assert Histograms(profs) == hs[b := profs[b].base[..]];
    }
  }
}
