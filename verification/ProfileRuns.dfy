/** Runs of the profile dispatcher: the generator's state and the histograms go from one
    sample to the next, and every bucket holds what the samples have deposited in it. */
module ProfileRuns {
  import opened Options
  import opened ProfileModel
  import opened Words

  // ---------- Sums in a bucket's width ----------

  /** The remainder, by taking the modulus off until the rest is below it. */
  function Wrap(x: nat, m: nat): (r: nat)
    requires m > 0
    ensures r < m
  {
    if x < m then x else Wrap(x - m, m)
  }

  lemma {:induction false} TimesTakenOff(x: nat, m: nat) returns (q: nat)
    requires m > 0
    ensures x == m * q + Wrap(x, m)
  {
    if x < m {
      q := 0;
    } else {
      var p := TimesTakenOff(x - m, m);
      q := p + 1;
      assert m * q == m * p + m;
    }
  }

  lemma WrapIsRemainder(x: nat, m: nat)
    requires m > 0
    ensures Wrap(x, m) == x % m
  {
    var q := TimesTakenOff(x, m);
    QuotientUnique(x, m, q, Wrap(x, m));
    assert x == m * (x / m) + x % m;
  }

  lemma {:induction false} WrapTwice(a: nat, x: nat, m: nat)
    requires m > 0
    ensures Wrap(Wrap(a, m) + x, m) == Wrap(a + x, m)
  {
    if a >= m {
      WrapTwice(a - m, x, m);
    }
  }

  // ---------- Deposits ----------

  /** Where a sample goes and what it adds there. */
  datatype Deposit = Missed | Into(region: nat, bucket: nat, amount: nat)

  ghost predicate Fits(hs: seq<seq<nat>>, d: Deposit)
  {
    d.Into? ==> d.region < |hs| && d.bucket < |hs[d.region]|
  }

  ghost predicate FitAll(hs: seq<seq<nat>>, ds: seq<Deposit>)
  {
    forall i :: 0 <= i < |ds| ==> Fits(hs, ds[i])
  }

  function Put(hs: seq<seq<nat>>, d: Deposit, m: nat): (now: seq<seq<nat>>)
    requires Fits(hs, d) && m > 0
    ensures |now| == |hs| && forall b :: 0 <= b < |hs| ==> |now[b]| == |hs[b]|
  {
    if d.Missed? then hs
    else
      var h: seq<nat> := hs[d.region];
      var sum: nat := Wrap(h[d.bucket] + d.amount, m);
      hs[d.region := h[d.bucket := sum]]
  }

  function PutAll(hs: seq<seq<nat>>, ds: seq<Deposit>, m: nat): (now: seq<seq<nat>>)
    requires FitAll(hs, ds) && m > 0
    ensures |now| == |hs| && forall b :: 0 <= b < |hs| ==> |now[b]| == |hs[b]|
  {
    if ds == [] then hs
    else
      var past := PutAll(hs, ds[..|ds| - 1], m);
      assert Fits(hs, ds[|ds| - 1]);
      Put(past, ds[|ds| - 1], m)
  }

  /** All that a run of deposits brings to bucket k of region b. */
  function Total(ds: seq<Deposit>, b: nat, k: nat): nat
  {
    if ds == [] then 0 else Total(ds[..|ds| - 1], b, k) + Share(ds[|ds| - 1], b, k)
  }

  function Share(d: Deposit, b: nat, k: nat): nat
  {
    if d.Into? && d.region == b && d.bucket == k then d.amount else 0
  }

  /** After any run of deposits every bucket of every region holds, modulo its width,
      what it held before and all that was deposited in it. */
  lemma {:induction false} BucketsHoldTheirDeposits(hs: seq<seq<nat>>, ds: seq<Deposit>, m: nat, b: nat, k: nat)
    requires FitAll(hs, ds) && m > 0
    requires b < |hs| && k < |hs[b]| && hs[b][k] < m
    ensures PutAll(hs, ds, m)[b][k] == Wrap(hs[b][k] + Total(ds, b, k), m)
  {
    if |ds| > 0 {
      var before, d := ds[..|ds| - 1], ds[|ds| - 1];
      BucketsHoldTheirDeposits(hs, before, m, b, k);
      OneDeposit(PutAll(hs, before, m), d, m, b, k);
      WrapTwice(hs[b][k] + Total(before, b, k), Share(d, b, k), m);
    }
  }

  lemma OneDeposit(hs: seq<seq<nat>>, d: Deposit, m: nat, b: nat, k: nat)
    requires Fits(hs, d) && m > 0 && b < |hs| && k < |hs[b]| && hs[b][k] < m
    ensures Put(hs, d, m)[b][k] == Wrap(hs[b][k] + Share(d, b, k), m)
  {
  }

  // ---------- One sample ----------

  /** What one call of the dispatcher is given: where the program was, and its excess. */
  datatype Sample = Sample(pc: nat, over: int)

  /** The generator's state, and the histograms of an event's regions. */
  datatype Profiling = Profiling(rnum: nat, hs: seq<seq<nat>>)

  /** What all samples of an event have in common. */
  datatype Setup = Setup(regions: seq<Region>, flags: nat, threshold: int)

  function Starts(regions: seq<Region>): (offs: seq<nat>)
    ensures |offs| == |regions| && forall b :: 0 <= b < |offs| ==> offs[b] == regions[b].off
  {
    seq(|regions|, b requires 0 <= b < |regions| => regions[b].off)
  }

  ghost predicate Shaped(hs: seq<seq<nat>>, u: Setup)
  {
    |hs| == |u.regions| > 0 && forall b :: 0 <= b < |hs| ==> |hs[b]| == Buckets(u.regions[b], u.flags)
  }

  /** A bucket's value as the increment sees it: a 64-bit bucket is read as signed. */
  function Seen(bucket: nat, flags: nat): int
  {
    if Modulus(flags) == U64 && bucket >= 0x8000_0000_0000_0000 then bucket - U64 else bucket
  }

  /** So COMPRESS alone never drops a sample of a 64-bit bucket in its upper half. */
  lemma UpperHalfIsKept(rnum: nat, bucket: nat, flags: nat)
    requires Modulus(flags) == U64 && !Bit(flags, RANDOM) && 0x8000_0000_0000_0000 <= bucket < U64
    ensures Seen(bucket, flags) + U64 == bucket && !Dropped(rnum, Seen(bucket, flags), flags)
  {
  }

  /** What a sample adds to a bucket; none when it divides by zero. */
  function Amount(rnum: nat, value: int, flags: nat, excess: int, threshold: int): Option<nat>
  {
    if Dropped(rnum, value, flags) then Some(0)
    else if Bit(flags, WEIGHTED) && !Divides(excess, threshold) then None
    else Some(Weight(flags, excess, threshold))
  }

  /** A sample adds 0 when it is dropped, 1 when increments are not weighted, and otherwise
      what its excess comes to against the threshold. */
  lemma AmountMeans(rnum: nat, value: int, flags: nat, excess: int, threshold: int)
    requires Amount(rnum, value, flags, excess, threshold).Some?
    ensures var a := Amount(rnum, value, flags, excess, threshold).value;
      if Dropped(rnum, value, flags) then a == 0
      else if !Bit(flags, WEIGHTED) || excess <= 1 then a == 1
      else if excess > threshold then a == 255
      else InWholeParts(a, excess, threshold / 255)
  {
    if Bit(flags, WEIGHTED) && !Dropped(rnum, value, flags) {
      WeightMeans(excess, threshold);
    }
  }

  /** A histogram after a sample. */
  function Recorded(h: seq<nat>, r: Region, flags: nat, rnum: nat, s: Sample, threshold: int): (now: Option<seq<nat>>)
    requires |h| == Buckets(r, flags)
    ensures now.Some? ==> |now.value| == |h|
  {
    HitIsInside(r, s.pc, flags);
    var k := Index(r, s.pc);
    if !Hit(r, s.pc, flags) then Some(h)
    else match Amount(rnum, Seen(h[k], flags), flags, s.over, threshold)
         case None => None
         case Some(a) =>
           var sum: nat := Wrap(h[k] + a, Modulus(flags));
           Some(h[k := sum])
  }

  /** The generator's state after a sample of a region. */
  function SeedAfterSample(rnum: nat, r: Region, flags: nat, s: Sample): nat
  {
    if Hit(r, s.pc, flags) then SeedAfter(rnum, flags) else rnum
  }

  function Dispatch(p: Profiling, u: Setup, s: Sample): (now: Option<Profiling>)
    requires Shaped(p.hs, u)
    ensures now.Some? ==> Shaped(now.value.hs, u)
  {
    var b := Chosen(Starts(u.regions), s.pc);
    match Recorded(p.hs[b], u.regions[b], u.flags, p.rnum, s, u.threshold)
    case None => None
    case Some(h) => Some(Profiling(SeedAfterSample(p.rnum, u.regions[b], u.flags, s), p.hs[b := h]))
  }

  /** The deposit that a dispatch makes. */
  function DepositOf(p: Profiling, u: Setup, s: Sample): Deposit
    requires Shaped(p.hs, u)
  {
    var b := Chosen(Starts(u.regions), s.pc);
    var r, h := u.regions[b], p.hs[b];
    HitIsInside(r, s.pc, u.flags);
    if !Hit(r, s.pc, u.flags) then Missed
    else match Amount(p.rnum, Seen(h[Index(r, s.pc)], u.flags), u.flags, s.over, u.threshold)
         case None => Missed
         case Some(a) => Into(b, Index(r, s.pc), a)
  }

  /** A dispatch changes at most one bucket of one region: it is its deposit. */
  lemma DispatchIsDeposit(p: Profiling, u: Setup, s: Sample)
    requires Shaped(p.hs, u) && Dispatch(p, u, s).Some?
    ensures Fits(p.hs, DepositOf(p, u, s))
    ensures Dispatch(p, u, s).value.hs == Put(p.hs, DepositOf(p, u, s), Modulus(u.flags))
  {
    var b := Chosen(Starts(u.regions), s.pc);
    HitIsInside(u.regions[b], s.pc, u.flags);
  }

  // ---------- Runs ----------

  /** The dispatcher on one sample after the other; none once one divides by zero. */
  function Run(p: Profiling, u: Setup, samples: seq<Sample>): (now: Option<Profiling>)
    requires Shaped(p.hs, u)
    ensures now.Some? ==> Shaped(now.value.hs, u)
  {
    if samples == [] then Some(p)
    else match Run(p, u, samples[..|samples| - 1])
         case None => None
         case Some(q) => Dispatch(q, u, samples[|samples| - 1])
  }

  /** What each sample of a run deposits, given the state it finds. */
  function Deposits(p: Profiling, u: Setup, samples: seq<Sample>): seq<Deposit>
    requires Shaped(p.hs, u)
  {
    if samples == [] then []
    else
      var init := samples[..|samples| - 1];
      match Run(p, u, init)
      case None => []
      case Some(q) => Deposits(p, u, init) + [DepositOf(q, u, samples[|samples| - 1])]
  }

  /** The histograms after a run are those of its deposits. */
  lemma {:induction false} RunIsDeposits(p: Profiling, u: Setup, samples: seq<Sample>) returns (ds: seq<Deposit>)
    requires Shaped(p.hs, u) && Run(p, u, samples).Some?
    ensures ds == Deposits(p, u, samples) && |ds| == |samples| && FitAll(p.hs, ds)
    ensures Run(p, u, samples).value.hs == PutAll(p.hs, ds, Modulus(u.flags))
  {
    if samples == [] {
      ds := [];
    } else {
      var init, s := samples[..|samples| - 1], samples[|samples| - 1];
      var before := RunIsDeposits(p, u, init);
      var q := Run(p, u, init).value;
      DispatchIsDeposit(q, u, s);
      ds := before + [DepositOf(q, u, s)];
      PutOneMore(p.hs, before, DepositOf(q, u, s), Modulus(u.flags));
    }
  }

  lemma PutOneMore(hs: seq<seq<nat>>, ds: seq<Deposit>, d: Deposit, m: nat)
    requires FitAll(hs, ds) && m > 0 && Fits(PutAll(hs, ds, m), d)
    ensures FitAll(hs, ds + [d]) && PutAll(hs, ds + [d], m) == Put(PutAll(hs, ds, m), d, m)
  {
    var more := ds + [d];
    assert more[..|more| - 1] == ds;
  }

  /** Every bucket of every region holds what it held before and all that was deposited in
      it, modulo its width. */
  ghost predicate HoldsDeposits(hs: seq<seq<nat>>, end: seq<seq<nat>>, ds: seq<Deposit>, m: nat)
    requires m > 0
  {
    |end| == |hs| && forall b: nat :: b < |hs| ==> BucketsHold(hs[b], end[b], ds, m, b)
  }

  ghost predicate BucketsHold(h: seq<nat>, end: seq<nat>, ds: seq<Deposit>, m: nat, b: nat)
    requires m > 0
  {
    |end| == |h| && forall k: nat :: k < |h| && h[k] < m ==> end[k] == Wrap(h[k] + Total(ds, b, k), m)
  }

  lemma PutAllHolds(hs: seq<seq<nat>>, end: seq<seq<nat>>, ds: seq<Deposit>, m: nat)
    requires FitAll(hs, ds) && m > 0 && end == PutAll(hs, ds, m)
    ensures HoldsDeposits(hs, end, ds, m)
  {
    forall b: nat | b < |hs| ensures BucketsHold(hs[b], end[b], ds, m, b) {
      forall k: nat | k < |hs[b]| && hs[b][k] < m ensures end[b][k] == Wrap(hs[b][k] + Total(ds, b, k), m) {
        BucketsHoldTheirDeposits(hs, ds, m, b, k);
      }
    }
  }

  /** So it is after any run of samples, whatever the generator and the buckets made of
      them. */
  lemma RunsHoldTheirDeposits(p: Profiling, u: Setup, samples: seq<Sample>, end: Profiling)
    requires Shaped(p.hs, u) && Run(p, u, samples) == Some(end)
    ensures HoldsDeposits(p.hs, end.hs, Deposits(p, u, samples), Modulus(u.flags))
  {
    var ds := RunIsDeposits(p, u, samples);
    PutAllHolds(p.hs, end.hs, ds, Modulus(u.flags));
  }

  /** A run that need not divide always gets to its end. */
  lemma {:induction false} RunsComplete(p: Profiling, u: Setup, samples: seq<Sample>)
    requires Shaped(p.hs, u) && (!Bit(u.flags, WEIGHTED) || u.threshold < 2 || u.threshold >= 255)
    ensures Run(p, u, samples).Some?
  {
    if samples != [] {
      RunsComplete(p, u, samples[..|samples| - 1]);
    }
  }

  // ---------- Runs without dropping and weighting ----------

  ghost predicate Plain(flags: nat)
  {
    !Bit(flags, RANDOM) && !Bit(flags, COMPRESS) && !Bit(flags, WEIGHTED)
  }

  /** The sample belongs to bucket k of region b. */
  predicate Lands(u: Setup, s: Sample, b: nat, k: nat)
    requires |u.regions| > 0
  {
    var chosen := Chosen(Starts(u.regions), s.pc);
    chosen == b && Hit(u.regions[chosen], s.pc, u.flags) && Index(u.regions[chosen], s.pc) == k
  }

  ghost function Landings(u: Setup, samples: seq<Sample>, b: nat, k: nat): set<nat>
    requires |u.regions| > 0
  {
    set i: nat | i < |samples| && Lands(u, samples[i], b, k)
  }

  lemma OneMoreLanding(u: Setup, samples: seq<Sample>, s: Sample, b: nat, k: nat)
    requires |u.regions| > 0
    ensures |Landings(u, samples + [s], b, k)|
         == |Landings(u, samples, b, k)| + if Lands(u, s, b, k) then 1 else 0
  {
    var before, after, n := Landings(u, samples, b, k), Landings(u, samples + [s], b, k), |samples|;
    assert forall i: nat :: i < n ==> (samples + [s])[i] == samples[i];
    assert after == if Lands(u, s, b, k) then before + {n} else before;
  }

  lemma PlainDeposit(p: Profiling, u: Setup, s: Sample, b: nat, k: nat)
    requires Shaped(p.hs, u) && Plain(u.flags)
    ensures Share(DepositOf(p, u, s), b, k) == if Lands(u, s, b, k) then 1 else 0
  {
  }

  lemma {:induction false} PlainDeposits(p: Profiling, u: Setup, samples: seq<Sample>, b: nat, k: nat)
    requires Shaped(p.hs, u) && Plain(u.flags)
    ensures Total(Deposits(p, u, samples), b, k) == |Landings(u, samples, b, k)|
  {
    if samples != [] {
      var init, s := samples[..|samples| - 1], samples[|samples| - 1];
      assert samples == init + [s];
      RunsComplete(p, u, init);
      var q := Run(p, u, init).value;
      PlainDeposits(p, u, init, b, k);
      PlainDeposit(q, u, s, b, k);
      OneMoreLanding(u, init, s, b, k);
      var ds, d := Deposits(p, u, init), DepositOf(q, u, s);
      assert (ds + [d])[..|ds + [d]| - 1] == ds;
    }
  }

  /** After any run without dropping and weighting every bucket has counted the samples
      that belong to it, modulo its width. */
  lemma PlainRunsCount(p: Profiling, u: Setup, samples: seq<Sample>, end: Profiling, b: nat, k: nat)
    requires Shaped(p.hs, u) && Plain(u.flags) && Run(p, u, samples) == Some(end)
    requires b < |p.hs| && k < |p.hs[b]| && p.hs[b][k] < Modulus(u.flags)
    ensures b < |end.hs| && k < |end.hs[b]|
    ensures end.hs[b][k] == Wrap(p.hs[b][k] + |Landings(u, samples, b, k)|, Modulus(u.flags))
  {
    PlainDeposits(p, u, samples, b, k);
    RunBucket(p, u, samples, end, b, k, |Landings(u, samples, b, k)|);
  }

  lemma RunBucket(p: Profiling, u: Setup, samples: seq<Sample>, end: Profiling, b: nat, k: nat, n: nat)
    requires Shaped(p.hs, u) && Run(p, u, samples) == Some(end) && n == Total(Deposits(p, u, samples), b, k)
    requires b < |p.hs| && k < |p.hs[b]| && p.hs[b][k] < Modulus(u.flags)
    ensures b < |end.hs| && k < |end.hs[b]| && end.hs[b][k] == Wrap(p.hs[b][k] + n, Modulus(u.flags))
  {
    RunsHoldTheirDeposits(p, u, samples, end);
    BucketHolds(p.hs, end.hs, Deposits(p, u, samples), Modulus(u.flags), b, k, n);
  }

  lemma BucketHolds(hs: seq<seq<nat>>, end: seq<seq<nat>>, ds: seq<Deposit>, m: nat, b: nat, k: nat, n: nat)
    requires m > 0 && HoldsDeposits(hs, end, ds, m) && b < |hs| && k < |hs[b]| && hs[b][k] < m
    requires n == Total(ds, b, k)
    ensures b < |end| && k < |end[b]| && end[b][k] == Wrap(hs[b][k] + n, m)
  {
    assert BucketsHold(hs[b], end[b], ds, m, b);
  }
}
