/** Statistical profiling as functions: which region a sample belongs to, which bucket of
    its histogram it falls in, and how much it adds there. */
module ProfileModel {
  import opened Words

  // The PAPI_PROFIL flags, by bit number.
  const RANDOM: nat := 0
  const WEIGHTED: nat := 1
  const COMPRESS: nat := 2
  const BUCKET_16: nat := 3
  const BUCKET_32: nat := 4

  // ---------- The increment ----------

  /** The weighted increment divides by a 255th of the threshold. */
  predicate Divides(excess: int, threshold: int)
  {
    1 < excess <= threshold ==> threshold >= 255
  }

  function Weighted(excess: int, threshold: int): int
    requires Divides(excess, threshold)
  {
    if excess <= 1 then 1
    else if excess > threshold then 255
    else excess / (threshold / 255)
  }

  function Weight(flags: nat, excess: int, threshold: int): int
    requires Bit(flags, WEIGHTED) ==> Divides(excess, threshold)
  {
    if Bit(flags, WEIGHTED) then Weighted(excess, threshold) else 1
  }

  ghost predicate AlwaysDivides(threshold: int)
  {
    forall excess :: Divides(excess, threshold)
  }

  ghost predicate AlwaysBetween(threshold: int, low: int, high: int)
  {
    forall excess :: Divides(excess, threshold) && low <= Weighted(excess, threshold) <= high
  }

  /** No sample ever divides by zero exactly with a threshold below 2 or from 255. */
  lemma AlwaysDividesIff(threshold: int)
    ensures AlwaysDivides(threshold) <==> threshold < 2 || threshold >= 255
  {
    if AlwaysDivides(threshold) {
      assert Divides(threshold, threshold);
    }
  }

  /** An excess of at most 1 weighs 1, one above the threshold 255, and one in between as
      many whole 255ths of the threshold as it reaches. */
  lemma WeightMeans(excess: int, threshold: int)
    requires Divides(excess, threshold)
    ensures excess <= 1 ==> Weighted(excess, threshold) == 1
    ensures excess > 1 && excess > threshold ==> Weighted(excess, threshold) == 255
    ensures 1 < excess <= threshold ==> InWholeParts(Weighted(excess, threshold), excess, threshold / 255)
  {
    if 1 < excess <= threshold {
      var part, w := threshold / 255, excess / (threshold / 255);
      QuotientBelow(excess, part, w);
      QuotientBelow(excess, part, w + 1);
    }
  }

  ghost predicate InWholeParts(w: int, excess: int, part: int)
  {
    w >= 0 && w * part <= excess < (w + 1) * part
  }

  /** From an excess of 2 on, more never weighs less. */
  ghost predicate NeverDecreases(threshold: int)
    requires AlwaysDivides(threshold)
  {
    forall a, b :: 2 <= a <= b ==>
      Divides(a, threshold) && Divides(b, threshold) && Weighted(a, threshold) <= Weighted(b, threshold)
  }

  /** This holds exactly for the thresholds that keep every weight in a byte: with the
      others, the threshold itself weighs more than the excesses above it. */
  lemma NeverDecreasesIff(threshold: int)
    ensures (AlwaysDivides(threshold) && NeverDecreases(threshold))
       <==> threshold < 2 || (threshold >= 255 && threshold % 255 < threshold / 255)
  {
    ByteIff(threshold);
    AlwaysDividesIff(threshold);
    if AlwaysDivides(threshold) && NeverDecreases(threshold) && threshold >= 2 {
      assert Weighted(threshold, threshold) <= Weighted(threshold + 1, threshold);
      QuotientBelow(threshold, threshold / 255, 256);
    }
    if threshold < 2 || (threshold >= 255 && threshold % 255 < threshold / 255) {
      forall a, b | 2 <= a <= b ensures Divides(a, threshold) && Divides(b, threshold)
        ensures Weighted(a, threshold) <= Weighted(b, threshold)
      {
        assert Divides(a, threshold) && Weighted(a, threshold) <= 255;
        if b <= threshold {
          QuotientGrows(a, b, threshold / 255);
        }
      }
    }
  }

  lemma QuotientGrows(a: nat, b: nat, d: nat)
    requires a <= b && d > 0
    ensures a / d <= b / d
  {
    QuotientBelow(b, d, a / d);
    QuotientBelow(a, d, a / d);
  }

  /** Weighted increments stay in a byte exactly when the part of the threshold lost in
      taking a 255th of it is smaller than that 255th. */
  lemma ByteIff(threshold: int)
    ensures AlwaysBetween(threshold, 0, 255)
       <==> threshold < 2 || (threshold >= 255 && threshold % 255 < threshold / 255)
  {
    var q := threshold / 255;
    if AlwaysBetween(threshold, 0, 255) {
      assert Divides(threshold, threshold);
      if threshold >= 2 {
        QuotientBelow(threshold, q, 256);
      }
    }
    if threshold < 2 || (threshold >= 255 && threshold % 255 < q) {
      forall excess ensures Divides(excess, threshold) && 0 <= Weighted(excess, threshold) <= 255 {
        if 1 < excess <= threshold {
          QuotientBelow(excess, q, 256);
        }
      }
    }
  }

  lemma QuotientBelow(x: nat, d: nat, n: nat)
    requires d > 0
    ensures x / d < n <==> x < n * d
  {
    var q := x / d;
    assert x == d * q + x % d;
    if q < n {
      TimesGrows(q + 1, n, d);
    } else {
      TimesGrows(n, q, d);
    }
  }

  lemma TimesGrows(a: int, b: int, c: nat)
    requires a <= b
    ensures a * c <= b * c
  {
    assert (b - a) * c >= 0;
  }

  /** A threshold of at least 255 * 255 always does. */
  lemma LargeThresholdsFit(threshold: int)
    requires threshold >= 65025
    ensures AlwaysBetween(threshold, 0, 255)
  {
    ByteIff(threshold);
  }

  /** The range the code's comment gives, 1 to 255, holds for every excess with very few
      thresholds: from 765 on, an excess of 2 already adds nothing. */
  lemma CommentedRangeIff(threshold: int)
    ensures AlwaysBetween(threshold, 1, 255) <==> threshold < 2 || threshold in {255, 510, 511}
  {
    if AlwaysBetween(threshold, 1, 255) {
      assert AlwaysBetween(threshold, 0, 255) by {
        forall excess ensures Divides(excess, threshold) && 0 <= Weighted(excess, threshold) <= 255 {
          assert Divides(excess, threshold) && 1 <= Weighted(excess, threshold);
        }
      }
      ByteIff(threshold);
      assert Divides(2, threshold) && 1 <= Weighted(2, threshold);
      if threshold >= 2 {
        QuotientBelow(2, threshold / 255, 1);
      }
    }
    if threshold < 2 || threshold in {255, 510, 511} {
      ByteIff(threshold);
      forall excess ensures Divides(excess, threshold) && 1 <= Weighted(excess, threshold) <= 255 {
        assert Divides(excess, threshold) && Weighted(excess, threshold) <= 255;
        if 1 < excess <= threshold {
          QuotientBelow(excess, threshold / 255, 1);
        }
      }
    }
  }

  /** An increment of 0, one past a byte, and a division by zero. */
  lemma WeightedExamples()
    ensures Divides(2, 1000) && Weighted(2, 1000) == 0
    ensures Divides(764, 764) && Weighted(764, 764) == 382
    ensures !Divides(254, 254)
  {
  }

  // ---------- Dropped samples ----------

  /** The generator's state after a draw; the draw is its low half. */
  function NextSeed(rnum: nat): (r: nat)
    ensures r < U32
  {
    (1664525 * rnum + 1013904223) % U32
  }

  /** RANDOM drops a sample on a small draw, COMPRESS on a draw below the bucket's value. */
  predicate Dropped(rnum: nat, value: int, flags: nat)
  {
    || (Bit(flags, RANDOM) && NextSeed(rnum) % U16 <= 16383)
    || (Bit(flags, COMPRESS) && NextSeed(if Bit(flags, RANDOM) then NextSeed(rnum) else rnum) % U16 < value)
  }

  /** The generator's state after a sample: no second draw for one that RANDOM dropped. */
  function SeedAfter(rnum: nat, flags: nat): nat
  {
    var next := if Bit(flags, RANDOM) then NextSeed(rnum) else rnum;
    if Bit(flags, COMPRESS) && !(Bit(flags, RANDOM) && next % U16 <= 16383) then NextSeed(next) else next
  }

  // ---------- The bucket ----------

  /** A region of code: its start, its scale, and the size of its histogram in bytes. */
  datatype Region = Region(off: nat, scale: nat, size: nat)

  function Width(flags: nat): (bytes: nat)
    ensures bytes > 0
  {
    if Bit(flags, BUCKET_16) then 2 else if Bit(flags, BUCKET_32) then 4 else 8
  }

  function Modulus(flags: nat): (m: nat)
    ensures m > 1
  {
    if Bit(flags, BUCKET_16) then U16 else if Bit(flags, BUCKET_32) then U32 else U64
  }

  /** The flag values 8, 16 and 32 ask for buckets of 2, 4 and 8 bytes; the smallest wins. */
  lemma FlagWidths()
    ensures Width(0x8) == 2 && Width(0x10) == 4 && Width(0x20) == 8 && Width(0x38) == 2 && Width(0) == 8
  {
    assert Bit(0x8, 3) && Bit(0x38, 3) && Bit(0x10, 4);
    assert !Bit(0x10, 3) && !Bit(0x20, 3) && !Bit(0x20, 4);
    ZeroBits(3);
    ZeroBits(4);
  }

  /** A bucket's modulus is that of a word as wide as the bucket. */
  lemma ModulusIsWidth(flags: nat)
    ensures Modulus(flags) == Pow2(8 * Width(flags))
  {
    Pow2Of16();
    Pow2Of32();
    Pow2Of64();
  }

  function Index(r: Region, address: nat): (i: nat)
  {
    if r.off == 0 && r.scale == 2 then 0 else (address - r.off) * r.scale % U64 / 131072
  }

  predicate Hit(r: Region, address: nat, flags: nat)
  {
    address >= r.off && Index(r, address) * Width(flags) < r.size
  }

  /** Buckets of which at least the first byte is in the histogram. */
  function Buckets(r: Region, flags: nat): nat
  {
    (r.size + Width(flags) - 1) / Width(flags)
  }

  /** The k-th of them begins before the histogram's end, and no later one does. */
  lemma BucketsIff(r: Region, flags: nat, k: nat)
    ensures k < Buckets(r, flags) <==> k * Width(flags) < r.size
  {
    var w := Width(flags);
    QuotientBelow(r.size + w - 1, w, k + 1);
    assert (k + 1) * w == k * w + w;
  }

  lemma HitIsInside(r: Region, address: nat, flags: nat)
    ensures Hit(r, address, flags) <==> address >= r.off && Index(r, address) < Buckets(r, flags)
  {
    BucketsIff(r, flags, Index(r, address));
  }

  /** The product of offset and scale fits its word. */
  predicate NoWrap(r: Region, address: nat)
  {
    r.off <= address && (address - r.off) * r.scale < U64
  }

  predicate Everything(r: Region)
  {
    r.off == 0 && r.scale == 2
  }

  /** A start of 0 and a scale of 2 put all of a program into the first bucket. */
  lemma WholeProgram(size: nat, address: nat, flags: nat)
    ensures Index(Region(0, 2, size), address) == 0
    ensures Hit(Region(0, 2, size), address, flags) <==> size > 0
  {
  }

  /** Bucket k holds the addresses whose scaled offset lies in the k-th 131072. */
  lemma BucketCovers(r: Region, address: nat, k: nat)
    requires NoWrap(r, address) && !Everything(r)
    ensures Index(r, address) == k <==> k * 131072 <= (address - r.off) * r.scale < (k + 1) * 131072
  {
    InBlock((address - r.off) * r.scale, k);
  }

  lemma InBlock(x: nat, k: nat)
    requires x < U64
    ensures x % U64 / 131072 == k <==> k * 131072 <= x < (k + 1) * 131072
  {
    assert x % U64 == x;
  }

  lemma IndexIsMonotone(r: Region, a: nat, b: nat)
    requires r.off <= a <= b && NoWrap(r, b)
    ensures NoWrap(r, a) && Index(r, a) <= Index(r, b)
  {
    TimesGrows(a - r.off, b - r.off, r.scale);
    if !Everything(r) {
      BucketCovers(r, a, Index(r, a));
      BucketCovers(r, b, Index(r, b));
    }
  }

  /** No bucket is skipped between neighbouring addresses. */
  ghost predicate NeverSkips(r: Region)
  {
    forall a :: r.off <= a && NoWrap(r, a + 1) ==> Index(r, a + 1) <= Index(r, a) + 1
  }

  /** This holds exactly for scales up to 131072, one bucket to a byte. */
  lemma NeverSkipsIff(r: Region)
    requires r.scale < U32
    ensures NeverSkips(r) <==> r.scale <= 131072
  {
    if r.scale <= 131072 {
      forall a | r.off <= a && NoWrap(r, a + 1) ensures Index(r, a + 1) <= Index(r, a) + 1 {
        StepIsSmall(r, a);
      }
    } else {
      var a := SkippedAt(r);
    }
  }

  lemma StepIsSmall(r: Region, a: nat)
    requires r.scale <= 131072 && r.off <= a && NoWrap(r, a + 1)
    ensures Index(r, a + 1) <= Index(r, a) + 1
  {
    if !Everything(r) {
      TimesGrows(a - r.off, a + 1 - r.off, r.scale);
      assert (a + 1 - r.off) * r.scale == (a - r.off) * r.scale + r.scale;
      BucketCovers(r, a, Index(r, a));
      BucketCovers(r, a + 1, Index(r, a + 1));
    }
  }

  /** Above it, the excess over one bucket to a byte adds up to a whole bucket. */
  lemma SkippedAt(r: Region) returns (a: nat)
    requires 131072 < r.scale < U32
    ensures r.off <= a && NoWrap(r, a + 1) && Index(r, a + 1) > Index(r, a) + 1
  {
    var k := Carry(r.scale - 131072);
    a := r.off + k;
    var x, y := (a - r.off) * r.scale, (a + 1 - r.off) * r.scale;
    assert a - r.off == k && a + 1 - r.off == k + 1;
    Split(k, r.scale);
    Split(k + 1, r.scale);
    InBlock(x, k);
    InBlock(y, y / 131072);
  }

  /** The first multiple of e that reaches 131072. */
  lemma Carry(e: nat) returns (k: nat)
    requires 0 < e < U32
    ensures k < 131072 && k * e < 131072 <= (k + 1) * e < 131072 + U32
  {
    k := 131071 / e;
    QuotientBelow(131071, e, k + 1);
    QuotientBelow(131071, e, k);
    QuotientBelow(131071, e, 131072);
    TimesGrows(1, e, 131072);
    assert (k + 1) * e == k * e + e;
  }

  lemma Split(k: nat, scale: nat)
    requires scale >= 131072
    ensures k * scale == k * 131072 + k * (scale - 131072)
  {
  }

  // ---------- The region ----------

  /** The scan over the first n region starts: the greatest one so far that is below the
      pc, starting from a null start; -1 if there is none. */
  function Best(offs: seq<nat>, pc: nat, n: nat): (b: int)
    requires n <= |offs|
    ensures -1 <= b < n
  {
    if n == 0 then -1
    else
      var b := Best(offs, pc, n - 1);
      if offs[n - 1] < pc && offs[n - 1] > (if b == -1 then 0 else offs[b]) then n - 1 else b
  }

  function Chosen(offs: seq<nat>, pc: nat): (b: nat)
    requires |offs| > 0
    ensures b < |offs|
  {
    if Best(offs, pc, |offs|) == -1 then 0 else Best(offs, pc, |offs|)
  }

  predicate StartsBelow(offs: seq<nat>, pc: nat, i: int)
  {
    0 <= i < |offs| && 0 < offs[i] < pc
  }

  /** b is the first region with the greatest start below the pc. */
  ghost predicate Greatest(offs: seq<nat>, pc: nat, b: int)
  {
    && StartsBelow(offs, pc, b)
    && (forall i :: StartsBelow(offs, pc, i) ==> offs[i] <= offs[b])
    && (forall i :: StartsBelow(offs, pc, i) && offs[i] == offs[b] ==> b <= i)
  }

  lemma {:induction false} BestIsGreatest(offs: seq<nat>, pc: nat, n: nat)
    requires n <= |offs|
    ensures var b := Best(offs, pc, n);
            if b == -1 then forall i :: 0 <= i < n ==> !StartsBelow(offs, pc, i) else Greatest(offs[..n], pc, b)
  {
    if n > 0 {
      BestIsGreatest(offs, pc, n - 1);
      var c := Best(offs, pc, n - 1);
      var before, now := offs[..n - 1], offs[..n];
      if c != -1 {
        assert forall i :: StartsBelow(now, pc, i) && i < n - 1 ==> StartsBelow(before, pc, i);
      } else {
        assert forall i :: StartsBelow(now, pc, i) && i < n - 1 ==> StartsBelow(offs, pc, i);
      }
    }
  }

  /** A sample goes to the first region with the greatest non-null start strictly below
      the pc, and to the first region of all if no start is. */
  lemma ChosenIff(offs: seq<nat>, pc: nat, b: nat)
    requires |offs| > 0
    ensures Chosen(offs, pc) == b
       <==> Greatest(offs, pc, b) || (b == 0 && forall i :: 0 <= i < |offs| ==> !StartsBelow(offs, pc, i))
  {
    BestIsGreatest(offs, pc, |offs|);
    assert offs[..|offs|] == offs;
  }

  /** So the very first address of a region is not its own, unless it is the region taken
      in the absence of any other. */
  lemma FirstAddressIff(offs: seq<nat>, b: nat)
    requires b < |offs|
    ensures Chosen(offs, offs[b]) == b <==> b == 0 && forall i :: 0 <= i < |offs| ==> !StartsBelow(offs, offs[b], i)
  {
    ChosenIff(offs, offs[b], b);
  }

  /** With regions at 100 and 200, the sample at 200 goes to the first. */
  lemma NeighbourTakesFirstAddress()
    ensures Chosen([100, 200], 200) == 0
  {
    assert Greatest([100, 200], 200, 0);
    ChosenIff([100, 200], 200, 0);
  }
}
