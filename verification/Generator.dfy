/** The profiler's random generator: RANDOM is meant to drop a quarter of the samples, and
    over every full cycle of the draws it drops exactly that. */
module Generator {
  import opened Finite
  import opened Words
  import opened ProfileModel

  // ---------- The generator without a word width ----------

  /** n steps from y, on unbounded numbers. */
  function Lin(y: nat, n: nat): nat
  {
    if n == 0 then y else 1664525 * Lin(y, n - 1) + 1013904223
  }

  lemma {:induction false} LinSum(y: nat, m: nat, n: nat)
    ensures Lin(y, m + n) == Lin(Lin(y, m), n)
  {
    if n > 0 {
      LinSum(y, m, n - 1);
    }
  }

  function U(k: nat): nat
  {
    if k == 0 then 416131 else U(k - 1) * (1 + 2 * U(k - 1) * Pow2(k - 1))
  }

  function V(k: nat): nat
  {
    if k == 0 then 506952111 else V(k - 1) + U(k - 1) * Pow2(k - 1) * (2 * V(k - 1) + 1)
  }

  /** p steps take y this far. */
  function Reached(y: nat, p: nat, u: nat, v: nat): nat
  {
    y + p * (4 * (u * y) + 2 * v + 1)
  }

  ghost predicate Jumps(p: nat, u: nat, v: nat)
  {
    forall y :: Lin(y, p) == Reached(y, p, u, v)
  }

  lemma TwoJumps(y: nat, p: nat, u: nat, v: nat)
    ensures Reached(Reached(y, p, u, v), p, u, v)
         == Reached(y, 2 * p, u * (1 + 2 * u * p), v + u * p * (2 * v + 1))
  {
  }

  /** Two runs of p steps are one of 2p. */
  lemma JumpedTwice(y: nat, p: nat, u: nat, v: nat, u': nat, v': nat)
    requires Jumps(p, u, v) && u' == u * (1 + 2 * u * p) && v' == v + u * p * (2 * v + 1)
    ensures Lin(y, p + p) == Reached(y, 2 * p, u', v')
  {
    LinSum(y, p, p);
    TwoJumps(y, p, u, v);
  }

  lemma JumpTwice(p: nat, u: nat, v: nat, u': nat, v': nat)
    requires Jumps(p, u, v) && u' == u * (1 + 2 * u * p) && v' == v + u * p * (2 * v + 1)
    ensures Jumps(2 * p, u', v')
  {
    forall y ensures Lin(y, 2 * p) == Reached(y, 2 * p, u', v') {
      JumpedTwice(y, p, u, v, u', v');
    }
  }

  /** 2^k steps move every number by an odd multiple of 2^k. */
  lemma {:induction false} JumpsAll(k: nat)
    ensures Jumps(Pow2(k), U(k), V(k))
  {
    if k > 0 {
      JumpsAll(k - 1);
      JumpTwice(Pow2(k - 1), U(k - 1), V(k - 1), U(k), V(k));
    }
  }

  lemma OneMore(y: nat, p: nat, m: nat, w: nat, a: nat)
    ensures y + p * (m + 2 * w) + p * (2 * a + 1) == y + p * (m + 1 + 2 * (w + a))
  {
  }

  lemma JumpedFrom(z: nat, p: nat, u: nat, v: nat) returns (a: nat)
    requires Jumps(p, u, v)
    ensures Lin(z, p) == z + p * (2 * a + 1)
  {
    a := 2 * (u * z) + v;
    assert Lin(z, p) == Reached(z, p, u, v);
  }

  lemma OneMoreJump(y: nat, p: nat, u: nat, v: nat, steps: nat, m: nat, x: nat) returns (w: nat)
    requires Jumps(p, u, v) && Lin(y, steps) == y + p * (m + 2 * x)
    ensures Lin(y, steps + p) == y + p * (m + 1 + 2 * w)
  {
    LinSum(y, steps, p);
    var a := JumpedFrom(Lin(y, steps), p, u, v);
    OneMore(y, p, m, x, a);
    w := x + a;
  }

  /** m such runs of steps move a number by m times 2^k, and an even number of times more. */
  lemma {:induction false} ManyJumps(y: nat, p: nat, u: nat, v: nat, m: nat) returns (w: nat)
    requires Jumps(p, u, v)
    ensures Lin(y, m * p) == y + p * (m + 2 * w)
  {
    if m == 0 {
      w := 0;
    } else {
      var x := ManyJumps(y, p, u, v, m - 1);
      w := OneMoreJump(y, p, u, v, (m - 1) * p, m - 1, x);
      assert (m - 1) * p + p == m * p;
    }
  }

  lemma SameFactor(p: nat, a: nat, b: nat)
    requires p > 0 && p * a == p * b
    ensures a == b
  {
    QuotientUnique(p * a, p, a, 0);
    QuotientUnique(p * b, p, b, 0);
  }

  /** If an n-fold run moves a number by a multiple of twice its length, n is even. */
  lemma EvenRuns(y: nat, p: nat, u: nat, v: nat, n: nat, q: nat) returns (m: nat)
    requires p > 0 && Jumps(p, u, v) && Lin(y, n * p) == y + p * (2 * q)
    ensures n == 2 * m
  {
    var w := ManyJumps(y, p, u, v, n);
    SameFactor(p, n + 2 * w, 2 * q);
    m := q - w;
  }

  /** Only a multiple of 2^k steps leaves the low k bits as they were. */
  lemma {:induction false} ReturnsAfter(y: nat, d: nat, q: nat, k: nat) returns (m: nat)
    requires Lin(y, d) == y + Pow2(k) * q
    ensures d == m * Pow2(k)
    decreases k
  {
    if k == 0 {
      m := d;
    } else {
      var p := Pow2(k - 1);
      Regroup(p, q);
      var n := ReturnsAfter(y, d, 2 * q, k - 1);
      JumpsAll(k - 1);
      m := EvenRuns(y, p, U(k - 1), V(k - 1), n, q);
      Regroup(m, p);
    }
  }

  lemma Regroup(a: nat, b: nat)
    ensures a * (2 * b) == 2 * a * b
  {
  }

  // ---------- The generator ----------

  /** Its state after n draws. */
  function State(rnum: nat, n: nat): nat
  {
    if n == 0 then rnum else NextSeed(State(rnum, n - 1))
  }

  /** The word width only takes the remainder. */
  lemma {:induction false} StateIsLin(rnum: nat, n: nat)
    ensures State(rnum, n) % U32 == Lin(rnum, n) % U32
  {
    if n > 0 {
      StateIsLin(rnum, n - 1);
      StepOfRemainder(State(rnum, n - 1), Lin(rnum, n - 1));
    }
  }

  lemma Unwrapped(x: nat, m: nat)
    requires x < m
    ensures x % m == x
  {
  }

  lemma SameRemainder(x: nat, y: nat, t: nat, m: nat)
    requires m > 0 && x == y + m * t
    ensures x % m == y % m
  {
    var q, r := y / m, y % m;
    assert y == m * q + r;
    assert m * (q + t) == m * q + m * t;
    QuotientUnique(x, m, q + t, r);
    assert x == m * (x / m) + x % m;
  }

  lemma StepOfRemainder(a: nat, b: nat)
    requires a % U32 == b % U32
    ensures NextSeed(a) % U32 == (1664525 * b + 1013904223) % U32
  {
    var r := 1664525 * (a % U32) + 1013904223;
    SameRemainder(1664525 * a + 1013904223, r, 1664525 * (a / U32), U32);
    SameRemainder(1664525 * b + 1013904223, r, 1664525 * (b / U32), U32);
    Unwrapped(NextSeed(a), U32);
  }

  lemma LowHalf(a: nat, b: nat)
    requires a % U32 == b % U32
    ensures a % U16 == b % U16
  {
    SameRemainder(a, a % U32, U16 * (a / U32), U16);
    SameRemainder(b, b % U32, U16 * (b / U32), U16);
  }

  lemma StepsApart(y: nat, z: nat) returns (q: nat)
    requires y <= z && y % U16 == z % U16
    ensures z == y + U16 * q
  {
    q := (z - y) / U16;
  }

  lemma {:induction false} LinGrows(y: nat, n: nat)
    ensures y <= Lin(y, n)
  {
    if n > 0 {
      LinGrows(y, n - 1);
    }
  }

  /** No draw repeats within 65536. */
  lemma DrawsDiffer(rnum: nat, i: nat, j: nat)
    requires i < j < i + U16
    ensures State(rnum, i) % U16 != State(rnum, j) % U16
  {
    if State(rnum, i) % U16 == State(rnum, j) % U16 {
      var y, d := Lin(rnum, i), j - i;
      LinSum(rnum, i, d);
      StateIsLin(rnum, i);
      StateIsLin(rnum, j);
      LowHalf(State(rnum, i), y);
      LowHalf(State(rnum, j), Lin(y, d));
      LinGrows(y, d);
      var q := StepsApart(y, Lin(y, d));
      Pow2Of16();
      var m := ReturnsAfter(y, d, q, 16);
    }
  }

  // ---------- How many samples RANDOM drops ----------

  /** The first n draws. */
  function Draws(rnum: nat, n: nat): (r: seq<nat>)
    ensures |r| == n && forall i :: 0 <= i < n ==> r[i] == State(rnum, i + 1) % U16
  {
    seq(n, i requires 0 <= i < n => State(rnum, i + 1) % U16)
  }

  function Under(s: seq<nat>, m: nat): (r: seq<nat>)
    ensures forall x :: x in r <==> x in s && x < m
  {
    if s == [] then []
    else
      var last := s[|s| - 1];
      assert s == s[..|s| - 1] + [last];
      Under(s[..|s| - 1], m) + if last < m then [last] else []
  }

  lemma {:induction false} UnderDistinct(s: seq<nat>, m: nat)
    requires Distinct(s)
    ensures Distinct(Under(s, m))
  {
    if s != [] {
      var init := s[..|s| - 1];
      UnderDistinct(init, m);
      assert s[|s| - 1] !in init;
      assert forall x :: x in Under(init, m) ==> x in init;
    }
  }

  /** A sequence that has each number below n once has m of them below m. */
  lemma UnderSize(s: seq<nat>, n: nat, m: nat)
    requires Distinct(s) && |s| == n && (forall i :: 0 <= i < n ==> s[i] < n) && m <= n
    ensures |Under(s, m)| == m
  {
    FullIffAll(s, n);
    UnderDistinct(s, m);
    DistinctSize(Under(s, m));
    assert Elements(Under(s, m)) == Below(m);
  }

  /** How many of n samples in a row on a bucket of that value are dropped. */
  function DroppedOf(rnum: nat, value: nat, flags: nat, n: nat): nat
  {
    if n == 0 then 0
    else DroppedOf(rnum, value, flags, n - 1) + if Dropped(State(rnum, n - 1), value, flags) then 1 else 0
  }

  /** The bound below which a draw drops a sample, when one of the two flags is set. */
  function Bound(flags: nat, value: nat): nat
  {
    if Bit(flags, RANDOM) then 16384 else value
  }

  lemma {:induction false} DroppedAreUnder(rnum: nat, value: nat, flags: nat, n: nat)
    requires Bit(flags, RANDOM) != Bit(flags, COMPRESS)
    ensures DroppedOf(rnum, value, flags, n) == |Under(Draws(rnum, n), Bound(flags, value))|
  {
    if n > 0 {
      DroppedAreUnder(rnum, value, flags, n - 1);
      assert Draws(rnum, n)[..n - 1] == Draws(rnum, n - 1);
    }
  }

  /** Of any 65536 samples in a row as many are dropped as there are draws below the
      bound: the draws take every value once. */
  lemma DropsTheBound(rnum: nat, value: nat, flags: nat)
    requires Bit(flags, RANDOM) != Bit(flags, COMPRESS) && Bound(flags, value) <= U16
    ensures DroppedOf(rnum, value, flags, U16) == Bound(flags, value)
  {
    var draws := Draws(rnum, U16);
    forall i, j | 0 <= i < j < |draws| ensures draws[i] != draws[j] {
      DrawsDiffer(rnum, i + 1, j + 1);
    }
    UnderSize(draws, U16, Bound(flags, value));
    DroppedAreUnder(rnum, value, flags, U16);
  }

  /** RANDOM alone drops exactly a quarter of any 65536 samples in a row. */
  lemma RandomDropsAQuarter(rnum: nat, value: nat, flags: nat)
    requires Bit(flags, RANDOM) && !Bit(flags, COMPRESS)
    ensures DroppedOf(rnum, value, flags, U16) * 4 == U16
  {
    DropsTheBound(rnum, value, flags);
  }

  /** COMPRESS alone drops a part of them that grows with the bucket: none on an empty
      bucket, value many of 65536. */
  lemma CompressDropsInProportion(rnum: nat, value: nat, flags: nat)
    requires !Bit(flags, RANDOM) && Bit(flags, COMPRESS) && value <= U16
    ensures DroppedOf(rnum, value, flags, U16) == value
  {
    DropsTheBound(rnum, value, flags);
  }

  /** With one of the flags a sample makes one draw, so states follow one another. */
  lemma OneDraw(rnum: nat, flags: nat)
    requires Bit(flags, RANDOM) != Bit(flags, COMPRESS)
    ensures SeedAfter(rnum, flags) == NextSeed(rnum)
  {
  }

  /** With both, COMPRESS sees the second draw, which is made only if RANDOM keeps the sample. */
  lemma BothFlags(rnum: nat, value: nat, flags: nat)
    requires Bit(flags, RANDOM) && Bit(flags, COMPRESS)
    ensures Dropped(rnum, value, flags) <==> Draws(rnum, 1)[0] < 16384 || Draws(rnum, 2)[1] < value
    ensures SeedAfter(rnum, flags) == State(rnum, if Draws(rnum, 1)[0] < 16384 then 1 else 2)
  {
    assert State(rnum, 0) == rnum;
    assert State(rnum, 1) == NextSeed(rnum);
    assert State(rnum, 2) == NextSeed(NextSeed(rnum));
  }

  /** The first draws of a process. */
  lemma FirstDraws()
    ensures Draws(0xdedbeef, 3) == [57218, 6393, 28164]
  {
    var a := 0xdedbeef;
    assert State(a, 1) == 0x50ebdf82;
    assert State(a, 2) == 0x272918f9;
    assert State(a, 3) == 0x9c96e04;
  }
}
