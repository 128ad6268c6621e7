/** Machine words as natural numbers, with the bitwise operators written out
    bit by bit and characterised by the bits of their result. */
module Words {

  const U16: nat := 0x1_0000
  const U32: nat := 0x1_0000_0000
  const U64: nat := 0x1_0000_0000_0000_0000

  function Pow2(k: nat): (r: nat)
    ensures r >= 1
  {
    if k == 0 then 1 else 2 * Pow2(k - 1)
  }

  predicate Bit(n: nat, k: nat)
  {
    if k == 0 then n % 2 == 1 else Bit(n / 2, k - 1)
  }

  function And(a: nat, b: nat): nat
  {
    if a == 0 || b == 0 then 0
    else 2 * And(a / 2, b / 2) + (a % 2) * (b % 2)
  }

  function Or(a: nat, b: nat): nat
  {
    if a == 0 then b else if b == 0 then a
    else 2 * Or(a / 2, b / 2) + (if a % 2 == 1 || b % 2 == 1 then 1 else 0)
  }

  function Xor(a: nat, b: nat): nat
  {
    if a == 0 then b else if b == 0 then a
    else 2 * Xor(a / 2, b / 2) + (if a % 2 != b % 2 then 1 else 0)
  }

  lemma {:induction false} ZeroBits(k: nat)
    ensures !Bit(0, k)
  {
    if k > 0 { ZeroBits(k - 1); }
  }

  lemma {:induction false} AndBits(a: nat, b: nat, k: nat)
    ensures Bit(And(a, b), k) <==> Bit(a, k) && Bit(b, k)
  {
    if a == 0 || b == 0 {
      ZeroBits(k);
    } else if k > 0 {
      AndBits(a / 2, b / 2, k - 1);
    } else {
      assert a % 2 == 0 || a % 2 == 1;
      assert (a % 2) * (b % 2) == if a % 2 == 0 then 0 else b % 2;
    }
  }

  lemma {:induction false} OrBits(a: nat, b: nat, k: nat)
    ensures Bit(Or(a, b), k) <==> Bit(a, k) || Bit(b, k)
  {
    if a == 0 || b == 0 {
      ZeroBits(k);
    } else if k > 0 {
      OrBits(a / 2, b / 2, k - 1);
    }
  }

  lemma {:induction false} XorBits(a: nat, b: nat, k: nat)
    ensures Bit(Xor(a, b), k) <==> (Bit(a, k) != Bit(b, k))
  {
    if a == 0 || b == 0 {
      ZeroBits(k);
    } else if k > 0 {
      XorBits(a / 2, b / 2, k - 1);
    }
  }

  lemma {:induction false} Pow2Bits(p: nat, k: nat)
    ensures Bit(Pow2(p), k) <==> k == p
  {
    if p == 0 {
      if k > 0 { ZeroBits(k - 1); }
    } else if k > 0 {
      Pow2Bits(p - 1, k - 1);
    }
  }

  /** A word of width w has no bit at w or above. */
  lemma {:induction false} HighBits(n: nat, w: nat, k: nat)
    requires n < Pow2(w) && w <= k
    ensures !Bit(n, k)
  {
    if w == 0 {
      ZeroBits(k);
    } else {
      HighBits(n / 2, w - 1, k - 1);
    }
  }

  /** A word is zero exactly when it has no bit. */
  lemma {:induction false} SomeBit(n: nat) returns (k: nat)
    requires n > 0
    ensures Bit(n, k)
  {
    if n % 2 == 1 {
      k := 0;
    } else {
      var j := SomeBit(n / 2);
      k := j + 1;
    }
  }

  /** The bitwise operators do not leave the width of their operands. */
  lemma {:induction false} OpsFit(a: nat, b: nat, w: nat)
    requires a < Pow2(w) && b < Pow2(w)
    ensures And(a, b) < Pow2(w) && Or(a, b) < Pow2(w) && Xor(a, b) < Pow2(w)
  {
    if w > 0 && a > 0 && b > 0 {
      OpsFit(a / 2, b / 2, w - 1);
      assert (a % 2) * (b % 2) <= 1 by {
        assert a % 2 == 0 || a % 2 == 1;
      }
    }
  }

  lemma {:induction false} Pow2Grows(a: nat, b: nat)
    requires a < b
    ensures 2 * Pow2(a) <= Pow2(b)
  {
    if a > 0 { Pow2Grows(a - 1, b - 1); }
  }

  lemma {:induction false} Pow2Sum(a: nat, b: nat)
    ensures Pow2(a + b) == Pow2(a) * Pow2(b)
  {
    if a > 0 { Pow2Sum(a - 1, b); }
  }

  /** The bits of a word put together from a low part of w bits and a high part. */
  lemma {:induction false} BitsOfParts(lo: nat, hi: nat, w: nat, k: nat)
    requires lo < Pow2(w)
    ensures Bit(lo + Pow2(w) * hi, k) <==> if k < w then Bit(lo, k) else Bit(hi, k - w)
  {
    if w > 0 {
      var rest := Pow2(w - 1) * hi;
      assert Pow2(w) * hi == 2 * rest;
      assert (lo + 2 * rest) / 2 == lo / 2 + rest && (lo + 2 * rest) % 2 == lo % 2;
      if k > 0 {
        BitsOfParts(lo / 2, hi, w - 1, k - 1);
      }
    }
  }

  /** A word of n ones. */
  lemma {:induction false} OnesBits(n: nat, k: nat)
    ensures Bit(Pow2(n) - 1, k) <==> k < n
  {
    if n == 0 {
      ZeroBits(k);
    } else {
      assert (2 * Pow2(n - 1) - 1) / 2 == Pow2(n - 1) - 1 && (2 * Pow2(n - 1) - 1) % 2 == 1;
      if k > 0 {
        OnesBits(n - 1, k - 1);
      }
    }
  }

  lemma Pow2Of16()
    ensures Pow2(16) == U16
  {
    assert Pow2(4) == 16;
    Pow2Sum(4, 4);
    Pow2Sum(8, 8);
  }

  lemma Pow2Of32()
    ensures Pow2(32) == U32
  {
    Pow2Of16();
    Pow2Sum(16, 16);
  }

  lemma Pow2Of64()
    ensures Pow2(64) == U64
  {
    Pow2Of32();
    Pow2Sum(32, 32);
  }

  /** Logical right shift. */
  function Shr(n: nat, s: nat): nat
  {
    if s == 0 then n else Shr(n / 2, s - 1)
  }

  /** A right shift divides by a power of two. */
  lemma {:induction false} ShrDivides(n: nat, s: nat)
    ensures Shr(n, s) == n / Pow2(s)
  {
    if s > 0 {
      ShrDivides(n / 2, s - 1);
      DivDiv(n, Pow2(s - 1));
    }
  }

  lemma DivDiv(n: nat, d: nat)
    requires d > 0
    ensures n / (2 * d) == n / 2 / d
  {
    var q, r := n / 2 / d, n / 2 % d;
    assert n / 2 == d * q + r;
    assert n == 2 * d * q + (2 * r + n % 2);
    QuotientUnique(n, 2 * d, q, 2 * r + n % 2);
  }

  lemma QuotientUnique(n: int, d: int, q: int, r: int)
    requires d > 0 && 0 <= r < d && n == d * q + r
    ensures n / d == q
  {
    var gap := n / d - q;
    assert n == d * (n / d) + n % d;
    assert d * gap == d * (n / d) - d * q;
    assert d * gap == r - n % d;
    if gap > 0 {
      TimesAtLeast(d, gap);
    } else if gap < 0 {
      TimesAtLeast(d, -gap);
    }
  }

  lemma TimesAtLeast(d: int, k: int)
    requires d > 0 && k > 0
    ensures d * k >= d
  {
  }

  lemma RemainderSplits(x: nat, m: nat)
    requires m > 0
    ensures x % (2 * m) == 2 * (x / 2 % m) + x % 2
  {
    DivDiv(x, m);
    var q, r := x / 2 / m, x / 2 % m;
    assert x / 2 == m * q + r;
    assert x == 2 * m * q + (2 * r + x % 2);
    assert x == 2 * m * (x / (2 * m)) + x % (2 * m);
  }

  /** Left shift, without a width. */
  function Shl(n: nat, s: nat): nat
  {
    if s == 0 then n else 2 * Shl(n, s - 1)
  }

  lemma {:induction false} XorSelf(n: nat)
    ensures Xor(n, n) == 0
  {
    if n > 0 { XorSelf(n / 2); }
  }

  /** Clearing the upper part of a word by shifting it down and up and back out. */
  lemma {:induction false} LowPart(n: nat, w: nat)
    ensures Xor(Shl(Shr(n, w), w), n) == n % Pow2(w)
  {
    if w == 0 {
      XorSelf(n);
    } else {
      LowPart(n / 2, w - 1);
      RemainderSplits(n, Pow2(w - 1));
      XorDoubled(Shl(Shr(n / 2, w - 1), w - 1), n);
    }
  }

  lemma XorDoubled(a: nat, n: nat)
    ensures Xor(2 * a, n) == 2 * Xor(a, n / 2) + n % 2
  {
    if a == 0 {
      assert n == 2 * (n / 2) + n % 2;
    } else if n == 0 {
    } else {
      assert 2 * a / 2 == a && 2 * a % 2 == 0;
    }
  }

  /** ffs(3): one plus the index of the lowest set bit, zero for a zero word. */
  function Ffs(n: nat): nat
  {
    if n == 0 then 0 else if n % 2 == 1 then 1 else 1 + Ffs(n / 2)
  }

  lemma {:induction false} FfsLowest(n: nat)
    requires n > 0
    ensures Ffs(n) > 0 && Bit(n, Ffs(n) - 1)
    ensures forall k: nat :: k < Ffs(n) - 1 ==> !Bit(n, k)
  {
    if n % 2 == 0 {
      FfsLowest(n / 2);
      forall k: nat | k < Ffs(n) - 1 ensures !Bit(n, k) {
        if k > 0 { assert !Bit(n / 2, k - 1); }
      }
    }
  }

  /** The lowest set bit is in the low part of a word, or else in the part above it. */
  lemma {:induction false} FfsByParts(n: nat, w: nat)
    ensures n % Pow2(w) != 0 ==> Ffs(n) == Ffs(n % Pow2(w))
    ensures n % Pow2(w) == 0 && Shr(n, w) != 0 ==> Ffs(n) == w + Ffs(Shr(n, w))
    ensures n % Pow2(w) == 0 && Shr(n, w) == 0 ==> n == 0
  {
    if w > 0 {
      FfsByParts(n / 2, w - 1);
      RemainderSplits(n, Pow2(w - 1));
    }
  }

  /** How many bits are set. */
  function Ones(n: nat): nat
  {
    if n == 0 then 0 else n % 2 + Ones(n / 2)
  }

  lemma {:induction false} ClearingDropsOne(n: nat, p: nat)
    requires Bit(n, p)
    ensures Ones(Xor(n, Pow2(p))) + 1 == Ones(n)
  {
    if n == 0 {
      ZeroBits(p);
    } else if p == 0 {
      ClearingTheLowest(n);
    } else {
      ClearingDropsOne(n / 2, p - 1);
      XorWithDouble(n, Pow2(p - 1));
      OnesOfDouble(Xor(n / 2, Pow2(p - 1)), n % 2);
    }
  }

  lemma ClearingTheLowest(n: nat)
    requires n % 2 == 1
    ensures Ones(Xor(n, 1)) + 1 == Ones(n)
  {
    assert Xor(n, 1) == 2 * Xor(n / 2, 0) && Xor(n / 2, 0) == n / 2;
    OnesOfDouble(n / 2, 0);
  }

  lemma XorWithDouble(n: nat, a: nat)
    requires n > 0 && a > 0
    ensures Xor(n, 2 * a) == 2 * Xor(n / 2, a) + n % 2
  {
    assert 2 * a / 2 == a && 2 * a % 2 == 0;
  }

  lemma OnesOfDouble(n: nat, b: nat)
    requires b < 2
    ensures Ones(2 * n + b) == b + Ones(n)
  {
    assert (2 * n + b) / 2 == n;
  }
}
