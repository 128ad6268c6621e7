/** Cutting a bit field out of a 64-bit register. */
module ExtractBits {
  import opened Words

  /** A mask of the bits that remain below `end` once `beg` bits are shifted out. */
  function BuildBit(beg: nat, end: nat): nat
    requires beg <= 63 && end <= 63
  {
    var all := if end == 63 then Pow2(64) - 1 else Pow2(end + 1) - 1;
    Shr(all, beg)
  }

  /** The bits from one bound to the other, given in either order. */
  function ExtractBits(x: nat, beg: nat, end: nat): nat
    requires beg <= 63 && end <= 63
  {
    var beg1, end1 := if beg <= end then beg else end, if beg <= end then end else beg;
    And(Shr(x, beg1), BuildBit(beg1, end1))
  }

  /** The width-w counter in a register; width 0 stands for an unknown width. */
  function ExtractCounterValue(x: nat, width: nat): nat
    requires width <= 64
  {
    if width > 0 then ExtractBits(x, 0, width - 1) else x
  }

  /** Masking with w ones is the remainder modulo 2^w. */
  lemma {:induction false} MaskIsRemainder(x: nat, w: nat)
    ensures And(x, Pow2(w) - 1) == x % Pow2(w)
  {
    if w > 0 {
      var m := Pow2(w - 1);
      MaskIsRemainder(x / 2, w - 1);
      assert (2 * m - 1) / 2 == m - 1 && (2 * m - 1) % 2 == 1;
      RemainderSplits(x, m);
      assert (x % 2) * ((2 * m - 1) % 2) == x % 2;
    }
  }

  /** Shifting b of m ones out leaves m - b ones. */
  lemma {:induction false} ShiftedOnes(m: nat, b: nat)
    requires b <= m
    ensures Shr(Pow2(m) - 1, b) == Pow2(m - b) - 1
  {
    if b > 0 {
      assert (2 * Pow2(m - 1) - 1) / 2 == Pow2(m - 1) - 1;
      ShiftedOnes(m - 1, b - 1);
    }
  }

  lemma MaskIsOnes(lo: nat, hi: nat)
    requires lo <= hi <= 63
    ensures BuildBit(lo, hi) == Pow2(hi - lo + 1) - 1
  {
    ShiftedOnes(hi + 1, lo);
  }

  lemma OrderedField(x: nat, lo: nat, hi: nat)
    requires lo <= hi <= 63
    ensures And(Shr(x, lo), BuildBit(lo, hi)) == x / Pow2(lo) % Pow2(hi - lo + 1)
  {
    MaskIsOnes(lo, hi);
    MaskIsRemainder(Shr(x, lo), hi - lo + 1);
    ShrDivides(x, lo);
  }

  /** A field is the quotient by its low bound's power, modulo its own width's. */
  lemma ExtractIsQuotientRemainder(x: nat, beg: nat, end: nat)
    requires beg <= 63 && end <= 63
    ensures var lo, len := if beg <= end then beg else end, if beg <= end then end - beg + 1 else beg - end + 1;
            ExtractBits(x, beg, end) == x / Pow2(lo) % Pow2(len)
  {
    if beg <= end {
      OrderedField(x, beg, end);
    } else {
      OrderedField(x, end, beg);
    }
  }

  /** A counter of width w is its register modulo 2^w; width 0 is the identity. */
  lemma CounterValueWraps(x: nat, width: nat)
    requires width <= 64
    ensures ExtractCounterValue(x, width) == if width == 0 then x else x % Pow2(width)
  {
    if width > 0 {
      ExtractIsQuotientRemainder(x, 0, width - 1);
      assert x / 1 == x;
    }
  }
}
