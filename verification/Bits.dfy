/**
 The bits of a 64-bit word, set, cleared and tested with a shifted one as in sys/phy_mem.c.
 */
module Bits {
  import Words

  const BITS: nat := 64

  type Position = k: nat | k < BITS

  /** 1 << k: a one shifted k times; nothing is left of it from k = 64 on. */
  function Mask(k: nat): bv64 {
    if k == 0 then 1 else Mask(k - 1) << 1
  }

  /** A word of the map.  Wrapped, so that only this module reasons about its bits. */
  datatype Cell = Cell(bits: bv64)

  const NONE: Cell := Cell(0)

  /** mem_map[i] & (1 << k) */
  predicate Bit(c: Cell, k: nat) {
    Common(c.bits, Mask(k))
  }

  /** mem_map[i] |= 1 << k */
  function WithBit(c: Cell, k: nat): Cell {
    Cell(Or(c.bits, Mask(k)))
  }

  /** mem_map[i] &= ~(1 << k) */
  function WithoutBit(c: Cell, k: nat): Cell {
    Cell(AndNot(c.bits, Mask(k)))
  }

  function Or(w: bv64, m: bv64): bv64 {
    w | m
  }

  function AndNot(w: bv64, m: bv64): bv64 {
    w & !m
  }

  function And(w: bv64, m: bv64): bv64 {
    w & m
  }

  predicate Common(m: bv64, n: bv64) {
    And(m, n) != 0
  }

  predicate Less(m: bv64, n: bv64) {
    m < n
  }

  lemma MaskZero()
    ensures Mask(0) == 1
  {
  }

  lemma MaskNext(k: nat)
    ensures Mask(k + 1) == Mask(k) << 1
  {
  }

  lemma MaskSeven(k: nat)
    ensures Mask(k + 7) == Mask(k) << 7
  {
    hide Mask;
    MaskNext(k);
    MaskNext(k + 1);
    MaskNext(k + 2);
    MaskNext(k + 3);
    MaskNext(k + 4);
    MaskNext(k + 5);
    MaskNext(k + 6);
  }

  lemma TopMask()
    ensures Mask(63) == 0x8000_0000_0000_0000
  {
    hide Mask;
    MaskZero();
    MaskSeven(0);
    MaskSeven(7);
    MaskSeven(14);
    MaskSeven(21);
    MaskSeven(28);
    MaskSeven(35);
    MaskSeven(42);
    MaskSeven(49);
    MaskSeven(56);
  }

  /** The one is not shifted out below 64. */
  lemma {:induction false} MaskNonzero(k: Position)
    ensures Mask(k) != 0
    decreases BITS - k
  {
    hide Mask;
    if k == 63 {
      TopMask();
    } else {
      MaskNonzero(k + 1);
      MaskNext(k);
      ShiftNonzero(Mask(k));
    }
  }

  lemma ShiftNonzero(m: bv64)
    ensures m << 1 != 0 ==> m != 0
  {
  }

  predicate OneHot(m: bv64) {
    m != 0 && m & (m - 1) == 0
  }

  lemma DoubleHot(m: bv64)
    requires OneHot(m) && m << 1 != 0
    ensures OneHot(m << 1) && Less(m, m << 1)
  {
  }

  lemma LessTrans(l: bv64, m: bv64, n: bv64)
    requires Less(l, m) && Less(m, n)
    ensures Less(l, n)
  {
  }

  lemma {:induction false} MaskHot(k: Position)
    ensures OneHot(Mask(k))
  {
    hide Mask, OneHot;
    MaskNonzero(k);
    if k > 0 {
      MaskHot(k - 1);
      MaskNext(k - 1);
      DoubleHot(Mask(k - 1));
    } else {
      MaskZero();
      OneIsHot();
    }
  }

  lemma OneIsHot()
    ensures OneHot(1)
  {
  }

  lemma {:induction false} MaskOrder(j: Position, k: Position)
    requires j < k
    ensures Less(Mask(j), Mask(k))
    decreases k
  {
    hide Mask, OneHot, Less;
    MaskHot(k - 1);
    MaskNonzero(k);
    MaskNext(k - 1);
    DoubleHot(Mask(k - 1));
    if j < k - 1 {
      MaskOrder(j, k - 1);
      LessTrans(Mask(j), Mask(k - 1), Mask(k));
    }
  }

  function Pow2(k: nat): nat {
    if k == 0 then 1 else 2 * Pow2(k - 1)
  }

  lemma DoubleBack(m: bv64)
    requires OneHot(m) && m << 1 != 0
    ensures Words.Shr(m << 1) == m && !Words.Odd(m << 1)
  {
  }

  /** The mask of position k is the number 2 to the k. */
  lemma {:induction false} MaskValue(k: Position)
    ensures Words.Value(Mask(k)) == Pow2(k)
  {
    hide Mask, OneHot, Words.Value, Words.Shr, Words.Odd;
    if k == 0 {
      MaskZero();
      ValueOne();
    } else {
      MaskValue(k - 1);
      MaskHot(k - 1);
      MaskNonzero(k);
      MaskNext(k - 1);
      DoubleBack(Mask(k - 1));
      Words.Halved(Mask(k));
    }
  }

  lemma ValueOne()
    ensures Words.Value(1) == 1
  {
    assert Words.Shr(1) == 0;
  }

  lemma HotApart(m: bv64, n: bv64)
    requires OneHot(m) && OneHot(n) && (Less(m, n) || Less(n, m))
    ensures !Common(m, n)
  {
  }

  /** Masks of different positions have no bit in common. */
  lemma MasksApart(j: Position, k: Position)
    requires j != k
    ensures !Common(Mask(j), Mask(k))
  {
    hide Mask, OneHot, Less, Common;
    MaskHot(j);
    MaskHot(k);
    if j < k {
      MaskOrder(j, k);
    } else {
      MaskOrder(k, j);
    }
    HotApart(Mask(j), Mask(k));
  }

  lemma OrApart(w: bv64, m: bv64, n: bv64)
    requires And(m, n) == 0
    ensures And(Or(w, m), n) == And(w, n)
  {
  }

  lemma AndNotApart(w: bv64, m: bv64, n: bv64)
    requires And(m, n) == 0
    ensures And(AndNot(w, m), n) == And(w, n)
  {
  }

  lemma OrKept(w: bv64, m: bv64, n: bv64)
    requires !Common(m, n)
    ensures Common(Or(w, m), n) == Common(w, n)
  {
    hide And, Or;
    OrApart(w, m, n);
  }

  lemma AndNotKept(w: bv64, m: bv64, n: bv64)
    requires !Common(m, n)
    ensures Common(AndNot(w, m), n) == Common(w, n)
  {
    hide And, AndNot;
    AndNotApart(w, m, n);
  }

  lemma OwnBits(w: bv64, m: bv64)
    requires Common(m, m)
    ensures Common(Or(w, m), m) && !Common(AndNot(w, m), m)
  {
  }

  lemma OwnMask(k: Position)
    ensures Common(Mask(k), Mask(k))
  {
    hide Mask;
    MaskNonzero(k);
  }

  /** mmap_set sets bit k and no other, mmap_unset clears it and no other. */
  lemma BitWritten(c: Cell, k: Position, j: Position)
    ensures Bit(WithBit(c, k), j) == (j == k || Bit(c, j))
    ensures Bit(WithoutBit(c, k), j) == (j != k && Bit(c, j))
  {
    hide Mask, Common, Or, AndNot;
    if j == k {
      OwnMask(k);
      OwnBits(c.bits, Mask(k));
    } else {
      MasksApart(k, j);
      OrKept(c.bits, Mask(k), Mask(j));
      AndNotKept(c.bits, Mask(k), Mask(j));
    }
  }

  lemma NoBits(k: nat)
    ensures !Bit(NONE, k)
  {
    hide Mask, Common;
    NothingCommon(Mask(k));
  }

  lemma NothingCommon(m: bv64)
    ensures !Common(0, m)
  {
  }
}
