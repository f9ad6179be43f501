/**
 The bitmap of free frames (sys/phy_mem.c): 4096 words of 64 bits, searched from the
 lowest bit up.
 */
module FrameBitmap {
  import opened FrameSet
  import opened Bits
  import opened Addresses

  const WORDS: nat := 4096
  const CAPACITY: nat := WORDS * BITS

  predicate BitAt(ws: seq<Cell>, f: nat) {
    f / BITS < |ws| && Bit(ws[f / BITS], f % BITS)
  }

  /** The frames whose bit is set. */
  function FramesOf(ws: seq<Cell>): (free: set<nat>)
    ensures forall f: nat :: f in free <==> f < CAPACITY && BitAt(ws, f)
  {
    set f: nat | 0 <= f < CAPACITY && BitAt(ws, f)
  }

  ghost predicate WordsOk(ws: seq<Cell>) {
    |ws| == WORDS
  }

  /** The word changes at bit f only, which becomes b. */
  ghost predicate OneBit(ws: seq<Cell>, ws': seq<Cell>, f: nat, b: bool) {
    |ws'| == |ws| && forall g: nat :: g < CAPACITY ==> BitAt(ws', g) == if g == f then b else BitAt(ws, g)
  }

  lemma OneFrame(ws: seq<Cell>, ws': seq<Cell>, f: nat, b: bool)
    requires OneBit(ws, ws', f, b) && f < CAPACITY
    ensures FramesOf(ws') == if b then FramesOf(ws) + {f} else FramesOf(ws) - {f}
  {
    hide BitAt;
  }

  /** Changing bit f of its word changes bit f of the map and no other. */
  lemma WordWritten(ws: seq<Cell>, f: nat)
    requires WordsOk(ws) && f < CAPACITY
    ensures OneBit(ws, ws[f / BITS := WithBit(ws[f / BITS], f % BITS)], f, true)
    ensures OneBit(ws, ws[f / BITS := WithoutBit(ws[f / BITS], f % BITS)], f, false)
  {
    hide Bit, WithBit, WithoutBit;
    forall g: nat | g < CAPACITY
      ensures BitAt(ws[f / BITS := WithBit(ws[f / BITS], f % BITS)], g) == (g == f || BitAt(ws, g))
      ensures BitAt(ws[f / BITS := WithoutBit(ws[f / BITS], f % BITS)], g) == (g != f && BitAt(ws, g))
    {
      BitWritten(ws[f / BITS], f % BITS, g % BITS);
      SamePlace(f, g);
    }
  }

  lemma AtWord(ws: seq<Cell>, i: nat, k: Position)
    requires i < |ws|
    ensures BitAt(ws, i * BITS + k) == Bit(ws[i], k)
  {
    hide Bit;
    assert (i * BITS + k) / BITS == i && (i * BITS + k) % BITS == k;
  }

  lemma SamePlace(f: nat, g: nat)
    ensures f == g <==> f / BITS == g / BITS && f % BITS == g % BITS
  {
  }

  class Bitmap {
    const words: array<Cell>            // mem_map

    ghost predicate Valid()
      reads this, words
    {
      WordsOk(words[..])
    }

    ghost function Free(): set<nat>
      reads this, words
    {
      FramesOf(words[..])
    }

    /** initialize_mem_map: no frame is available. */
    constructor ()
      ensures Valid() && fresh(words) && Free() == {}
    {
      hide Bit;
      words := new Cell[WORDS](_ => NONE);
      new;
      forall f: nat | f < CAPACITY ensures !BitAt(words[..], f) {
        NoBits(f % BITS);
      }
    }

    method Set(bit: nat)
      requires Valid() && bit < CAPACITY
      modifies words
      ensures Valid() && Free() == old(Free()) + {bit}
    {
      hide BitAt, WithBit, WithoutBit;
      ghost var ws := words[..];
      WordWritten(ws, bit);
      words[bit / BITS] := WithBit(words[bit / BITS], bit % BITS);
      assert words[..] == ws[bit / BITS := WithBit(ws[bit / BITS], bit % BITS)];
      OneFrame(ws, words[..], bit, true);
    }

    method Unset(bit: nat)
      requires Valid() && bit < CAPACITY
      modifies words
      ensures Valid() && Free() == old(Free()) - {bit}
    {
      hide BitAt, WithBit, WithoutBit;
      ghost var ws := words[..];
      WordWritten(ws, bit);
      words[bit / BITS] := WithoutBit(words[bit / BITS], bit % BITS);
      assert words[..] == ws[bit / BITS := WithoutBit(ws[bit / BITS], bit % BITS)];
      OneFrame(ws, words[..], bit, false);
    }

    method Test(bit: nat) returns (b: bool)
      requires Valid() && bit < CAPACITY
      ensures b <==> bit in Free()
    {
      hide Bit;
      b := Bit(words[bit / BITS], bit % BITS);
    }

    /** get_index_of_free_page: the lowest free frame, or -1 when there is none. */
    method IndexOfFreePage() returns (index: int)
      requires Valid()
      ensures if Free() == {} then index == -1 else index == Lowest(Free())
    {
      hide Bit, BitAt;
      var i := 0;
      while i < WORDS
        invariant i <= WORDS
        invariant forall f: nat :: f < i * BITS ==> !BitAt(words[..], f)
      {
        var k := 0;
        while k < BITS
          invariant k <= BITS
          invariant forall f: nat :: f < i * BITS + k ==> !BitAt(words[..], f)
        {
          AtWord(words[..], i, k);
          if Bit(words[i], k) {
            index := i * BITS + k;
            assert IsLowest(Free(), index);
            return;
          }
          k := k + 1;
        }
        i := i + 1;
      }
      index := -1;
    }

    /** page_alloc: the address of the lowest free frame, which is no longer free; 0 when none is left. */
    method PageAlloc() returns (addr: nat)
      requires Valid()
      modifies words
      ensures Valid()
      ensures old(Free()) == {} ==> addr == 0 && Free() == {}
      ensures old(Free()) != {} ==>
                addr == Lowest(old(Free())) * PAGE && Free() == old(Free()) - {Lowest(old(Free()))}
    {
      var index := IndexOfFreePage();
      if index == -1 {
        return 0;
      }
      Unset(index);
      addr := index * PAGE;
    }

    method PageDealloc(p: nat)
      requires Valid() && p / PAGE < CAPACITY
      modifies words
      ensures Valid() && Free() == old(Free()) + {p / PAGE}
    {
      Set(p / PAGE);
    }

    /** The loop of init_region over the frames of the region. */
    method SetRegion(base: nat, limit: nat, physbase: nat, physfree: nat)
      requires Valid() && limit / PAGE < CAPACITY
      modifies words
      ensures Valid() && Free() == old(Free()) + Covered(base / PAGE, limit / PAGE + 1, physbase, physfree)
    {
      hide FramesOf, WordsOk;
      var start, end := base / PAGE, limit / PAGE;
      while start <= end
        invariant base / PAGE <= start && Valid()
        invariant start <= end + 1 || start == base / PAGE
        invariant Free() == old(Free()) + Covered(base / PAGE, start, physbase, physfree)
        decreases end + 1 - start
      {
        if !(start * PAGE <= physfree && start * PAGE >= physbase) {
          Set(start);
        }
        start := start + 1;
      }
    }

    /** The loop of init_region over the first megabyte. */
    method UnsetLow()
      requires Valid()
      modifies words
      ensures Valid() && Free() == DropLow(old(Free()), LOW)
    {
      hide FramesOf, WordsOk;
      var sta, low := 0, 0;
      while low < 0x10_0000
        invariant low == sta * 0x1000 && sta <= LOW && Valid()
        invariant Free() == DropLow(old(Free()), sta)
      {
        sta := sta + 1;
        Unset(sta);
        low := low + 0x1000;
      }
    }

    /** init_region, for a kernel image and bitmap that end at `physfree`. */
    method InitRegion(base: nat, limit: nat, physbase: nat, physfree: nat)
      requires Valid() && limit / PAGE < CAPACITY
      modifies words
      ensures Valid() && Free() == AfterRegion(old(Free()), Region(base, limit), physbase, physfree)
    {
      hide FramesOf, WordsOk;
      Unset(0);
      Unset(1);
      SetRegion(base, limit, physbase, physfree);
      UnsetLow();
    }

    /** The loop of init_mem_mgmt over the usable entries of the memory map. */
    method InitMemory(regions: seq<Region>, physbase: nat, physfree: nat)
      requires Valid() && Free() == {}
      requires forall r :: r in regions ==> r.limit / PAGE < CAPACITY
      modifies words
      ensures Valid() && Free() == BootFree(regions, physbase, physfree)
    {
      var i := 0;
      while i < |regions|
        invariant i <= |regions| && Valid()
        invariant Free() == BootFree(regions[..i], physbase, physfree)
      {
        assert regions[..i + 1][..i] == regions[..i];
        InitRegion(regions[i].base, regions[i].limit, physbase, physfree);
        i := i + 1;
      }
      assert regions[..i] == regions;
    }
  }

  // ---- Runs of allocations ----

  datatype Op = Alloc | Dealloc(f: nat)

  ghost function AfterOp(free: set<nat>, op: Op): set<nat> {
    match op
    case Alloc => if free == {} then free else free - {Lowest(free)}
    case Dealloc(f) => free + {f}
  }

  ghost function AfterOps(free: set<nat>, ops: seq<Op>): set<nat> {
    if ops == [] then free else AfterOp(AfterOps(free, ops[..|ops| - 1]), ops[|ops| - 1])
  }

  /** Step i of the run hands out frame f. */
  ghost predicate HandsOut(free: set<nat>, ops: seq<Op>, i: nat, f: nat) {
    i < |ops| && ops[i] == Alloc && AfterOps(free, ops[..i]) != {} && f == Lowest(AfterOps(free, ops[..i]))
  }

  lemma {:induction false} StaysTaken(free: set<nat>, ops: seq<Op>, i: nat, j: nat, f: nat)
    requires HandsOut(free, ops, i, f) && i < j <= |ops|
    requires forall k :: i < k < j ==> ops[k] != Dealloc(f)
    ensures f !in AfterOps(free, ops[..j])
    decreases j
  {
    assert ops[..j][..j - 1] == ops[..j - 1];
    if i + 1 < j {
      StaysTaken(free, ops, i, j - 1, f);
    }
  }

  /** No frame is handed out twice unless it was given back in between. */
  lemma NotTwice(free: set<nat>, ops: seq<Op>, i: nat, j: nat, f: nat)
    requires i < j && HandsOut(free, ops, i, f) && HandsOut(free, ops, j, f)
    ensures exists k :: i < k < j && ops[k] == Dealloc(f)
  {
    if forall k :: i < k < j ==> ops[k] != Dealloc(f) {
      StaysTaken(free, ops, i, j, f);
    }
  }

  /** The frames handed out and not given back. */
  ghost function Out(free: set<nat>, ops: seq<Op>): set<nat> {
    if ops == [] then {}
    else
      var before, now := ops[..|ops| - 1], AfterOps(free, ops[..|ops| - 1]);
      match ops[|ops| - 1]
      case Alloc => if now == {} then Out(free, before) else Out(free, before) + {Lowest(now)}
      case Dealloc(f) => Out(free, before) - {f}
  }

  /** Frames are conserved as long as only frames that are out are given back. */
  lemma {:induction false} Conserved(free: set<nat>, ops: seq<Op>)
    requires forall i :: 0 <= i < |ops| && ops[i].Dealloc? ==> ops[i].f in Out(free, ops[..i])
    ensures AfterOps(free, ops) + Out(free, ops) == free && AfterOps(free, ops) !! Out(free, ops)
    decreases |ops|
  {
    if ops != [] {
      var n := |ops| - 1;
      forall i | 0 <= i < n && ops[..n][i].Dealloc? ensures ops[..n][i].f in Out(free, ops[..n][..i]) {
        assert ops[..n][..i] == ops[..i];
      }
      Conserved(free, ops[..n]);
    }
  }

  // ---- Boot ----

  datatype Region = Region(base: nat, limit: nat)

  const LOW: nat := 256         // 0x100000 / 0x1000

  /** The frames from `from` up to `to` whose address is not in [physbase, physfree]. */
  function Covered(from: nat, to: nat, physbase: nat, physfree: nat): set<nat> {
    set f: nat | from <= f < to && !(physbase <= f * PAGE <= physfree)
  }

  /** Without the frames 1 to n. */
  function DropLow(free: set<nat>, n: nat): set<nat> {
    set f | f in free && !(1 <= f <= n)
  }

  function AfterRegion(free: set<nat>, r: Region, physbase: nat, physfree: nat): set<nat> {
    DropLow(free - {0} - {1} + Covered(r.base / PAGE, r.limit / PAGE + 1, physbase, physfree), LOW)
  }

  function BootFree(regions: seq<Region>, physbase: nat, physfree: nat): set<nat> {
    if regions == [] then {}
    else AfterRegion(BootFree(regions[..|regions| - 1], physbase, physfree), regions[|regions| - 1], physbase, physfree)
  }

  /** f lies in the frames of some region. */
  ghost predicate InSome(regions: seq<Region>, f: nat) {
    exists i :: 0 <= i < |regions| && regions[i].base / PAGE <= f <= regions[i].limit / PAGE
  }

  /** A frame is free after boot exactly when it lies in some region, above the first 256, and clear of
      the kernel image and the bitmap; frame 0 is free exactly when the last region starts below it. */
  lemma {:induction false} BootState(regions: seq<Region>, physbase: nat, physfree: nat, f: nat)
    ensures f in BootFree(regions, physbase, physfree) <==>
            || (f > 256 && (exists i :: 0 <= i < |regions| && regions[i].base / 4096 <= f <= regions[i].limit / 4096) && !(physbase <= f * 4096 <= physfree))
            || (f == 0 && regions != [] && regions[|regions| - 1].base < 4096 && !(physbase <= 0 <= physfree))
    decreases |regions|
  {
    if regions != [] {
      var n := |regions| - 1;
      BootState(regions[..n], physbase, physfree, f);
      if InSome(regions, f) {
        var i :| 0 <= i < |regions| && regions[i].base / PAGE <= f <= regions[i].limit / PAGE;
        assert i < n ==> regions[..n][i] == regions[i];
      }
      if InSome(regions[..n], f) {
        var i :| 0 <= i < n && regions[..n][i].base / PAGE <= f <= regions[..n][i].limit / PAGE;
        assert regions[i] == regions[..n][i];
      }
    }
  }

  /** So when the last region starts at 4096 or above, frame 0 is never free, and page_alloc's 0 means
      that memory is exhausted. */
  lemma ZeroMeansExhausted(regions: seq<Region>, physbase: nat, physfree: nat)
    requires regions != [] && regions[|regions| - 1].base >= PAGE
    ensures var free := BootFree(regions, physbase, physfree); free != {} ==> Lowest(free) * PAGE != 0
  {
    BootState(regions, physbase, physfree, 0);
  }
}
