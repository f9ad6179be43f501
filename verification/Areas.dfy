/**
 The memory areas of a task (struct vma_t): the slots that brk and kmalloc fill, and the pages
 that fork copies from them (sys/virt_mem.c, sys/kfork.c).
 */
module Areas {
  import opened PageTables
  import opened Addresses

  const AREAS: nat := 100       // VMA_DEF_COUNT
  const COPIED: nat := 10       // the slots that brk fills and fork copies

  /** struct vma_t: start 0 marks an empty slot. */
  datatype Area = Area(start: nat, end: nat)

  /** Every area the kernel makes starts on a page and ends in the address space. */
  predicate AreaOk(a: Area) {
    a.start % PAGE == 0 && a.start < TOP && a.end <= TOP
  }

  ghost predicate AreasFit(areas: seq<Area>) {
    |areas| == AREAS && forall j :: 0 <= j < AREAS ==> AreaOk(areas[j])
  }

  // ---- The loop over the pages of an area ----

  /** The address in the k-th round of fork's loop, in 64-bit arithmetic. */
  function LoopAddr(start: nat, k: nat): nat {
    (start + k * PAGE) % TOP
  }

  /** The loop comes to an address at or past the end. */
  ghost predicate LoopEnds(a: Area) {
    exists k: nat :: LoopAddr(a.start, k) >= a.end
  }

  /** The area stops short of the last page of the address space, or has no page. */
  predicate Passable(a: Area) {
    a.start < a.end ==> a.end + PAGE <= TOP
  }

  /** The loop over an area ends exactly when the area stops short of the last page. */
  lemma EndsIffPassable(a: Area)
    requires AreaOk(a)
    ensures LoopEnds(a) <==> Passable(a)
  {
    if a.start >= a.end {
      assert LoopAddr(a.start, 0) >= a.end;
    } else if a.end + PAGE <= TOP {
      var k := (TOP - PAGE - a.start) / PAGE;
      assert a.start + k * PAGE == TOP - PAGE;
      assert LoopAddr(a.start, k) >= a.end;
    } else {
      forall k: nat ensures LoopAddr(a.start, k) < a.end {
        LoopAligned(a.start, k);
      }
    }
  }

  /** The addresses of the loop stay on page boundaries, so none is beyond the last page. */
  lemma LoopAligned(start: nat, k: nat)
    requires start % PAGE == 0
    ensures LoopAddr(start, k) % PAGE == 0 && LoopAddr(start, k) <= TOP - PAGE
  {
    var n := start / PAGE + k;
    assert start + k * PAGE == n * PAGE;
    PageMultiple(n);
  }

  lemma PageMultiple(n: nat)
    ensures n * PAGE % TOP == n % 0x10_0000_0000_0000 * PAGE
  {
    var q, r := n / 0x10_0000_0000_0000, n % 0x10_0000_0000_0000;
    assert n * PAGE == q * TOP + r * PAGE;
  }

  // ---- Recorded pages ----

  function PagesFrom(start: nat, end: nat): seq<Vpn>
    decreases end - start
  {
    if start >= end then [] else [PageOf(start)] + PagesFrom(start + PAGE, end)
  }

  function AreaPages(a: Area): seq<Vpn> {
    if a.start == 0 then [] else PagesFrom(a.start, a.end)
  }

  /** The pages of the slots from i on that fork copies. */
  function RecordedFrom(areas: seq<Area>, i: nat): seq<Vpn>
    decreases COPIED - i
  {
    if i >= COPIED || i >= |areas| then [] else AreaPages(areas[i]) + RecordedFrom(areas, i + 1)
  }

  lemma RecordedSplit(areas: seq<Area>, i: nat)
    requires |areas| == AREAS
    ensures i < COPIED ==> RecordedFrom(areas, i) == AreaPages(areas[i]) + RecordedFrom(areas, i + 1)
    ensures i >= COPIED ==> RecordedFrom(areas, i) == []
  {
  }

  /** Slot j records page v. */
  predicate InSlot(areas: seq<Area>, j: nat, v: Vpn) {
    j < COPIED && j < |areas| && v in AreaPages(areas[j])
  }

  lemma {:induction false} InSlotRecorded(areas: seq<Area>, i: nat, j: nat, v: Vpn)
    requires i <= j && InSlot(areas, j, v)
    ensures v in RecordedFrom(areas, i)
    decreases COPIED - i
  {
    if i < j {
      InSlotRecorded(areas, i + 1, j, v);
    }
  }

  lemma {:induction false} RecordedInSlot(areas: seq<Area>, i: nat, v: Vpn) returns (j: nat)
    requires v in RecordedFrom(areas, i)
    ensures i <= j && InSlot(areas, j, v)
    decreases COPIED - i
  {
    if v in AreaPages(areas[i]) {
      j := i;
    } else {
      j := RecordedInSlot(areas, i + 1, v);
    }
  }

  /** The first empty slot from i on, if there is one among those that fork copies. */
  function EmptySlot(areas: seq<Area>, i: nat): nat
    decreases COPIED - i
  {
    if i >= COPIED || i >= |areas| || areas[i].start == 0 then i else EmptySlot(areas, i + 1)
  }

  /** add_to_vma: a full table drops the area. */
  function AddArea(areas: seq<Area>, a: Area): seq<Area> {
    var i := EmptySlot(areas, 0);
    if i < COPIED && i < |areas| then areas[i := a] else areas
  }

  lemma {:induction false} EmptySlotEmpty(areas: seq<Area>, i: nat)
    ensures var j := EmptySlot(areas, i); i <= j && (j < COPIED && j < |areas| ==> areas[j].start == 0)
    decreases COPIED - i
  {
    if !(i >= COPIED || i >= |areas| || areas[i].start == 0) {
      EmptySlotEmpty(areas, i + 1);
    }
  }

  /** There is an empty slot among those that fork copies. */
  predicate HasRoom(areas: seq<Area>) {
    EmptySlot(areas, 0) < COPIED && EmptySlot(areas, 0) < |areas|
  }

  /** Adding an area records its pages exactly when there is room, and forgets none. */
  lemma AddAreaRecords(areas: seq<Area>, a: Area, v: Vpn)
    ensures v in RecordedFrom(AddArea(areas, a), 0) <==> v in RecordedFrom(areas, 0) || (HasRoom(areas) && v in AreaPages(a))
  {
    hide AreaPages, RecordedFrom;
    EmptySlotEmpty(areas, 0);
    var areas' := AddArea(areas, a);
    if v in RecordedFrom(areas', 0) && !(HasRoom(areas) && v in AreaPages(a)) {
      var j := RecordedInSlot(areas', 0, v);
      assert InSlot(areas, j, v);
      InSlotRecorded(areas, 0, j, v);
    }
    if v in RecordedFrom(areas, 0) {
      var j := RecordedInSlot(areas, 0, v);
      EmptyHasNoPage(areas, j, v);
      assert InSlot(areas', j, v);
      InSlotRecorded(areas', 0, j, v);
    }
    if HasRoom(areas) && v in AreaPages(a) {
      assert InSlot(areas', EmptySlot(areas, 0), v);
      InSlotRecorded(areas', 0, EmptySlot(areas, 0), v);
    }
  }

  /** Which slot an area goes to: the first empty one of ten; and with none empty nothing changes. */
  lemma AddAreaSlot(areas: seq<Area>, a: Area, j: nat)
    requires |areas| == 100
    ensures j < 10 && areas[j].start == 0 && (forall l :: 0 <= l < j ==> areas[l].start != 0) ==>
              HasRoom(areas) && AddArea(areas, a) == areas[j := a]
    ensures (forall l :: 0 <= l < 10 ==> areas[l].start != 0) ==> !HasRoom(areas) && AddArea(areas, a) == areas
  {
    if j < 10 && areas[j].start == 0 && forall l :: 0 <= l < j ==> areas[l].start != 0 {
      FirstEmpty(areas, 0, j);
    }
    if forall l :: 0 <= l < 10 ==> areas[l].start != 0 {
      FirstEmpty(areas, 0, 10);
    }
  }

  lemma {:induction false} FirstEmpty(areas: seq<Area>, i: nat, j: nat)
    requires |areas| == AREAS && i <= j <= COPIED && (forall l :: i <= l < j ==> areas[l].start != 0) && (j < COPIED ==> areas[j].start == 0)
    ensures EmptySlot(areas, i) == j
    decreases j - i
  {
    if i < j {
      FirstEmpty(areas, i + 1, j);
    }
  }

  lemma EmptyHasNoPage(areas: seq<Area>, j: nat, v: Vpn)
    requires InSlot(areas, j, v)
    ensures areas[j].start != 0
  {
  }

  lemma OnePage(p: nat)
    requires 0 < p < FRAMES
    ensures AreaPages(Area(DirectAddr(p), DirectAddr(p) + PAGE - 1)) == [DirectPage(p)]
  {
    DirectAddrPage(p);
    assert PagesFrom(DirectAddr(p) + PAGE, DirectAddr(p) + PAGE - 1) == [];
  }

  /** The loop ends over the page of any frame but the last, whose area ends at the top of the address space. */
  lemma OnlyLastWraps(p: nat)
    requires p < FRAMES
    ensures var a := Area(DirectAddr(p), DirectAddr(p) + PAGE - 1); AreaOk(a) && (LoopEnds(a) <==> p < LAST)
  {
    DirectAddrPage(p);
    EndsIffPassable(Area(DirectAddr(p), DirectAddr(p) + PAGE - 1));
  }

  /** Over the page of the last frame it never ends: after any number of rounds it is short of the end. */
  lemma LastNeverEnds(k: nat)
    ensures LoopAddr(DirectAddr(LAST), k) < DirectAddr(LAST) + PAGE - 1
  {
    DirectAddrPage(LAST);
    LoopAligned(DirectAddr(LAST), k);
  }

  /** Fork's loops over all the areas it copies end. */
  predicate AllPassable(areas: seq<Area>) {
    forall j :: 0 <= j < COPIED && j < |areas| && areas[j].start != 0 ==> Passable(areas[j])
  }
}
