/**
 The memory of the tasks over whole runs: every state reached from an orderly one by brk,
 kmalloc, exec, fork and stores is orderly.
 */
module TaskRuns {
  import opened Options
  import opened PageTables
  import opened PageMapping
  import opened TableClone
  import opened ForkCopy
  import opened Addresses
  import opened AddressSpaces
  import opened Isolation
  import opened Areas
  import opened Bytes
  import opened ElfLoad
  import opened Tasks

  function PageSet(t: Task): (pages: set<Vpn>)
    ensures forall v :: v in pages <==> v in Recorded(t)
  {
    set v | v in Recorded(t)
  }

  function SpaceOf(t: Task): Space {
    Space(t.root, PageSet(t))
  }

  function SpacesOf(ts: seq<Task>): (sps: seq<Space>)
    ensures |sps| == |ts| && forall i :: 0 <= i < |ts| ==> sps[i] == SpaceOf(ts[i])
  {
    seq(|ts|, i requires 0 <= i < |ts| => SpaceOf(ts[i]))
  }

  ghost predicate KernelInv(k: Kernel) {
    InOrder(k.s, SpacesOf(k.tasks)) && AreasOk(k.tasks)
  }

  ghost predicate AreasOk(ts: seq<Task>) {
    forall i :: 0 <= i < |ts| ==> AreasFit(ts[i].areas)
  }

  lemma TaskOk(k: Kernel, i: nat)
    requires KernelInv(k) && i < |k.tasks|
    ensures SpaceOk(k.s, SpaceOf(k.tasks[i])) && AreasFit(k.tasks[i].areas)
    ensures AllData(k.s, k.tasks[i].root, Recorded(k.tasks[i])) && AvoidsDirect(k.s, Recorded(k.tasks[i]))
  {
    assert SpacesOf(k.tasks)[i] == SpaceOf(k.tasks[i]);
  }

  lemma RenewedSpaces(ts: seq<Task>, i: nat, t': Task, pages: seq<Vpn>)
    requires i < |ts| && t'.root == ts[i].root
    requires forall v :: v in Recorded(t') ==> v in pages || v in Recorded(ts[i])
    ensures Renewed(SpacesOf(ts), SpacesOf(ts[i := t']), i, pages)
  {
  }

  /** Task i gets fresh pages and is otherwise what it was. */
  lemma RenewTask(k: Kernel, s': State, i: nat, t': Task, pages: seq<Vpn>)
    requires KernelInv(k) && i < |k.tasks|
    requires t'.root == k.tasks[i].root && AreasFit(t'.areas)
    requires forall v :: v in Recorded(t') ==> v in pages || v in Recorded(k.tasks[i])
    requires OthersKept(k.s, s', t'.root, pages) && FreshPages(k.s, s', t'.root, pages) && AvoidsDirect(s', pages)
    ensures KernelInv(Kernel(s', k.tasks[i := t']))
  {
    hide OthersKept, FreshPages, AvoidsDirect, InOrder, Recorded, Renewed;
    RenewedSpaces(k.tasks, i, t', pages);
    assert SpacesOf(k.tasks)[i].root == t'.root;
    RenewedKeeps(k.s, s', SpacesOf(k.tasks), SpacesOf(k.tasks[i := t']), i, pages);
  }

  // ---- brk and kmalloc ----

  lemma TakeKeeps(k: Kernel, i: nat, t': Task)
    requires KernelInv(k) && i < |k.tasks| && |k.s.free| >= 2
    requires t'.root == k.tasks[i].root && AreasFit(t'.areas)
    requires forall v :: v in Recorded(t') ==> v == DirectPage(Second(k.s.free)) || v in Recorded(k.tasks[i])
    ensures KernelInv(Kernel(Take2(k.s), k.tasks[i := t']))
  {
    hide AllOk, Private, RootsDiffer, AreasOk, SpacesKept, OthersKept, FreshPages, AvoidsDirect, Recorded;
    var pages := [DirectPage(Second(k.s.free))];
    TaskOk(k, i);
    Take2Fresh(k.s, t'.root);
    KeptIsOthersKept(k.s, Take2(k.s), t'.root, pages);
    RenewTask(k, Take2(k.s), i, t', pages);
  }

  lemma DirectAreaOk(p: nat)
    requires p < FRAMES
    ensures AreaOk(Area(DirectAddr(p), DirectAddr(p) + PAGE - 1))
  {
    DirectAddrPage(p);
  }

  /** brk records its page exactly when a slot is empty, and forgets none. */
  lemma GrownRecords(t: Task, p: nat)
    requires 0 < p < FRAMES
    ensures AreasFit(t.areas) ==> AreasFit(Grown(t, p).areas)
    ensures forall v :: v in Recorded(Grown(t, p)) <==> v in Recorded(t) || (HasRoom(t.areas) && v == DirectPage(p))
  {
    hide RecordedFrom, DirectAddr, DirectPage, HasRoom, AreaPages;
    OnePage(p);
    DirectAreaOk(p);
    forall v ensures v in Recorded(Grown(t, p)) <==> v in Recorded(t) || (HasRoom(t.areas) && v == DirectPage(p)) {
      AddAreaRecords(t.areas, Area(DirectAddr(p), DirectAddr(p) + PAGE - 1), v);
    }
  }

  lemma FreeIsFrame(k: Kernel, f: nat)
    requires KernelInv(k) && f in k.s.free
    ensures 0 < f < FRAMES
  {
  }

  lemma BrkKeeps(k: Kernel, i: nat)
    requires KernelInv(k) && i < |k.tasks| && BrkStep(k, i).Some?
    ensures KernelInv(BrkStep(k, i).value)
  {
    hide KernelInv, AllData, AvoidsDirect, Recorded;
    if !OverLimit(k.tasks[i]) {
      TaskOk(k, i);
      FreeIsFrame(k, Second(k.s.free));
      GrownRecords(k.tasks[i], Second(k.s.free));
      TakeKeeps(k, i, Grown(k.tasks[i], Second(k.s.free)));
    }
  }

  lemma NothingNew(k: Kernel, r: nat)
    requires KernelInv(k)
    ensures OthersKept(k.s, k.s, r, []) && FreshPages(k.s, k.s, r, []) && AvoidsDirect(k.s, [])
  {
    hide AllOk, Private, RootsDiffer, AreasOk;
  }

  /** A change to a task that records no new page. */
  lemma RelabelKeeps(k: Kernel, i: nat, t': Task)
    requires KernelInv(k) && i < |k.tasks| && t'.root == k.tasks[i].root && AreasFit(t'.areas)
    requires forall v :: v in Recorded(t') ==> v in Recorded(k.tasks[i])
    ensures KernelInv(k.(tasks := k.tasks[i := t']))
  {
    hide InOrder, AreasOk, OthersKept, FreshPages, AvoidsDirect, Recorded;
    NothingNew(k, t'.root);
    RenewTask(k, k.s, i, t', []);
  }

  lemma AddAreaFits(areas: seq<Area>, a: Area)
    requires AreasFit(areas) && AreaOk(a)
    ensures AreasFit(AddArea(areas, a))
  {
  }

  /** kmalloc when brk fails. */
  lemma RefusedKeeps(k: Kernel, i: nat, t': Task)
    requires KernelInv(k) && i < |k.tasks|
    requires t' == k.tasks[i].(areas := AddArea(k.tasks[i].areas, Area(0, PAGE - 1)))
    ensures KernelInv(k.(tasks := k.tasks[i := t']))
  {
    hide KernelInv, AllData, AvoidsDirect, SpaceOk;
    TaskOk(k, i);
    forall v | v in Recorded(t') ensures v in Recorded(k.tasks[i]) {
      AddAreaRecords(k.tasks[i].areas, Area(0, PAGE - 1), v);
    }
    AddAreaFits(k.tasks[i].areas, Area(0, PAGE - 1));
    RelabelKeeps(k, i, t');
  }

  /** kmalloc when it takes a page. */
  lemma HeapTaskKeeps(k: Kernel, i: nat, size: nat)
    requires KernelInv(k) && i < |k.tasks| && |k.s.free| >= 2
    ensures KernelInv(Kernel(Take2(k.s), k.tasks[i := HeapTask(k.tasks[i], Second(k.s.free), size)]))
  {
    hide KernelInv, AllData, AvoidsDirect, Recorded;
    TaskOk(k, i);
    FreeIsFrame(k, Second(k.s.free));
    HeapTaskRecords(k.tasks[i], Second(k.s.free), size);
    TakeKeeps(k, i, HeapTask(k.tasks[i], Second(k.s.free), size));
  }

  /** kmalloc when the block fits. */
  lemma FitsKeeps(k: Kernel, i: nat, size: nat)
    requires KernelInv(k) && i < |k.tasks|
    ensures KernelInv(k.(tasks := k.tasks[i := k.tasks[i].(cur := (k.tasks[i].cur + size) % TOP)]))
  {
    TaskOk(k, i);
    RelabelKeeps(k, i, k.tasks[i].(cur := (k.tasks[i].cur + size) % TOP));
  }

  lemma KmallocKeeps(k: Kernel, i: nat, size: nat)
    requires KernelInv(k) && i < |k.tasks| && KmallocStep(k, i, size).Some?
    ensures KernelInv(KmallocStep(k, i, size).value)
  {
    hide KernelInv;
    var t := k.tasks[i];
    var k' := KmallocStep(k, i, size).value;
    if !NeedsPage(t, size) {
      assert k' == k.(tasks := k.tasks[i := t.(cur := (t.cur + size) % TOP)]);
      FitsKeeps(k, i, size);
    } else if OverLimit(t) {
      var t' := t.(areas := AddArea(t.areas, Area(0, PAGE - 1)));
      assert k' == k.(tasks := k.tasks[i := t']);
      RefusedKeeps(k, i, t');
    } else {
      assert k' == Kernel(Take2(k.s), k.tasks[i := HeapTask(t, Second(k.s.free), size)]);
      HeapTaskKeeps(k, i, size);
    }
  }

  /** So does kmalloc when it takes a page; the second record of the page adds nothing. */
  lemma HeapTaskRecords(t: Task, p: nat, size: nat)
    requires 0 < p < FRAMES
    ensures AreasFit(t.areas) ==> AreasFit(HeapTask(t, p, size).areas)
    ensures forall v :: v in Recorded(HeapTask(t, p, size)) <==> v in Recorded(t) || (HasRoom(t.areas) && v == DirectPage(p))
  {
    hide RecordedFrom, DirectAddr, DirectPage, HasRoom, AreaPages, AddArea;
    GrownRecords(t, p);
    OnePage(p);
    DirectAreaOk(p);
    if AreasFit(t.areas) {
      AddAreaFits(Grown(t, p).areas, Area(DirectAddr(p), DirectAddr(p) + PAGE - 1));
    }
    forall v ensures v in Recorded(HeapTask(t, p, size)) <==> v in Recorded(t) || (HasRoom(t.areas) && v == DirectPage(p)) {
      AddAreaRecords(Grown(t, p).areas, Area(DirectAddr(p), DirectAddr(p) + PAGE - 1), v);
      RoomBefore(t.areas, Area(DirectAddr(p), DirectAddr(p) + PAGE - 1));
    }
  }

  /** Adding an area makes no room. */
  lemma RoomBefore(areas: seq<Area>, a: Area)
    ensures HasRoom(AddArea(areas, a)) ==> HasRoom(areas)
  {
  }

  // ---- exec ----

  /** Area j of the segments is that of some segment, whose pages are mapped. */
  lemma {:induction false} SegAreaPages(gs: seq<Segment>, j: nat)
    requires j < |SegAreas(gs)|
    ensures exists i :: 0 <= i < |gs| && SegAreas(gs)[j] == Rounded(gs[i])
    ensures forall v :: v in AreaPages(SegAreas(gs)[j]) ==> v in AllPages(gs)
    decreases |gs|
  {
    hide Rounded, PagesFrom;
    var n := |gs| - 1;
    if j < |SegAreas(gs[..n])| {
      SegAreaPages(gs[..n], j);
      var i :| 0 <= i < n && SegAreas(gs[..n])[j] == Rounded(gs[..n][i]);
      assert gs[..n][i] == gs[i];
    }
  }

  /** Page v is on a segment that has one of the slots that fork copies: the first seven with a size. */
  ghost predicate OnSegment(segs: seq<Area>, v: Vpn) {
    exists j :: 0 <= j < |segs| && j + 3 < COPIED && v in AreaPages(segs[j])
  }

  /** After exec a task records its two stacks and its first seven segments, and nothing else. */
  lemma ExecRecords(areas: seq<Area>, segs: seq<Area>, f0: nat, f1: nat, v: Vpn)
    requires |areas| == AREAS && |segs| + 3 <= AREAS && 0 < f0 < FRAMES && 0 < f1 < FRAMES
    ensures v in RecordedFrom(ExecAreas(areas, segs, DirectAddr(f0), DirectAddr(f1)), 0) <==>
            v == DirectPage(f0) || v == DirectPage(f1) || OnSegment(segs, v)
  {
    hide RecordedFrom, AreaPages, DirectAddr, DirectPage;
    var areas' := ExecAreas(areas, segs, DirectAddr(f0), DirectAddr(f1));
    OnePage(f0);
    OnePage(f1);
    if v in RecordedFrom(areas', 0) {
      var j := RecordedInSlot(areas', 0, v);
      EmptyHasNoPage(areas', j, v);
      assert j >= 3 ==> areas'[j] == segs[j - 3];
    }
    if v == DirectPage(f0) {
      assert InSlot(areas', 0, v);
      InSlotRecorded(areas', 0, 0, v);
    }
    if v == DirectPage(f1) {
      assert InSlot(areas', 1, v);
      InSlotRecorded(areas', 0, 1, v);
    }
    if OnSegment(segs, v) {
      var j :| 0 <= j < |segs| && j + 3 < COPIED && v in AreaPages(segs[j]);
      assert areas'[j + 3] == segs[j];
      InSlotRecorded(areas', 0, j + 3, v);
    }
  }

  lemma OnSegmentMapped(gs: seq<Segment>, v: Vpn)
    requires OnSegment(SegAreas(gs), v)
    ensures v in AllPages(gs)
  {
    hide AreaPages, AllPages, SegAreas;
    var j :| 0 <= j < |SegAreas(gs)| && j + 3 < COPIED && v in AreaPages(SegAreas(gs)[j]);
    SegAreaPages(gs, j);
  }

  /** i_virt_alloc, then more fresh pages. */
  lemma TakeThenFresh(s: State, r: nat, s': State, rest: seq<Vpn>)
    requires Inv(s) && IsRoot(s, r) && Direct(s, r) && |s.free| >= 2
    requires OthersKept(Take2(s), s', r, rest) && FreshPages(Take2(s), s', r, rest) && AvoidsDirect(s', rest)
    ensures var pages := [DirectPage(Second(s.free))] + rest;
            OthersKept(s, s', r, pages) && FreshPages(s, s', r, pages) && AvoidsDirect(s', pages)
  {
    hide Inv, Direct, SpacesKept, OthersKept, FreshPages;
    var v := DirectPage(Second(s.free));
    Take2Fresh(s, r);
    KeptIsOthersKept(s, Take2(s), r, [v]);
    OthersTrans(s, Take2(s), s', r, [v], rest);
    FreshMore(s, Take2(s), s', r, [v], rest);
    AvoidsMore(s, s', r, v, rest);
  }

  lemma AvoidsMore(s: State, s': State, r: nat, v: Vpn, rest: seq<Vpn>)
    requires |s.free| >= 2 && v == DirectPage(Second(s.free)) && OthersKept(Take2(s), s', r, rest)
    requires AvoidsDirect(Take2(s), [v]) && AvoidsDirect(s', rest)
    ensures AvoidsDirect(s', [v] + rest)
  {
    forall p | p in s'.free || p in s'.tabs ensures DirectPage(p) !in [v] + rest {
      assert p in Take2(s).free || p in Take2(s).tabs;
      assert DirectPage(p) !in [v] && DirectPage(p) !in rest;
    }
  }

  /** Pages outside the window are no direct addresses. */
  lemma OutsideAvoids(s: State, pages: seq<Vpn>)
    requires Inv(s) && forall v :: v in pages ==> !InWindow(v)
    ensures AvoidsDirect(s, pages)
  {
    hide DirectPage, InWindow;
    forall p | p in s.free || p in s.tabs ensures DirectPage(p) !in pages {
      DirectInWindow(p);
    }
  }

  lemma ExecFresh(s: State, r: nat, gs: seq<Segment>, disk: seq<Byte>)
    requires Inv(s) && IsRoot(s, r) && Direct(s, r) && |s.free| >= 4 && SegmentsOk(gs, disk)
    requires LoadAll(Take2(Take2(s)), r, gs, disk).Some?
    ensures var s' := LoadAll(Take2(Take2(s)), r, gs, disk).value;
            var pages := [DirectPage(Second(s.free))] + ([DirectPage(Second(Take2(s).free))] + AllPages(gs));
            OthersKept(s, s', r, pages) && FreshPages(s, s', r, pages) && AvoidsDirect(s', pages)
  {
    hide Inv, Direct, SpacesKept, OthersKept, FreshPages, AvoidsDirect, LoadAll, AllPages;
    var s1 := Take2(s);
    var s2 := Take2(s1);
    Take2Keeps(s);
    Take2Keeps(s1);
    Take2Fresh(s, r);
    LoadAllKeeps(s2, r, gs, disk);
    var s' := LoadAll(s2, r, gs, disk).value;
    OthersKeptInv(s2, s', r, AllPages(gs));
    OutsideAvoids(s', AllPages(gs));
    TakeThenFresh(s1, r, s', AllPages(gs));
    TakeThenFresh(s, r, s', [DirectPage(Second(s1.free))] + AllPages(gs));
  }

  lemma OthersKeptInv(s: State, s': State, r: nat, pages: seq<Vpn>)
    requires OthersKept(s, s', r, pages)
    ensures Inv(s')
  {
  }

  lemma ExecKeeps(k: Kernel, i: nat, gs: seq<Segment>, disk: seq<Byte>)
    requires KernelInv(k) && i < |k.tasks| && SegmentsOk(gs, disk) && ExecStep(k, i, gs, disk).Some?
    ensures KernelInv(ExecStep(k, i, gs, disk).value)
  {
    hide KernelInv, OthersKept, FreshPages, AvoidsDirect, LoadAll, ExecAreas, SegAreas, AllPages, RecordedFrom;
    hide Direct, AllData, Inv, DirectAddr, DirectPage;
    var t := k.tasks[i];
    var f0, f1 := Second(k.s.free), Second(Take2(k.s).free);
    TaskOk(k, i);
    FreeIsFrame(k, f0);
    FreeIsFrame(k, f1);
    InOrderInv(k);
    ExecFresh(k.s, t.root, gs, disk);
    var t' := ExecTask(t, gs, f0, f1);
    var pages := [DirectPage(f0)] + ([DirectPage(f1)] + AllPages(gs));
    forall v | v in Recorded(t') ensures v in pages || v in Recorded(t) {
      ExecRecords(t.areas, SegAreas(gs), f0, f1, v);
      if OnSegment(SegAreas(gs), v) {
        OnSegmentMapped(gs, v);
      }
    }
    ExecAreasFit(t.areas, gs, f0, f1);
    RenewTask(k, ExecStep(k, i, gs, disk).value.s, i, t', pages);
  }

  /** What exec leaves of the areas: the stacks in the second and fourth lowest free frames, the segments in their
      slots, the rest of the first ten cleared, and all others as they were. */
  lemma ExecAreasSpec(areas: seq<Area>, segs: seq<Area>, f0: nat, f1: nat)
    requires |areas| == 100 && |segs| <= 97
    ensures var now := ExecAreas(areas, segs, DirectAddr(f0), DirectAddr(f1));
            && |now| == 100
            && now[0] == Area(DirectAddr(f0), DirectAddr(f0) + 4095) && now[1] == Area(DirectAddr(f1), DirectAddr(f1) + 4095)
            && now[2].start == 0
            && (forall j :: 0 <= j < |segs| ==> now[j + 3] == segs[j])
            && (forall j :: 3 + |segs| <= j < 10 ==> now[j].start == 0)
            && (forall j :: 10 <= j < 100 && 3 + |segs| <= j ==> now[j] == areas[j])
  {
    hide DirectAddr;
  }

  /** What exec leaves of the task: the areas, and the usage, charged 16384 for the stacks and 4096 for every page of
      the segments; the heap, the limit and the root stay, and so do the other tasks. */
  lemma ExecSpec(k: Kernel, i: nat, gs: seq<Segment>, disk: seq<Byte>)
    requires KernelInv(k) && i < |k.tasks| && SegmentsOk(gs, disk) && ExecStep(k, i, gs, disk).Some? && |k.s.free| >= 4
    ensures var k' := ExecStep(k, i, gs, disk).value;
            var t := k.tasks[i];
            && |t.areas| == 100
            && k'.tasks == k.tasks[i := t.(
                 areas := ExecAreas(t.areas, SegAreas(gs), DirectAddr(Second(k.s.free)), DirectAddr(Second(Take2(k.s).free))),
                 usage := (t.usage + 16384 + 4096 * PageTotal(gs)) % 0x1_0000_0000)]
  {
    hide KernelInv, LoadAll, SegAreas, AllPages, RecordedFrom, DirectAddr, PageTotal, SpaceOk, AllData, AvoidsDirect, ExecAreas;
    hide Second, Rest;
    TaskOk(k, i);
    AllPagesCount(gs);
  }

  /** And of memory: four frames for the stacks, one for every page of the segments, and at most three more for each. */
  lemma ExecTakes(k: Kernel, i: nat, gs: seq<Segment>, disk: seq<Byte>)
    requires KernelInv(k) && i < |k.tasks| && SegmentsOk(gs, disk) && ExecStep(k, i, gs, disk).Some?
    ensures |k.s.free| - 4 - 4 * PageTotal(gs) <= |ExecStep(k, i, gs, disk).value.s.free| <= |k.s.free| - 4 - PageTotal(gs)
  {
    hide KernelInv, LoadAll, SegAreas, AllPages, RecordedFrom, DirectAddr, PageTotal, SpaceOk, AllData, AvoidsDirect, Direct, Inv, ExecAreas;
    hide Second, Rest;
    InOrderInv(k);
    Take2Keeps(k.s);
    Take2Keeps(Take2(k.s));
    RootThere(k, i);
    LoadAllTakes(Take2(Take2(k.s)), k.tasks[i].root, gs, disk);
    Take2Counts(k.s);
    Take2Counts(Take2(k.s));
  }

  lemma RootThere(k: Kernel, i: nat)
    requires KernelInv(k) && i < |k.tasks|
    ensures IsRoot(k.s, k.tasks[i].root)
  {
    assert SpaceOk(k.s, SpacesOf(k.tasks)[i]);
  }

  lemma Take2Counts(s: State)
    requires |s.free| >= 2
    ensures |Take2(s).free| == |s.free| - 2 && Take2(s).tabs == s.tabs
  {
  }

  /** Every page that exec maps is present, writable and open to users. */
  lemma ExecUsable(k: Kernel, i: nat, gs: seq<Segment>, disk: seq<Byte>, v: Vpn)
    requires KernelInv(k) && i < |k.tasks| && SegmentsOk(gs, disk) && ExecStep(k, i, gs, disk).Some?
    requires v in AllPages(gs) || v == DirectPage(Second(k.s.free)) || v == DirectPage(Second(Take2(k.s).free))
    ensures var w := Walk(ExecStep(k, i, gs, disk).value.s.mem, k.tasks[i].root, 4, v);
            w.Some? && w.value.flags == 7 && Usable(w.value) && w.value.frame in k.s.free
  {
    hide KernelInv, LoadAll, SegAreas, AllPages, RecordedFrom, DirectPage, Walk, Inv, Direct, AllData, AvoidsDirect, OthersKept, FreshPages;
    hide Second, Rest;
    TaskOk(k, i);
    InOrderInv(k);
    ExecFresh(k.s, k.tasks[i].root, gs, disk);
    var pages := [DirectPage(Second(k.s.free))] + ([DirectPage(Second(Take2(k.s).free))] + AllPages(gs));
    FreshUsable(k.s, ExecStep(k, i, gs, disk).value.s, k.tasks[i].root, pages, v);
    FreshFrom(k.s, ExecStep(k, i, gs, disk).value.s, k.tasks[i].root, pages, v);
  }

  lemma FreshFrom(s: State, s': State, r: nat, pages: seq<Vpn>, v: Vpn)
    requires FreshPages(s, s', r, pages) && v in pages
    ensures Walk(s'.mem, r, 4, v).Some? && Walk(s'.mem, r, 4, v).value.frame in s.free
  {
    hide Walk;
    assert FreshPage(s, s', r, v);
  }

  lemma InOrderInv(k: Kernel)
    requires KernelInv(k)
    ensures Inv(k.s)
  {
  }

  lemma RoundedOk(g: Segment)
    requires Rounded(g).end <= TOP
    ensures AreaOk(Rounded(g))
  {
  }

  lemma ExecAreasFit(areas: seq<Area>, gs: seq<Segment>, f0: nat, f1: nat)
    requires AreasFit(areas) && |SegAreas(gs)| + 3 <= AREAS && 0 < f0 < FRAMES && 0 < f1 < FRAMES
    requires forall i :: 0 <= i < |gs| ==> Rounded(gs[i]).end <= TOP
    ensures AreasFit(ExecAreas(areas, SegAreas(gs), DirectAddr(f0), DirectAddr(f1)))
  {
    hide SegAreas, Rounded, DirectAddr;
    DirectAreaOk(f0);
    DirectAreaOk(f1);
    forall j | 0 <= j < |SegAreas(gs)| ensures AreaOk(SegAreas(gs)[j]) {
      SegAreaPages(gs, j);
      var i :| 0 <= i < |gs| && SegAreas(gs)[j] == Rounded(gs[i]);
      RoundedOk(gs[i]);
    }
  }

  // ---- fork ----

  lemma {:induction false} InheritedRecords(areas: seq<Area>, i: nat)
    ensures RecordedFrom(Inherited(areas), i) == RecordedFrom(areas, i)
    decreases COPIED - i
  {
    if i < COPIED && i < |areas| {
      InheritedRecords(areas, i + 1);
      assert AreaPages(Inherited(areas)[i]) == AreaPages(areas[i]);
    }
  }

  lemma ForkedSpaces(ts: seq<Task>, i: nat, t': Task, c: Task)
    requires i < |ts| && t'.root == ts[i].root && t'.areas == ts[i].areas
    ensures SpacesOf(ts[i := t'] + [c]) == SpacesOf(ts) + [SpaceOf(c)]
  {
    assert SpaceOf(t') == SpaceOf(ts[i]);
  }

  /** The family once the child c is added. */
  lemma ForkedKeeps(k: Kernel, i: nat, s': State, child: nat, t': Task, c: Task)
    requires KernelInv(k) && i < |k.tasks| && t'.root == k.tasks[i].root && t'.areas == k.tasks[i].areas
    requires ForkCopy.Fork(k.s, t'.root, Recorded(t')) == Some((s', child))
    requires c.root == child && c.areas == Inherited(t'.areas)
    ensures KernelInv(Kernel(s', k.tasks[i := t'] + [c]))
  {
    hide Inv, SpacesKept, Forked, AllData, Direct, AvoidsDirect, AllOk, Private, RootsDiffer, RecordedFrom, SpacesOf;
    TaskOk(k, i);
    ForkSpec(k.s, t'.root, Recorded(t'));
    InheritedRecords(t'.areas, 0);
    assert Recorded(t') == Recorded(k.tasks[i]);
    AddedKeeps(k.s, s', SpacesOf(k.tasks), t'.root, SpaceOf(c), Recorded(t'));
    ForkedSpaces(k.tasks, i, t', c);
  }

  lemma ForkKeeps(k: Kernel, i: nat)
    requires KernelInv(k) && i < |k.tasks| && ForkStep(k, i).Some?
    ensures KernelInv(ForkStep(k, i).value)
  {
    hide KernelInv, ForkCopy.Fork, RecordedFrom, AllPassable, Inherited, Count;
    var t := k.tasks[i];
    var (s', child) := ForkCopy.Fork(k.s, t.root, Recorded(t)).value;
    ForkedKeeps(k, i, s', child, ForkParent(k.s, t), ForkChild(t, child));
  }

  /** Fork, for the tasks: what the parent had recorded the child has recorded, in frames of its own with the
      same contents, present, writable and open to users; every other page the two share; and for the parent
      nothing has changed. */
  lemma ForkStepSpec(k: Kernel, i: nat, v: Vpn)
    requires KernelInv(k) && i < |k.tasks| && ForkStep(k, i).Some?
    ensures var k' := ForkStep(k, i).value;
            var r, c := k.tasks[i].root, k'.tasks[|k.tasks|];
            && |k'.tasks| == |k.tasks| + 1 && Recorded(c) == Recorded(k.tasks[i]) == Recorded(k'.tasks[i])
            && Walk(k'.s.mem, r, 4, v) == Walk(k.s.mem, r, 4, v)
            && (v in Recorded(k.tasks[i]) ==>
                  && Contents(k'.s.mem, c.root, v) == Contents(k'.s.mem, r, v) == Contents(k.s.mem, r, v)
                  && Walk(k'.s.mem, c.root, 4, v) == Some(Word(FrameAt(k'.s, c.root, v), 7))
                  && FrameAt(k'.s, c.root, v) in k.s.free && FrameAt(k'.s, r, v) !in k.s.free)
            && (v !in Recorded(k.tasks[i]) ==> Walk(k'.s.mem, c.root, 4, v) == Walk(k'.s.mem, r, 4, v))
  {
    hide KernelInv, ForkCopy.Fork, RecordedFrom, AllPassable, Inherited, Count, Inv, Walk, Direct, AvoidsDirect;
    var t := k.tasks[i];
    TaskOk(k, i);
    InOrderInv(k);
    ForkSpec(k.s, t.root, Recorded(t));
    InheritedRecords(t.areas, 0);
    var (s', child) := ForkCopy.Fork(k.s, t.root, Recorded(t)).value;
    if v in Recorded(t) {
      SpacesKeptData(k.s, s', t.root, v);
      FreshUsable(k.s, s', child, Recorded(t), v);
      assert FreshPage(k.s, s', child, v);
    }
  }

  /** The records of the two tasks after fork: the child has the parent's areas in the ten slots and no others, its
      limit, no heap, and is charged 4096 for every recorded page; the parent is charged 8192 for every table and
      every recorded page, and is otherwise the same; the other tasks are untouched. */
  lemma ForkRecords(k: Kernel, i: nat)
    requires KernelInv(k) && i < |k.tasks| && ForkStep(k, i).Some?
    ensures var k' := ForkStep(k, i).value;
            var t, p, c := k.tasks[i], k'.tasks[i], k'.tasks[|k.tasks|];
            && |c.areas| == 100
            && (forall j :: 0 <= j < 100 ==> c.areas[j] == if j < 10 && t.areas[j].start != 0 then t.areas[j] else Area(0, 0))
            && c.limit == t.limit && c.cur == 0 && c.usage == |Recorded(t)| * 4096 % 0x1_0000_0000
            && p == t.(usage := (t.usage + 8192 * (Count(k.s.mem, t.root, 4) + |Recorded(t)|)) % 0x1_0000_0000)
            && forall j :: 0 <= j < |k.tasks| && j != i ==> k'.tasks[j] == k.tasks[j]
  {
    hide KernelInv, ForkCopy.Fork, RecordedFrom, AllPassable, Count, SpaceOk, AllData, AvoidsDirect;
    TaskOk(k, i);
  }

  // ---- stores ----

  lemma StoreKeeps(k: Kernel, i: nat, v: Vpn, at: Ix, w: Word)
    requires KernelInv(k) && i < |k.tasks| && v in Recorded(k.tasks[i])
    ensures StoreStep(k, i, v, at, w).Some? && KernelInv(StoreStep(k, i, v, at, w).value)
  {
    var f := Walk(k.s.mem, k.tasks[i].root, 4, v).value.frame;
    TaskOk(k, i);
    StoreIsSetPage(k, i, v, at, w);
    SetDataKeeps(k, f, k.s.mem[f][at := w]);
  }

  /** Overwriting a data frame keeps the family in order. */
  lemma SetDataKeeps(k: Kernel, f: nat, page: seq<Word>)
    requires KernelInv(k) && DataFrame(k.s, f) && |page| == ENTRIES
    ensures KernelInv(k.(s := SetPage(k.s, f, page)))
  {
    hide AllOk, Private, RootsDiffer;
    var s' := SetPage(k.s, f, page);
    SetPageKeeps(k.s, f, page);
    forall x, u | IsRoot(k.s, x) ensures Walk(s'.mem, x, 4, u) == Walk(k.s.mem, x, 4, u) {
      SetPageWalk(k.s, f, page, x, u);
    }
    SamePageTables(k.s, s', SpacesOf(k.tasks));
  }

  lemma StoreIsSetPage(k: Kernel, i: nat, v: Vpn, at: Ix, w: Word)
    requires i < |k.tasks| && Inv(k.s) && DataPage(k.s, k.tasks[i].root, v)
    ensures var f := Walk(k.s.mem, k.tasks[i].root, 4, v).value.frame;
            StoreStep(k, i, v, at, w) == Some(k.(s := SetPage(k.s, f, k.s.mem[f][at := w])))
  {
  }

  // ---- Runs ----

  lemma StepKeeps(k: Kernel, op: Op)
    requires KernelInv(k) && Step(k, op).Some?
    ensures KernelInv(Step(k, op).value)
  {
    hide KernelInv, BrkStep, KmallocStep, ExecStep, ForkStep, StoreStep, Recorded, SegmentsOk;
    match op
    case Brk(i) => BrkKeeps(k, i);
    case Kmalloc(i, size) => KmallocKeeps(k, i, size);
    case Exec(i, gs, disk) => ExecKeeps(k, i, gs, disk);
    case Fork(i) => ForkKeeps(k, i);
    case Store(i, v, at, w) => StoreKeeps(k, i, v, at, w);
  }

  /** Every state of every run is in order. */
  lemma {:induction false} RunKeeps(k: Kernel, ops: seq<Op>)
    requires KernelInv(k) && Run(k, ops).Some?
    ensures KernelInv(Run(k, ops).value)
    decreases |ops|
  {
    hide KernelInv, Step;
    if ops != [] {
      RunKeeps(k, ops[..|ops| - 1]);
      StepKeeps(Run(k, ops[..|ops| - 1]).value, ops[|ops| - 1]);
    }
  }

  /** Over every run: in every space each free frame and each table stays at its direct address, so
      that i_virt_alloc's own mappings change no entry and take no frame. */
  lemma DirectMapHolds(k: Kernel, ops: seq<Op>, i: nat, p: nat)
    requires KernelInv(k) && Run(k, ops).Some?
    ensures var k' := Run(k, ops).value;
            i < |k'.tasks| && (p in k'.s.free || p in k'.s.tabs) ==>
              && Walk(k'.s.mem, k'.tasks[i].root, 4, PageOf(0xFFFF_FFFF_F000_0000 + p * 4096)) == Some(Word(p, 7))
              && MapFrom(k'.s, k'.tasks[i].root, 4, PageOf(DirectAddr(p)), Word(p, RWU)) == Some(k'.s)
  {
    hide Run, AllOk, Private, RootsDiffer;
    RunKeeps(k, ops);
    var k' := Run(k, ops).value;
    if i < |k'.tasks| && (p in k'.s.free || p in k'.s.tabs) {
      TaskOk(k', i);
      DirectAddrPage(p);
      MapFromSame(k'.s, k'.tasks[i].root, 4, DirectPage(p), Word(p, RWU));
    }
  }

  lemma FramesDiffer(k: Kernel, i: nat, v: Vpn, j: nat, u: Vpn)
    requires KernelInv(k) && i < |k.tasks| && v in Recorded(k.tasks[i])
    requires j < |k.tasks| && u in Recorded(k.tasks[j]) && (i != j || u != v)
    ensures FrameAt(k.s, k.tasks[i].root, v) != FrameAt(k.s, k.tasks[j].root, u)
  {
    hide Inv, AllOk, RootsDiffer, FrameAt;
    var sps := SpacesOf(k.tasks);
    assert Owns(sps, i, v) && Owns(sps, j, u);
    assert FrameOf(k.s, sps, i, v) != FrameOf(k.s, sps, j, u);
  }

  function Patched(page: seq<Word>, at: nat, w: Word): seq<Word> {
    if at < |page| then page[at := w] else page
  }

  /** Over every run: a store by one task to a page it has recorded is read back there, and changes
      no recorded page of another task, nor any other recorded page of its own. */
  lemma StoreIsolated(k: Kernel, i: nat, v: Vpn, at: Ix, w: Word, j: nat, u: Vpn)
    requires KernelInv(k) && i < |k.tasks| && v in Recorded(k.tasks[i])
    requires j < |k.tasks| && u in Recorded(k.tasks[j])
    ensures StoreStep(k, i, v, at, w).Some?
    ensures var m, m' := k.s.mem, StoreStep(k, i, v, at, w).value.s.mem;
            Contents(m', k.tasks[j].root, u) ==
            if i == j && u == v then Patched(Contents(m, k.tasks[j].root, u), at, w) else Contents(m, k.tasks[j].root, u)
  {
    hide AllOk, Private, RootsDiffer, AreasOk, RecordedFrom, Direct, AvoidsDirect;
    TaskOk(k, i);
    TaskOk(k, j);
    StoreIsSetPage(k, i, v, at, w);
    var f := Walk(k.s.mem, k.tasks[i].root, 4, v).value.frame;
    SetPageWalk(k.s, f, k.s.mem[f][at := w], k.tasks[j].root, u);
    if i != j || u != v {
      FramesDiffer(k, i, v, j, u);
    }
  }

  /** Runs start in order: with the direct map in place and one task, which has recorded nothing. */
  lemma FirstTask(s: State, root: nat, areas: seq<Area>, limit: nat)
    requires Inv(s) && IsRoot(s, root) && Direct(s, root)
    requires AreasFit(areas) && forall j :: 0 <= j < AREAS ==> areas[j].start == 0
    ensures KernelInv(Kernel(s, [Task(root, areas, 0, limit, 0, 0)]))
  {
    hide Inv, Direct;
    NoPages(areas, 0);
    var t := Task(root, areas, 0, limit, 0, 0);
    assert SpaceOf(t) == Space(root, {});
  }

  lemma {:induction false} NoPages(areas: seq<Area>, i: nat)
    requires forall j :: 0 <= j < |areas| ==> areas[j].start == 0
    ensures RecordedFrom(areas, i) == []
    decreases COPIED - i
  {
    if i < COPIED && i < |areas| {
      NoPages(areas, i + 1);
    }
  }
}
