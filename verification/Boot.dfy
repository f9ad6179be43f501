/**
 From zeroed memory to the state that runs start from: init_mem_mgmt with map_kernel,
 identity_mapping and setup_kernel_stack (sys/mem_util.c, sys/virt_mem.c).
 */
module Boot {
  import opened Options
  import opened FrameSet
  import opened PageTables
  import opened PageMapping
  import opened Addresses
  import opened TableClone
  import opened ForkCopy
  import opened AddressSpaces
  import opened Areas
  import opened Tasks
  import opened TaskRuns
  import opened FrameBitmap

  /** Page tables for the direct addresses of n frames: one per level above the last, and one for every
      512 frames. */
  function TablesFor(n: nat): nat {
    if n == 0 then 0 else 3 + (n - 1) / ENTRIES
  }

  /** When u is mapped, a page that shares its tables above level `down` misses only those below. */
  lemma {:induction false} SharesTables(m: Mem, t: nat, level: nat, u: Vpn, v: Vpn, down: nat)
    requires 1 <= down <= level && Walk(m, t, level, u).Some? && forall k :: down < k <= level ==> Index(k, u) == Index(k, v)
    ensures Missing(m, t, level, v) <= down - 1
    decreases level
  {
    if level > down {
      SharesTables(m, Rd(m, t, Index(level, u)).frame, level - 1, u, v, down);
    }
  }

  /** The next frame's direct page needs a new last-level table only at a multiple of 512. */
  lemma NextDirectPage(n: nat, k: nat)
    requires 0 < n < FRAMES && 1 < k <= 4
    ensures k > 2 || n % ENTRIES != 0 ==> Index(k, DirectPage(n - 1)) == Index(k, DirectPage(n))
  {
  }

  lemma NextMissing(s: State, root: nat, n: nat)
    requires Inv(s) && IsRoot(s, root) && n < FRAMES
    requires n > 0 ==> Walk(s.mem, root, 4, DirectPage(n - 1)).Some?
    ensures TablesFor(n) + Missing(s.mem, root, 4, DirectPage(n)) <= TablesFor(n + 1)
  {
    hide Inv, DirectPage, Walk;
    if n > 0 {
      forall k | 1 < k <= 4 ensures k > 2 || n % ENTRIES != 0 ==> Index(k, DirectPage(n - 1)) == Index(k, DirectPage(n)) {
        NextDirectPage(n, k);
      }
      SharesTables(s.mem, root, 4, DirectPage(n - 1), DirectPage(n), if n % ENTRIES != 0 then 1 else 2);
    }
  }

  /** Identity mapping of n frames succeeds when there are frames for its tables, and takes no more. */
  lemma {:induction false} IdentityMapSucceeds(s: State, root: nat, n: nat)
    requires Inv(s) && IsRoot(s, root) && n <= FRAMES && |s.free| >= TablesFor(n)
    ensures IdentityMap(s, root, n).Some? && |IdentityMap(s, root, n).value.free| >= |s.free| - TablesFor(n)
    decreases n
  {
    hide Inv, DirectPage, Walk, MapFrom, Missing;
    if n > 0 {
      IdentityMapSucceeds(s, root, n - 1);
      IdentityMapKeeps(s, root, n - 1);
      var s1 := IdentityMap(s, root, n - 1).value;
      if n > 1 {
        IdentityMapped(s, root, n - 1, n - 2);
      }
      NextMissing(s1, root, n - 1);
      MapFromTakes(s1, root, 4, DirectPage(n - 1), Word(n - 1, RWU));
    }
  }

  // ---- map_kernel, the screen and the kernel stack ----

  /** A page and the frame it is mapped to. */
  datatype Mapping = Mapping(v: Vpn, frame: nat)

  /** map(), once for each. */
  ghost function MapAll(s: State, root: nat, ms: seq<Mapping>): (o: Option<State>) {
    if ms == [] then Some(s)
    else
      var s1 :- MapAll(s, root, ms[..|ms| - 1]);
      MapFrom(s1, root, 4, ms[|ms| - 1].v, Word(ms[|ms| - 1].frame, RWU))
  }

  /** The image of n pages from page v, in frames f, f + 1 and so on: map_kernel fills one table, wrapping. */
  function ImageOf(v: Vpn, f: nat, n: nat): (ms: seq<Mapping>)
    ensures |ms| == n
  {
    seq(n, i requires i >= 0 => Mapping(v.(pt := (v.pt + i) % ENTRIES), f + i))
  }

  /** The first n pages of the screen, from address a. */
  function ScreenOf(a: nat, n: nat): (ms: seq<Mapping>)
    ensures |ms| == n
  {
    seq(n, i requires i >= 0 => Mapping(PageOf(a + i * PAGE), 0xB8 + i))
  }

  lemma ImageInOneTable(v: Vpn, f: nat, n: nat)
    ensures OneTable(ImageOf(v, f, n))
  {
  }

  /** All in one last-level table, as the kernel image is. */
  ghost predicate OneTable(ms: seq<Mapping>) {
    forall i, k :: 0 <= i < |ms| && 1 < k <= 4 ==> Index(k, ms[i].v) == Index(k, ms[0].v)
  }

  ghost predicate Outside(ms: seq<Mapping>) {
    forall i :: 0 <= i < |ms| ==> !InWindow(ms[i].v)
  }

  lemma MapAllNext(s: State, root: nat, ms: seq<Mapping>, m: Mapping)
    ensures MapAll(s, root, ms + [m])
         == match MapAll(s, root, ms) case None => None case Some(s1) => MapFrom(s1, root, 4, m.v, Word(m.frame, RWU))
  {
    hide MapFrom;
    assert (ms + [m])[..|ms|] == ms;
  }

  /** Once a page cannot be mapped, the rest is not either. */
  lemma {:induction false} MapAllStops(s: State, root: nat, ms: seq<Mapping>, i: nat)
    requires i <= |ms| && MapAll(s, root, ms[..i]).None?
    ensures MapAll(s, root, ms).None?
    decreases |ms|
  {
    hide MapFrom;
    var n := |ms| - 1;
    if i < |ms| {
      assert ms[..n][..i] == ms[..i];
      MapAllStops(s, root, ms[..n], i);
    } else {
      assert ms[..i] == ms;
    }
  }

  lemma {:induction false} MapAllKeeps(s: State, root: nat, ms: seq<Mapping>)
    requires Inv(s) && IsRoot(s, root) && MapAll(s, root, ms).Some?
    ensures var s' := MapAll(s, root, ms).value; Inv(s') && IsRoot(s', root) && Grows(s, s')
    decreases |ms|
  {
    hide Inv, MapFrom, Walk, DataKept, Missing;
    if ms != [] {
      var n := |ms| - 1;
      MapAllKeeps(s, root, ms[..n]);
      var s1 := MapAll(s, root, ms[..n]).value;
      MapPage(s1, root, ms[n].v, Word(ms[n].frame, RWU));
      GrowsTrans(s, s1, MapAll(s, root, ms).value);
    }
  }

  /** Outside the window the direct map is not touched. */
  lemma {:induction false} MapAllDirect(s: State, root: nat, ms: seq<Mapping>)
    requires Inv(s) && IsRoot(s, root) && Direct(s, root) && Outside(ms) && MapAll(s, root, ms).Some?
    ensures Direct(MapAll(s, root, ms).value, root)
    decreases |ms|
  {
    hide Inv, MapFrom, Walk, Direct, InWindow;
    if ms != [] {
      var n := |ms| - 1;
      MapAllKeeps(s, root, ms[..n]);
      MapAllDirect(s, root, ms[..n]);
      OneOutside(MapAll(s, root, ms[..n]).value, root, ms[n]);
    }
  }

  lemma OneOutside(s: State, root: nat, m: Mapping)
    requires Inv(s) && IsRoot(s, root) && Direct(s, root) && !InWindow(m.v)
    requires MapFrom(s, root, 4, m.v, Word(m.frame, RWU)).Some?
    ensures Direct(MapFrom(s, root, 4, m.v, Word(m.frame, RWU)).value, root)
  {
    hide MapFrom, Walk, Missing, InWindow, DirectPage, Inv;
    MapPage(s, root, m.v, Word(m.frame, RWU));
    var s' := MapFrom(s, root, 4, m.v, Word(m.frame, RWU)).value;
    forall p | p in s'.free || p in s'.tabs ensures Walk(s'.mem, root, 4, DirectPage(p)) == Some(Word(p, RWU)) {
      TableInWindow(s, p);
    }
  }

  lemma TableInWindow(s: State, p: nat)
    requires Inv(s) && (p in s.free || p in s.tabs)
    ensures InWindow(DirectPage(p))
  {
    hide InWindow, DirectPage;
    DirectInWindow(p);
  }

  /** Mapping any pages takes at most three frames each. */
  lemma {:induction false} MapAllSucceeds(s: State, root: nat, ms: seq<Mapping>)
    requires Inv(s) && IsRoot(s, root) && |s.free| >= 3 * |ms|
    ensures MapAll(s, root, ms).Some? && |MapAll(s, root, ms).value.free| >= |s.free| - 3 * |ms|
    decreases |ms|
  {
    hide Inv, MapFrom, Walk;
    if ms != [] {
      var n := |ms| - 1;
      MapAllSucceeds(s, root, ms[..n]);
      MapAllKeeps(s, root, ms[..n]);
      MapFromTakes(MapAll(s, root, ms[..n]).value, root, 4, ms[n].v, Word(ms[n].frame, RWU));
    }
  }

  /** Mapping the pages of one table takes at most three frames in all, as map_kernel does. */
  lemma {:induction false} OneTableSucceeds(s: State, root: nat, ms: seq<Mapping>)
    requires Inv(s) && IsRoot(s, root) && |s.free| >= 3 && OneTable(ms)
    ensures MapAll(s, root, ms).Some? && |MapAll(s, root, ms).value.free| >= |s.free| - 3
    ensures ms != [] ==> Walk(MapAll(s, root, ms).value.mem, root, 4, ms[|ms| - 1].v).Some?
    decreases |ms|
  {
    hide Inv, MapFrom, Walk, Missing, Index;
    if ms != [] {
      var n := |ms| - 1;
      var w := Word(ms[n].frame, RWU);
      OneTableSucceeds(s, root, ms[..n]);
      MapAllKeeps(s, root, ms[..n]);
      var s1 := MapAll(s, root, ms[..n]).value;
      if n > 0 {
        assert ms[..n][n - 1] == ms[n - 1];
        forall k | 1 < k <= 4 ensures Index(k, ms[n - 1].v) == Index(k, ms[n].v) {
          assert Index(k, ms[n].v) == Index(k, ms[0].v);
        }
        SharesTables(s1.mem, root, 4, ms[n - 1].v, ms[n].v, 1);
      } else {
        assert ms[..n] == [];
      }
      MapFromTakes(s1, root, 4, ms[n].v, w);
      MissingAtMost(s1.mem, root, ms[n].v);
      MapPage(s1, root, ms[n].v, w);
    }
  }

  lemma MissingAtMost(m: Mem, root: nat, v: Vpn)
    ensures Missing(m, root, 4, v) <= 3
  {
  }

  // ---- The whole of init_mem_mgmt ----

  /** Memory as the loader leaves it, with the given frames free. */
  function Zeroed(free: set<nat>): State {
    State(seq(FRAMES, _ => seq(ENTRIES, _ => ZERO)), free, map[])
  }

  lemma ZeroedOk(free: set<nat>)
    requires forall f :: f in free ==> 0 < f < FRAMES
    ensures Inv(Zeroed(free))
  {
  }

  /** What the kernel is told: its image, the screen, the page of its stack, and the end of memory. */
  datatype Layout = Layout(image: seq<Mapping>, screen: seq<Mapping>, stack: Vpn, n: nat)

  /** The image is in one table; the screen and the stack are outside the direct map. */
  ghost predicate LayoutOk(l: Layout) {
    OneTable(l.image) && Outside(l.screen) && !InWindow(l.stack) && l.n <= FRAMES
  }

  /** What map_kernel makes of the image: it starts at kernmem, the screen comes right after it and the stack five
      pages later. */
  function LayoutOf(kernmem: nat, f: nat, pages: nat, n: nat): Layout {
    var vga := kernmem + pages * PAGE;
    Layout(ImageOf(PageOf(kernmem), f, pages), ScreenOf(vga, 4), PageOf(vga + 0x5000), n)
  }

  /** The i-th page after the image. */
  function AfterImage(kernmem: nat, pages: nat, i: nat): Vpn {
    PageOf(kernmem + pages * PAGE + i * PAGE)
  }

  lemma LayoutOfOk(kernmem: nat, f: nat, pages: nat, n: nat)
    requires n <= FRAMES && forall i :: 0 <= i < 6 ==> !InWindow(AfterImage(kernmem, pages, i))
    ensures LayoutOk(LayoutOf(kernmem, f, pages, n))
  {
    hide PageOf, InWindow, OneTable;
    var l := LayoutOf(kernmem, f, pages, n);
    ImageInOneTable(PageOf(kernmem), f, pages);
    assert l.stack == AfterImage(kernmem, pages, 5);
    forall i | 0 <= i < 4 ensures !InWindow(l.screen[i].v) {
      assert l.screen[i].v == AfterImage(kernmem, pages, i);
    }
  }

  /** map_kernel, identity_mapping and setup_kernel_stack. */
  ghost function Booted(free: set<nat>, l: Layout): Option<State>
    requires free != {}
  {
    var root := Lowest(free);
    var s1 :- MapAll(NewRoot(Zeroed(free)), root, l.image);
    var s2 :- IdentityMap(s1, root, l.n);
    var s3 :- MapAll(s2, root, l.screen);
    MapFresh(s3, root, [l.stack])
  }

  /** Frames that boot may need: the root, the image, the direct map, the screen, the stack. */
  function BootFrames(l: Layout): nat {
    1 + 3 + TablesFor(l.n) + 3 * |l.screen| + 4
  }

  lemma {:induction false} StackMapped(s: State, root: nat, v: Vpn)
    requires Inv(s) && IsRoot(s, root) && Direct(s, root) && |s.free| >= 4 && !InWindow(v)
    ensures var o := MapFresh(s, root, [v]);
            o.Some? && Inv(o.value) && IsRoot(o.value, root) && Direct(o.value, root) && |o.value.free| >= |s.free| - 4
            && o.value.free <= s.free
  {
    hide Inv, MapFrom, Walk, InWindow, Missing;
    var f := Lowest(s.free);
    var s0 := s.(free := s.free - {f});
    TakenKeeps(s, root, f);
    MapFromTakes(s0, root, 4, v, Word(f, RWU));
    MissingAtMost(s0.mem, root, v);
    MapPage(s0, root, v, Word(f, RWU));
    OneOutside(s0, root, Mapping(v, f));
    assert [v][1..] == [];
  }

  lemma TakenKeeps(s: State, root: nat, f: nat)
    requires Inv(s) && IsRoot(s, root) && Direct(s, root) && f in s.free
    ensures var s0 := s.(free := s.free - {f}); Inv(s0) && IsRoot(s0, root) && Direct(s0, root)
  {
    hide Walk;
  }

  // ---- The first task ----

  /** The areas that initialize_tasking records: a page for the kernel stack.  The user stack's start is read from
      the first bytes of the boot stack, which are zero. */
  function FirstAreas(p: nat): seq<Area> {
    seq(AREAS, j =>
      if j == 1 then Area(DirectAddr(p), DirectAddr(p) + PAGE - 1) else if j < 3 then Area(0, PAGE - 1) else Area(0, 0))
  }

  /** The kernel after initialize_tasking. */
  ghost function Started(s: State, root: nat, limit: nat): Kernel
    requires |s.free| >= 2
  {
    Kernel(Take2(s), [Task(root, FirstAreas(Second(s.free)), 2 * PAGE, limit, 0, 0)])
  }

  lemma FirstRecords(p: nat, v: Vpn)
    requires 0 < p < FRAMES
    ensures v in RecordedFrom(FirstAreas(p), 0) <==> v == DirectPage(p)
  {
    hide DirectAddr, DirectPage, AreaPages, RecordedFrom;
    var areas := FirstAreas(p);
    OnePage(p);
    if v in RecordedFrom(areas, 0) {
      var j := RecordedInSlot(areas, 0, v);
      EmptyHasNoPage(areas, j, v);
      assert j == 1;
    }
    if v == DirectPage(p) {
      assert InSlot(areas, 1, v);
      InSlotRecorded(areas, 0, 1, v);
    }
  }

  lemma StartedOk(s: State, root: nat, limit: nat)
    requires Inv(s) && IsRoot(s, root) && Direct(s, root) && |s.free| >= 2
    ensures KernelInv(Started(s, root, limit))
    ensures forall v :: v in Recorded(Started(s, root, limit).tasks[0]) <==> v == DirectPage(Second(s.free))
  {
    hide Inv, Direct, KernelInv, DirectAddr, DirectPage, RecordedFrom, FirstAreas;
    var p := Second(s.free);
    var none := seq(AREAS, _ => Area(0, 0));
    FirstTask(s, root, none, limit);
    var k := Kernel(s, [Task(root, none, 0, limit, 0, 0)]);
    FreeIsFrame(k, p);
    FirstFit(p);
    forall v ensures v in RecordedFrom(FirstAreas(p), 0) <==> v == DirectPage(p) {
      FirstRecords(p, v);
    }
    var t := Task(root, FirstAreas(p), 2 * PAGE, limit, 0, 0);
    TakeKeeps(k, 0, t);
    assert k.tasks[0 := t] == [t];
  }

  lemma FirstFit(p: nat)
    requires p < FRAMES
    ensures AreasFit(FirstAreas(p))
  {
    hide DirectAddr;
    DirectAreaOk(p);
  }

  /** Boot: with any frames free below the end of memory, enough of them for its tables, the kernel comes up in
      order, with its first task, and has used no more than those. */
  lemma KernelBoots(free: set<nat>, l: Layout, limit: nat)
    requires LayoutOk(l) && |free| >= BootFrames(l) + 2 && forall f :: f in free ==> 0 < f < FRAMES && f < l.n
    ensures var o := Booted(free, l);
            && o.Some? && |o.value.free| >= |free| - BootFrames(l) >= 2
            && KernelInv(Started(o.value, Lowest(free), limit))
  {
    hide Inv, KernelInv, IdentityMap, MapAll, MapFresh, Direct, OneTable, Outside, InWindow, TablesFor, Walk, Started;
    ZeroedOk(free);
    var root := Lowest(free);
    var s0 := NewRoot(Zeroed(free));
    NewRootKeeps(Zeroed(free));
    OneTableSucceeds(s0, root, l.image);
    MapAllKeeps(s0, root, l.image);
    var s1 := MapAll(s0, root, l.image).value;
    IdentityMapSucceeds(s1, root, l.n);
    BootDirect(s1, root, l.n);
    var s2 := IdentityMap(s1, root, l.n).value;
    MapAllSucceeds(s2, root, l.screen);
    MapAllKeeps(s2, root, l.screen);
    MapAllDirect(s2, root, l.screen);
    StackMapped(MapAll(s2, root, l.screen).value, root, l.stack);
    StartedOk(Booted(free, l).value, root, limit);
  }

  // ---- What is mapped where ----

  /** A page that is not mentioned again walks to the frame it was given. */
  lemma {:induction false} MapAllGives(s: State, root: nat, ms: seq<Mapping>, i: nat)
    requires Inv(s) && IsRoot(s, root) && MapAll(s, root, ms).Some? && i < |ms| && forall j :: i < j < |ms| ==> ms[j].v != ms[i].v
    ensures Walk(MapAll(s, root, ms).value.mem, root, 4, ms[i].v) == Some(Word(ms[i].frame, 7))
    decreases |ms|
  {
    hide Inv, MapFrom, Walk, Missing;
    var n := |ms| - 1;
    MapAllKeeps(s, root, ms[..n]);
    MapPage(MapAll(s, root, ms[..n]).value, root, ms[n].v, Word(ms[n].frame, RWU));
    if i < n {
      assert ms[..n][i] == ms[i];
      MapAllGives(s, root, ms[..n], i);
    }
  }

  /** And a page that is not mentioned walks as before. */
  lemma {:induction false} MapAllLeaves(s: State, root: nat, ms: seq<Mapping>, v: Vpn)
    requires Inv(s) && IsRoot(s, root) && MapAll(s, root, ms).Some? && forall j :: 0 <= j < |ms| ==> ms[j].v != v
    ensures Walk(MapAll(s, root, ms).value.mem, root, 4, v) == Walk(s.mem, root, 4, v)
    decreases |ms|
  {
    hide Inv, MapFrom, Walk, Missing;
    if ms != [] {
      var n := |ms| - 1;
      MapAllKeeps(s, root, ms[..n]);
      MapAllLeaves(s, root, ms[..n], v);
      MapPage(MapAll(s, root, ms[..n]).value, root, ms[n].v, Word(ms[n].frame, RWU));
    }
  }

  lemma {:induction false} IdentityLeaves(s: State, root: nat, n: nat, v: Vpn)
    requires Inv(s) && IsRoot(s, root) && n <= FRAMES && IdentityMap(s, root, n).Some? && !InWindow(v)
    ensures Walk(IdentityMap(s, root, n).value.mem, root, 4, v) == Walk(s.mem, root, 4, v)
    decreases n
  {
    hide Inv, MapFrom, Walk, Missing, InWindow, DirectPage;
    if n > 0 {
      IdentityMapKeeps(s, root, n - 1);
      IdentityLeaves(s, root, n - 1, v);
      DirectInWindow(n - 1);
      MapPage(IdentityMap(s, root, n - 1).value, root, DirectPage(n - 1), Word(n - 1, RWU));
    }
  }

  lemma StackLeaves(s: State, root: nat, stack: Vpn, v: Vpn)
    requires Inv(s) && IsRoot(s, root) && MapFresh(s, root, [stack]).Some?
    ensures v != stack ==> Walk(MapFresh(s, root, [stack]).value.mem, root, 4, v) == Walk(s.mem, root, 4, v)
    ensures var w := Walk(MapFresh(s, root, [stack]).value.mem, root, 4, stack); w.Some? && w.value.flags == 7 && w.value.frame in s.free
  {
    hide Inv, MapFresh, Walk;
    MapFreshSpec(s, root, [stack]);
    assert stack in [stack];
    FreshUsable(s, MapFresh(s, root, [stack]).value, root, [stack], stack);
    assert FreshPage(s, MapFresh(s, root, [stack]).value, root, stack);
  }

  /** The stages of boot, one after the other. */
  ghost function EmptyRoot(free: set<nat>): State
    requires free != {}
  {
    NewRoot(Zeroed(free))
  }

  ghost function WithImage(free: set<nat>, l: Layout): Option<State>
    requires free != {}
  {
    MapAll(EmptyRoot(free), Lowest(free), l.image)
  }

  ghost function WithMemory(free: set<nat>, l: Layout): Option<State>
    requires free != {}
  {
    var s :- WithImage(free, l);
    IdentityMap(s, Lowest(free), l.n)
  }

  ghost function WithScreen(free: set<nat>, l: Layout): Option<State>
    requires free != {}
  {
    var s :- WithMemory(free, l);
    MapAll(s, Lowest(free), l.screen)
  }

  ghost predicate StageOk(o: Option<State>, root: nat) {
    o.Some? && Inv(o.value) && IsRoot(o.value, root)
  }

  lemma Stages(free: set<nat>, l: Layout)
    requires LayoutOk(l) && free != {} && (forall f :: f in free ==> 0 < f < FRAMES) && Booted(free, l).Some?
    ensures StageOk(Some(EmptyRoot(free)), Lowest(free)) && StageOk(WithImage(free, l), Lowest(free))
    ensures StageOk(WithMemory(free, l), Lowest(free)) && StageOk(WithScreen(free, l), Lowest(free))
    ensures MapFresh(WithScreen(free, l).value, Lowest(free), [l.stack]) == Booted(free, l)
    ensures WithScreen(free, l).value.free <= free
  {
    hide Inv, MapAll, IdentityMap, MapFresh, OneTable, Outside, InWindow;
    var root := Lowest(free);
    ZeroedOk(free);
    NewRootKeeps(Zeroed(free));
    MapAllKeeps(EmptyRoot(free), root, l.image);
    IdentityMapKeeps(WithImage(free, l).value, root, l.n);
    MapAllKeeps(WithMemory(free, l).value, root, l.screen);
  }

  /** After boot every page of the image that nothing later is mapped over is where it was put. */
  lemma ImageMapped(free: set<nat>, l: Layout, i: nat)
    requires LayoutOk(l) && free != {} && (forall f :: f in free ==> 0 < f < FRAMES) && Booted(free, l).Some?
    requires i < |l.image| && (forall j :: i < j < |l.image| ==> l.image[j].v != l.image[i].v) && !InWindow(l.image[i].v)
    requires (forall j :: 0 <= j < |l.screen| ==> l.screen[j].v != l.image[i].v) && l.image[i].v != l.stack
    ensures Walk(Booted(free, l).value.mem, Lowest(free), 4, l.image[i].v) == Some(Word(l.image[i].frame, 7))
  {
    hide Inv, MapAll, IdentityMap, MapFresh, Walk, InWindow, OneTable, Outside, Booted;
    var root, v := Lowest(free), l.image[i].v;
    EndOfMemory(l);
    Stages(free, l);
    MapAllGives(EmptyRoot(free), root, l.image, i);
    IdentityLeaves(WithImage(free, l).value, root, l.n, v);
    MapAllLeaves(WithMemory(free, l).value, root, l.screen, v);
    StackLeaves(WithScreen(free, l).value, root, l.stack, v);
  }

  /** So is every page of the screen, and every frame of memory is at its direct address. */
  lemma ScreenMapped(free: set<nat>, l: Layout, i: nat)
    requires LayoutOk(l) && free != {} && (forall f :: f in free ==> 0 < f < FRAMES) && Booted(free, l).Some?
    requires i < |l.screen| && (forall j :: i < j < |l.screen| ==> l.screen[j].v != l.screen[i].v) && l.screen[i].v != l.stack
    ensures Walk(Booted(free, l).value.mem, Lowest(free), 4, l.screen[i].v) == Some(Word(l.screen[i].frame, 7))
  {
    hide Inv, MapAll, IdentityMap, MapFresh, Walk, InWindow, OneTable, Outside, Booted;
    var root := Lowest(free);
    Stages(free, l);
    MapAllGives(WithMemory(free, l).value, root, l.screen, i);
    StackLeaves(WithScreen(free, l).value, root, l.stack, l.screen[i].v);
  }

  lemma MemoryMapped(free: set<nat>, l: Layout, p: nat)
    requires LayoutOk(l) && free != {} && (forall f :: f in free ==> 0 < f < FRAMES) && Booted(free, l).Some? && p < l.n
    ensures Walk(Booted(free, l).value.mem, Lowest(free), 4, DirectPage(p)) == Some(Word(p, 7))
    ensures var w := Walk(Booted(free, l).value.mem, Lowest(free), 4, l.stack); w.Some? && w.value.flags == 7 && w.value.frame in free
  {
    hide Inv, MapAll, IdentityMap, MapFresh, Walk, InWindow, DirectPage, OneTable, Booted;
    var root := Lowest(free);
    EndOfMemory(l);
    Stages(free, l);
    IdentityMapped(WithImage(free, l).value, root, l.n, p);
    DirectInWindow(p);
    OutsideOk(l);
    MapAllLeaves(WithMemory(free, l).value, root, l.screen, DirectPage(p));
    StackLeaves(WithScreen(free, l).value, root, l.stack, DirectPage(p));
  }

  lemma OutsideOk(l: Layout)
    requires LayoutOk(l)
    ensures (forall j :: 0 <= j < |l.screen| ==> !InWindow(l.screen[j].v)) && !InWindow(l.stack)
  {
    hide InWindow, OneTable;
  }

  /** In the terms of map_kernel: page i of an image of at most 512 pages walks to its frame, and page i of the screen
      behind it to frame 0xB8 + i, when the pages behind the image do not run into it. */
  lemma KernelMapped(free: set<nat>, kernmem: nat, f: nat, pages: nat, n: nat, i: nat)
    requires LayoutOk(LayoutOf(kernmem, f, pages, n)) && free != {} && (forall g :: g in free ==> 0 < g < FRAMES)
    requires Booted(free, LayoutOf(kernmem, f, pages, n)).Some? && pages <= 512
    requires forall x, y :: 0 <= x < y < 6 ==> AfterImage(kernmem, pages, x) != AfterImage(kernmem, pages, y)
    ensures i < 4 ==> Walk(Booted(free, LayoutOf(kernmem, f, pages, n)).value.mem, Lowest(free), 4, AfterImage(kernmem, pages, i)) == Some(Word(0xB8 + i, 7))
    ensures var v := PageOf(kernmem).(pt := (PageOf(kernmem).pt + i) % 512);
            i < pages && !InWindow(v) && (forall x :: 0 <= x < 6 ==> AfterImage(kernmem, pages, x) != v) ==>
              Walk(Booted(free, LayoutOf(kernmem, f, pages, n)).value.mem, Lowest(free), 4, v) == Some(Word(f + i, 7))
  {
    hide PageOf, InWindow, LayoutOk, Booted, Walk;
    var l := LayoutOf(kernmem, f, pages, n);
    assert l.stack == AfterImage(kernmem, pages, 5);
    assert forall x :: 0 <= x < 4 ==> l.screen[x] == Mapping(AfterImage(kernmem, pages, x), 0xB8 + x);
    if i < 4 {
      ScreenMapped(free, l, i);
    }
    var v := PageOf(kernmem).(pt := (PageOf(kernmem).pt + i) % 512);
    if i < pages && !InWindow(v) && forall x :: 0 <= x < 6 ==> AfterImage(kernmem, pages, x) != v {
      assert l.image[i] == Mapping(v, f + i);
      forall j | i < j < pages ensures l.image[j].v != v {
        IndicesDiffer(PageOf(kernmem).pt, i, j);
      }
      ImageMapped(free, l, i);
    }
  }

  lemma IndicesDiffer(x: Ix, i: nat, j: nat)
    requires i < j < 512
    ensures (x + i) % 512 != (x + j) % 512
  {
  }

  // ---- From the memory map ----

  lemma {:induction false} IntervalSize(a: nat, b: nat, free: set<nat>)
    requires forall f: nat :: a <= f < b ==> f in free
    ensures b >= a ==> |free| >= b - a
    decreases b - a
  {
    if a < b {
      IntervalSize(a + 1, b, free - {a});
    }
  }

  /** Frames a up to b lie in one region, above the first megabyte and clear of the kernel image and bitmap. */
  ghost predicate Clear(regions: seq<Region>, physbase: nat, physfree: nat, a: nat, b: nat) {
    && (exists r :: r in regions && r.base / PAGE <= a && b <= r.limit / PAGE + 1)
    && LOW < a && (physfree < a * PAGE || b * PAGE <= physbase)
  }

  /** The kernel boots from any memory map whose last region starts at 4096 or above, whose regions end below
      the end of memory, and which has one clear stretch of frames long enough for the tables. */
  lemma MemoryMapBoots(regions: seq<Region>, physbase: nat, physfree: nat, a: nat, b: nat, l: Layout, limit: nat)
    requires LayoutOk(l) && regions != [] && regions[|regions| - 1].base >= PAGE
    requires forall r :: r in regions ==> r.limit / PAGE < l.n
    requires Clear(regions, physbase, physfree, a, b) && b >= a + BootFrames(l) + 2
    ensures var free := BootFree(regions, physbase, physfree);
            && free != {} && Booted(free, l).Some? && |Booted(free, l).value.free| >= 2
            && KernelInv(Started(Booted(free, l).value, Lowest(free), limit))
  {
    hide LayoutOk, BootFree, Booted, KernelInv, TablesFor, Started;
    var free := BootFree(regions, physbase, physfree);
    forall f | f in free ensures 0 < f < FRAMES && f < l.n {
      BootState(regions, physbase, physfree, f);
      InRegion(regions, f, l.n);
      EndOfMemory(l);
    }
    forall f: nat | a <= f < b ensures f in free {
      BootState(regions, physbase, physfree, f);
      ClearInSome(regions, physbase, physfree, a, b, f);
    }
    IntervalSize(a, b, free);
    KernelBoots(free, l, limit);
  }

  lemma EndOfMemory(l: Layout)
    requires LayoutOk(l)
    ensures l.n <= FRAMES
  {
    hide OneTable, Outside, InWindow;
  }

  lemma InRegion(regions: seq<Region>, f: nat, n: nat)
    requires forall r :: r in regions ==> r.limit / PAGE < n
    ensures InSome(regions, f) ==> f < n
  {
  }

  lemma ClearInSome(regions: seq<Region>, physbase: nat, physfree: nat, a: nat, b: nat, f: nat)
    requires Clear(regions, physbase, physfree, a, b) && a <= f < b
    ensures f > LOW && InSome(regions, f) && !(physbase <= f * PAGE <= physfree)
  {
    var r :| r in regions && r.base / PAGE <= a && b <= r.limit / PAGE + 1;
    assert r.base / PAGE <= f <= r.limit / PAGE;
  }
}
