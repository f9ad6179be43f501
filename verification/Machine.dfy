/**
 The paging code as it runs (sys/virt_mem.c, sys/kfork.c): every table is read and written
 through a virtual address, translated by the current address space.  Each method is tied
 to the physical description of its effect; that the two agree is the work of the direct map.
 */
module Machine {
  import opened Options
  import opened FrameSet
  import opened PageTables
  import opened PageMapping
  import opened TableClone
  import opened ForkCopy
  import opened Addresses
  import opened AddressSpaces
  import opened Bytes
  import Areas
  import ElfLoad
  import Tasks
  import Boot
  import FrameBitmap

  /** A table added anywhere leaves the direct map of space x in place. */
  lemma AddTableDirect(s: State, t: nat, level: nat, i: nat, x: nat)
    requires CanAdd(s, t, level, i) && IsRoot(s, x) && Direct(s, x)
    ensures IsRoot(AddTable(s, t, level, i), x) && Direct(AddTable(s, t, level, i), x)
  {
    var s' := AddTable(s, t, level, i);
    AddTableKeeps(s, t, level, i);
    forall p | p in s'.free || p in s'.tabs
      ensures Walk(s'.mem, x, 4, DirectPage(p)) == Some(Word(p, RWU))
    {
      AddTableWalk(s, t, level, i, x, 4, DirectPage(p));
    }
  }

  /** CanAdd, but for the frame. */
  ghost predicate CanHang(s: State, t: nat, level: nat, i: nat) {
    Inv(s) && IsTable(s, t, level) && level > 1 && i < ENTRIES && !Present(Rd(s.mem, t, i))
  }

  lemma CanHangTable(s: State, t: nat, level: nat, i: nat)
    requires CanHang(s, t, level, i)
    ensures t in s.tabs && t < FRAMES && level > 1
  {
  }

  lemma FreePositive(s: State)
    requires Inv(s)
    ensures s.free != {} ==> 0 < Lowest(s.free) < FRAMES
  {
  }

  lemma HungInv(s: State, t: nat, level: nat, i: nat)
    requires CanHang(s, t, level, i) && s.free != {}
    ensures Inv(AddTable(s, t, level, i))
  {
    hide Inv, AddTable;
    AddTableKeeps(s, t, level, i);
  }

  lemma HungKeeps(s: State, t: nat, level: nat, i: nat, x: nat)
    requires CanHang(s, t, level, i) && s.free != {} && IsRoot(s, x) && Direct(s, x)
    ensures Inv(AddTable(s, t, level, i)) && IsRoot(AddTable(s, t, level, i), x) && Direct(AddTable(s, t, level, i), x)
    ensures IsTable(AddTable(s, t, level, i), Lowest(s.free), level - 1)
  {
    hide Inv, Direct, AddTable, Walk;
    AddTableKeeps(s, t, level, i);
    AddTableDirect(s, t, level, i, x);
  }

  /** One level down: the child behind entry i and the state with it in place. */
  ghost function NextOf(s: State, t: nat, level: nat, i: nat): Option<(State, nat)>
    requires level > 0
  {
    var e := Rd(s.mem, t, i);
    if Present(e) then Some((s, e.frame))
    else if s.free == {} then None
    else Some((AddTable(s, t, level, i), Lowest(s.free)))
  }

  lemma NextIsTable(s: State, t: nat, level: nat, i: nat)
    requires Inv(s) && IsTable(s, t, level) && level > 1 && i < ENTRIES
    ensures var r := NextOf(s, t, level, i); r.Some? ==> IsTable(r.value.0, r.value.1, level - 1)
  {
    hide AddTable;
    if Present(Rd(s.mem, t, i)) {
      ChildIsTable(s, t, level, i);
    } else if s.free != {} {
      AddTableKeeps(s, t, level, i);
    }
  }

  lemma MapStep(s: State, t: nat, level: nat, v: Vpn, w: Word)
    requires level > 1
    ensures MapFrom(s, t, level, v, w)
         == match NextOf(s, t, level, Index(level, v)) case None => None case Some((s1, c)) => MapFrom(s1, c, level - 1, v, w)
  {
  }

  // ---- Filling and copying pages ----

  /** The first n words of `page` replaced by those of `src`. */
  function Filled(page: seq<Word>, src: seq<Word>, n: nat): seq<Word>
    requires n <= |src| == |page|
  {
    src[..n] + page[n..]
  }

  /** Frame f of s while it is being overwritten with `src`: n words are done. */
  ghost function Filling(s: State, f: nat, src: seq<Word>, n: nat): State
    requires Inv(s) && f < FRAMES && n <= |src| == ENTRIES
  {
    SetPage(s, f, Filled(s.mem[f], src, n))
  }

  lemma FillingStart(s: State, f: nat, src: seq<Word>)
    requires Inv(s) && f < FRAMES && |src| == ENTRIES
    ensures Filling(s, f, src, 0) == s && Filling(s, f, src, ENTRIES) == SetPage(s, f, src)
  {
    assert Filled(s.mem[f], src, 0) == s.mem[f];
    assert Filled(s.mem[f], src, ENTRIES) == src;
    assert s.mem[f := s.mem[f]] == s.mem;
  }

  lemma FillingStep(s: State, f: nat, src: seq<Word>, n: nat)
    requires Inv(s) && f < FRAMES && n < |src| == ENTRIES
    ensures Put(Filling(s, f, src, n).mem, f, n, src[n]) == Filling(s, f, src, n + 1).mem
  {
    assert Filled(s.mem[f], src, n)[n := src[n]] == Filled(s.mem[f], src, n + 1);
  }

  /** Filling ordinary memory moves no page and leaves the other frames alone. */
  lemma FillingWalk(s: State, f: nat, src: seq<Word>, n: nat, r: nat, u: Vpn, g: nat, i: nat)
    requires Inv(s) && DataFrame(s, f) && n <= |src| == ENTRIES && IsRoot(s, r)
    ensures Walk(Filling(s, f, src, n).mem, r, 4, u) == Walk(s.mem, r, 4, u)
    ensures g != f ==> Rd(Filling(s, f, src, n).mem, g, i) == Rd(s.mem, g, i)
  {
    SetPageWalk(s, f, Filled(s.mem[f], src, n), r, u);
  }

  lemma DataFrameBound(s: State, f: nat)
    requires DataFrame(s, f)
    ensures f < FRAMES
  {
  }

  lemma PageLength(s: State, f: nat)
    requires Inv(s) && f < FRAMES
    ensures |s.mem| == FRAMES && |s.mem[f]| == ENTRIES
  {
  }

  lemma SetPageShape(s: State, f: nat, page: seq<Word>)
    ensures SetPage(s, f, page).free == s.free && SetPage(s, f, page).tabs == s.tabs
  {
  }

  const ZEROS: seq<Word> := seq(ENTRIES, _ => ZERO)

  // ---- Taking a frame ----

  ghost function Without(s: State, p: nat): State {
    s.(free := s.free - {p})
  }

  /** Everything i_virt_alloc does with a frame it took leaves memory as it was. */
  lemma TakenFrame(s: State, r: nat, p: nat)
    requires Inv(s) && IsRoot(s, r) && Direct(s, r) && p in s.free
    ensures Inv(Without(s, p)) && IsRoot(Without(s, p), r) && Direct(Without(s, p), r) && DataFrame(Without(s, p), p)
    ensures Walk(s.mem, r, 4, PageOf(DirectAddr(p))) == Some(Word(p, RWU))
    ensures MapFrom(Without(s, p), r, 4, PageOf(DirectAddr(p)), Word(p, RWU)) == Some(Without(s, p))
    ensures SetPage(Without(s, p), p, ZEROS) == Without(s, p)
  {
    hide Walk, MapFrom;
    DirectAddrPage(p);
    VirtAllocMapsNothing(s, r, p);
    assert s.mem[p] == ZEROS by {
      forall i | 0 <= i < ENTRIES ensures s.mem[p][i] == ZEROS[i] {
        assert Rd(s.mem, p, i) == ZERO;
      }
    }
    assert s.mem[p := s.mem[p]] == s.mem;
  }

  lemma TwoTaken(s: State)
    requires s.free != {}
    ensures |s.free| >= 2 <==> Without(s, Lowest(s.free)).free != {}
    ensures |s.free| >= 2 ==>
              var s1 := Without(s, Lowest(s.free));
              Take2(s) == Without(s1, Lowest(s1.free)) && Second(s.free) == Lowest(s1.free)
  {
    var s1 := Without(s, Lowest(s.free));
    assert |s1.free| == |s.free| - 1;
  }

  // ---- Cloning ----

  /** A task charged for memory, in 32-bit arithmetic. */
  function Charged(t: Tasks.Task, amount: nat): Tasks.Task {
    t.(usage := (t.usage + amount) % Tasks.WORD32)
  }

  /** current_mem_usage after n more pages. */
  function UsageAfter(usage: nat, n: nat): nat {
    (usage + PAGE * n) % Tasks.WORD32
  }

  lemma UsageMore(usage: nat, a: nat, b: nat)
    ensures UsageAfter(UsageAfter(usage, a), b) == UsageAfter(usage, a + b)
    ensures usage < Tasks.WORD32 ==> UsageAfter(usage, 0) == usage
  {
    ModAdd(usage + PAGE * a, PAGE * b);
  }

  /** Charged for n calls of i_virt_alloc. */
  function ChargedFor(t: Tasks.Task, n: nat): Tasks.Task {
    Charged(t, 2 * PAGE * n)
  }

  lemma ChargedForMore(t: Tasks.Task, a: nat, b: nat)
    ensures ChargedFor(ChargedFor(t, a), b) == ChargedFor(t, a + b)
    ensures ChargedFor(t, 1) == Charged(t, 2 * PAGE)
    ensures t.usage < Tasks.WORD32 ==> ChargedFor(t, 0) == t
  {
    ChargedTwice(t, 2 * PAGE * a, 2 * PAGE * b);
  }

  lemma ChargedTwice(t: Tasks.Task, a: nat, b: nat)
    ensures Charged(Charged(t, a), b) == Charged(t, a + b)
  {
    ModAdd(t.usage + a, b);
  }

  /** Every frame taken is counted as a page of the current task. */
  ghost predicate Counted(t: Tasks.Task, t': Tasks.Task, s: State, s': State) {
    |s'.free| <= |s.free| && t' == Charged(t, PAGE * (|s.free| - |s'.free|))
  }

  lemma CountedTrans(t: Tasks.Task, t1: Tasks.Task, t2: Tasks.Task, s: State, s1: State, s2: State)
    requires Counted(t, t1, s, s1) && Counted(t1, t2, s1, s2)
    ensures Counted(t, t2, s, s2)
  {
    ChargedTwice(t, PAGE * (|s.free| - |s1.free|), PAGE * (|s1.free| - |s2.free|));
  }

  lemma ModAdd(a: nat, b: nat)
    ensures (a % Tasks.WORD32 + b) % Tasks.WORD32 == (a + b) % Tasks.WORD32
  {
  }

  /** Space x is as it was, direct map included, once only free frames have been touched. */
  lemma KeptDirect(s: State, s': State, x: nat)
    requires Inv(s) && IsRoot(s, x) && Direct(s, x) && Grows(s, s') && UsedKept(s, s')
    ensures IsRoot(s', x) && Direct(s', x)
  {
    hide Walk, Trail;
    assert TablesKept(s, s', 4);
    SameTreeKept(s, s', x, 4);
    forall p | p in s'.free || p in s'.tabs ensures Walk(s'.mem, x, 4, DirectPage(p)) == Some(Word(p, RWU)) {
      assert p in s.free || p in s.tabs;
    }
  }

  /** The state of the copying loop of clone_page_directory, started in s. */
  ghost predicate CloneLoop(s: State, c: State, t: nat, n: nat, level: nat) {
    Copying(c, t, n, level) && Grows(s, c) && UsedKept(s, c) && n in s.free
  }

  lemma CloneLoopStart(s: State, t: nat, level: nat, up: nat, at: nat)
    requires CloneFrom(s, t, level, up) && |s.free| >= 2
    ensures CloneLoop(s, NewTable(s, Node(level, up, at)), t, Second(s.free), level)
  {
    NewTableKeeps(s, t, level, up, at);
  }

  lemma CloneLoopStep(s: State, c: State, t: nat, n: nat, level: nat, i: nat)
    requires CloneLoop(s, c, t, n, level) && i < ENTRIES && CloneEntry(c, t, n, level, i).Some?
    ensures CloneLoop(s, CloneEntry(c, t, n, level, i).value, t, n, level)
  {
    hide Inv, CloneEntry;
    CloneEntryKeeps(c, t, n, level, i);
    GrowsTrans(s, c, CloneEntry(c, t, n, level, i).value);
  }

  lemma CloneUnroll(c: State, t: nat, n: nat, level: nat, i: nat)
    requires i < ENTRIES
    ensures CloneEntries(c, t, n, level, i)
         == match CloneEntry(c, t, n, level, i) case None => None case Some(c') => CloneEntries(c', t, n, level, i + 1)
  {
  }

  lemma CountedTables(t: Tasks.Task, t': Tasks.Task, s: State, s': State, n: nat)
    requires Counted(t, t', s, s') && |s'.free| == |s.free| - 2 * n
    ensures t' == ChargedFor(t, n)
  {
  }

  lemma CountedSame(t: Tasks.Task, s: State)
    ensures t.usage < Tasks.WORD32 ==> Counted(t, t, s, s)
  {
  }

  /** The cloned subtree: its table is a frame, and the table it will hang below is still there. */
  lemma CloneChild(c: State, t: nat, level: nat, n: nat, i: nat)
    requires CloneFrom(c, t, level, n) && level < 4 && CloneTable(c, t, level, n, i).Some?
    ensures var (c1, m) := CloneTable(c, t, level, n, i).value;
            m < FRAMES && FrameOfAddr(DirectAddr(m)) == m && n in c1.tabs
  {
    hide CloneTable, FrameOfAddr, DirectAddr;
    CloneTableKeeps(c, t, level, n, i);
    VirtPhyRoundTrip(CloneTable(c, t, level, n, i).value.1);
  }

  lemma NewTableIs(s: State, node: Node)
    requires |s.free| >= 2
    ensures NewTable(s, node) == Take2(s).(tabs := s.tabs[Second(s.free) := node])
    ensures |Take2(s).free| == |s.free| - 2
  {
  }

  lemma CloneLoopDone(s: State, c: State, t: nat, n: nat, level: nat, x: nat)
    requires CloneLoop(s, c, t, n, level) && Inv(s) && IsRoot(s, x) && Direct(s, x)
    ensures Inv(c) && IsRoot(c, x) && Direct(c, x) && CloneEntries(c, t, n, level, ENTRIES) == Some(c)
  {
    KeptDirect(s, c, x);
  }

  // ---- Forking ----

  /** After the mapping half of a page copy: where the two ends of the memcpy are. */
  lemma ForkMapped(s: State, x: nat, child: nat, v: Vpn, s2: State)
    requires Forking(s, x, child) && DataPage(s, x, v) && Direct(s, x) && |s.free| >= 2
    requires MapFrom(Take2(s), child, 4, v, Word(Second(s.free), RWU)) == Some(s2)
    ensures var f := Second(s.free);
            && Inv(s2) && IsRoot(s2, x) && DataFrame(s2, f)
            && Walk(s2.mem, x, 4, PageOf(DirectAddr(f))) == Some(Word(f, RWU))
            && Walk(s2.mem, x, 4, v).Some?
            && Walk(s2.mem, x, 4, v).value.frame < FRAMES && Walk(s2.mem, x, 4, v).value.frame != f
            && ForkPage(s, x, child, v) == Some(SetPage(s2, f, Contents(s2.mem, x, v)))
  {
    hide Walk, MapFrom;
    var f := Second(s.free);
    Take2Keeps(s);
    MapPage(Take2(s), child, v, Word(f, RWU));
    RemappedOthers(s, s2, child, v, Word(f, RWU));
    ContentsKept(s, s2, child, [v], x, v);
    DirectAddrPage(f);
  }

  /** A copied page leaves the forking space in order. */
  lemma ForkPageKeeps(s: State, x: nat, child: nat, v: Vpn)
    requires Forking(s, x, child) && DataPage(s, x, v) && Direct(s, x) && ForkPage(s, x, child, v).Some?
    ensures var s' := ForkPage(s, x, child, v).value;
            Forking(s', x, child) && Direct(s', x) && OthersKept(s, s', child, [v])
  {
    hide Walk, ForkPage, Direct;
    ForkPageSpec(s, x, child, v);
    DirectKept(s, ForkPage(s, x, child, v).value, child, [v], x);
  }

  /** The pages still to be copied are where they were. */
  lemma StillData(s: State, s': State, x: nat, child: nat, v: Vpn, pages: seq<Vpn>)
    requires OthersKept(s, s', child, [v]) && IsRoot(s, x) && x != child && AllData(s, x, pages)
    ensures AllData(s', x, pages)
  {
    forall u | u in pages ensures DataPage(s', x, u) {
      ContentsKept(s, s', child, [v], x, u);
    }
  }

  lemma {:induction false} ForkPagesConcat(s: State, x: nat, child: nat, p: seq<Vpn>, q: seq<Vpn>)
    ensures ForkPages(s, x, child, p + q)
         == match ForkPages(s, x, child, p) case None => None case Some(s1) => ForkPages(s1, x, child, q)
    decreases |p|
  {
    if p == [] {
      assert p + q == q;
    } else {
      assert (p + q)[1..] == p[1..] + q;
      if ForkPage(s, x, child, p[0]).Some? {
        ForkPagesConcat(ForkPage(s, x, child, p[0]).value, x, child, p[1..], q);
      }
    }
  }

  lemma ForkPagesFirst(s: State, x: nat, child: nat, v: Vpn, rest: seq<Vpn>)
    ensures ForkPages(s, x, child, [v] + rest)
         == match ForkPage(s, x, child, v) case None => None case Some(s1) => ForkPages(s1, x, child, rest)
  {
    assert ([v] + rest)[1..] == rest;
  }

  lemma AllDataSplit(s: State, x: nat, p: seq<Vpn>, q: seq<Vpn>)
    requires AllData(s, x, p + q)
    ensures AllData(s, x, p) && AllData(s, x, q)
  {
    assert forall v :: v in p ==> v in p + q;
    assert forall v :: v in q ==> v in p + q;
  }

  lemma NextAligned(a: nat)
    requires a % PAGE == 0
    ensures (a + PAGE) % TOP % PAGE == 0
  {
    Areas.LoopAligned(a, 1);
  }

  lemma AllDataOne(s: State, x: nat, v: Vpn)
    requires AllData(s, x, [v])
    ensures DataPage(s, x, v)
  {
    assert v in [v];
  }

  lemma ForkPagesNone(s: State, x: nat, child: nat)
    ensures ForkPages(s, x, child, []) == Some(s)
  {
  }

  lemma ForkingRoots(s: State, x: nat, child: nat)
    requires Forking(s, x, child)
    ensures IsRoot(s, x) && x != child
  {
  }

  lemma FreeRoundTrip(s: State)
    requires Inv(s) && |s.free| >= 2
    ensures FrameOfAddr(DirectAddr(Second(s.free))) == Second(s.free)
  {
    VirtPhyRoundTrip(Second(s.free));
  }

  /** Where the copying of pages starts. */
  lemma ForkStart(s: State, x: nat, pages: seq<Vpn>)
    requires Inv(s) && IsRoot(s, x) && AllData(s, x, pages) && CloneTable(s, x, 4, 0, 0).Some?
    ensures var (s1, child) := CloneTable(s, x, 4, 0, 0).value;
            Forking(s1, x, child) && AllData(s1, x, pages)
  {
    hide Inv, SpacesKept, CloneTable;
    var s1, child := ClonedKept(s, x);
    forall v | v in pages ensures DataPage(s1, x, v) {
      SpacesKeptData(s, s1, x, v);
    }
  }

  lemma AddAreaLength(areas: seq<Areas.Area>, a: Areas.Area)
    ensures |Areas.AddArea(areas, a)| == |areas|
  {
  }

  lemma FreePositiveAddr(s: State)
    requires Inv(s)
    ensures |s.free| >= 2 ==> DirectAddr(Second(s.free)) != 0
  {
    if |s.free| >= 2 {
      DirectAddrPage(Second(s.free));
    }
  }

  /** The brk step for a task on its own. */
  lemma BrkStepIs(s: State, t: Tasks.Task)
    ensures Tasks.BrkStep(Tasks.Kernel(s, [t]), 0)
         == if Tasks.OverLimit(t) then Some(Tasks.Kernel(s, [t]))
            else if |s.free| < 2 then None
            else Some(Tasks.Kernel(Take2(s), [Tasks.Grown(t, Second(s.free))]))
  {
    hide Tasks.Grown, Tasks.OverLimit, Second, Rest;
    if |s.free| >= 2 {
      assert [t][0 := Tasks.Grown(t, Second(s.free))] == [Tasks.Grown(t, Second(s.free))];
    }
  }

  lemma KmallocStepIs(s: State, t: Tasks.Task, size: nat)
    ensures Tasks.KmallocStep(Tasks.Kernel(s, [t]), 0, size)
         == if !Tasks.NeedsPage(t, size) then Some(Tasks.Kernel(s, [t.(cur := (t.cur + size) % TOP)]))
            else if Tasks.OverLimit(t) then Some(Tasks.Kernel(s, [t.(areas := Areas.AddArea(t.areas, Areas.Area(0, PAGE - 1)))]))
            else if |s.free| < 2 then None
            else Some(Tasks.Kernel(Take2(s), [Tasks.HeapTask(t, Second(s.free), size)]))
  {
    hide Tasks.HeapTask, Tasks.OverLimit, Tasks.NeedsPage, Second, Rest, Areas.AddArea;
    assert forall u: Tasks.Task :: [t][0 := u] == [u];
  }

  // ---- Loading ----

  lemma MapFreshNone(s: State, r: nat)
    ensures MapFresh(s, r, []) == Some(s)
  {
  }

  lemma MapFreshOne(s: State, r: nat, v: Vpn)
    ensures MapFresh(s, r, [v])
         == if s.free == {} then None else MapFrom(Without(s, Lowest(s.free)), r, 4, v, Word(Lowest(s.free), RWU))
  {
    hide MapFrom;
    assert [v][1..] == [];
  }

  lemma MapFreshUnroll(s: State, r: nat, v: Vpn, rest: seq<Vpn>)
    ensures MapFresh(s, r, [v] + rest)
         == match MapFresh(s, r, [v]) case None => None case Some(s1) => MapFresh(s1, r, rest)
  {
    hide MapFrom;
    assert ([v] + rest)[1..] == rest;
    MapFreshOne(s, r, v);
  }

  /** A fresh page outside the window leaves the current space in order. */
  lemma FreshPageKeeps(s: State, r: nat, v: Vpn)
    requires Inv(s) && IsRoot(s, r) && Direct(s, r) && s.free != {} && !InWindow(v)
    ensures var s0 := Without(s, Lowest(s.free));
            var o := MapFrom(s0, r, 4, v, Word(Lowest(s.free), RWU));
            && Inv(s0) && IsRoot(s0, r) && Direct(s0, r)
            && (o.Some? ==> Inv(o.value) && IsRoot(o.value, r) && Direct(o.value, r))
  {
    hide MapFrom, Walk, DirectPage;
    var f := Lowest(s.free);
    TakenFrame(s, r, f);
    var o := MapFrom(Without(s, f), r, 4, v, Word(f, RWU));
    if o.Some? {
      MapFreshStep(s, r, v);
      OutsideDirect(o.value, v);
      DirectKept(s, o.value, r, [v], r);
    }
  }

  lemma OutsideDirect(s: State, v: Vpn)
    requires Inv(s) && !InWindow(v)
    ensures AvoidsDirect(s, [v])
  {
    hide DirectPage, InWindow;
    forall p | p in s.free || p in s.tabs ensures DirectPage(p) !in [v] {
      DirectInWindow(p);
    }
  }

  /** Once a segment cannot be loaded, the rest is not either. */
  lemma {:induction false} LoadAllStops(s: State, r: nat, gs: seq<ElfLoad.Segment>, disk: seq<Byte>, i: nat)
    requires ElfLoad.InFile(gs, disk) && i <= |gs| && ElfLoad.LoadAll(s, r, gs[..i], disk).None?
    ensures ElfLoad.LoadAll(s, r, gs, disk).None?
    decreases |gs| - i
  {
    if i < |gs| {
      assert gs[..i + 1][..i] == gs[..i];
      LoadAllStops(s, r, gs, disk, i + 1);
    } else {
      assert gs[..i] == gs;
    }
  }

  lemma {:induction false} SegInAll(gs: seq<ElfLoad.Segment>, i: nat, v: Vpn)
    requires i < |gs| && v in ElfLoad.SegPages(gs[i])
    ensures v in ElfLoad.AllPages(gs)
    decreases |gs|
  {
    hide ElfLoad.SegPages;
    var n := |gs| - 1;
    if i < n {
      assert gs[..n][i] == gs[i];
      SegInAll(gs[..n], i, v);
    }
  }

  /** Loading a segment leaves the current space in order. */
  lemma SegmentLoaded(s: State, r: nat, g: ElfLoad.Segment, disk: seq<Byte>)
    requires Inv(s) && IsRoot(s, r) && Direct(s, r) && g.offset + g.size <= |disk|
    requires forall v :: v in ElfLoad.SegPages(g) ==> !InWindow(v)
    requires ElfLoad.LoadSegment(s, r, g, disk).Some?
    ensures var s' := ElfLoad.LoadSegment(s, r, g, disk).value; Inv(s') && IsRoot(s', r) && Direct(s', r)
  {
    hide Walk, ElfLoad.LoadSegment, ElfLoad.SegPages, FreshPages, DirectPage, InWindow;
    ElfLoad.LoadSegmentKeeps(s, r, g, disk);
    var s' := ElfLoad.LoadSegment(s, r, g, disk).value;
    forall p | p in s'.free || p in s'.tabs ensures DirectPage(p) !in ElfLoad.SegPages(g) {
      DirectInWindow(p);
    }
    DirectKept(s, s', r, ElfLoad.SegPages(g), r);
  }

  /** The slots from VMA_SEGMENT_START on replaced. */
  function WithSegments(areas: seq<Areas.Area>, segs: seq<Areas.Area>): seq<Areas.Area> {
    seq(|areas|, j requires 0 <= j < |areas| => if 3 <= j < 3 + |segs| then segs[j - 3] else areas[j])
  }

  lemma {:induction false} FewSegAreas(gs: seq<ElfLoad.Segment>, i: nat)
    requires i <= |gs|
    ensures |Tasks.SegAreas(gs[..i])| <= |Tasks.SegAreas(gs)|
    decreases |gs|
  {
    var n := |gs| - 1;
    if i <= n && gs != [] {
      assert gs[..n][..i] == gs[..i];
      FewSegAreas(gs[..n], i);
    } else {
      assert gs[..i] == gs;
    }
  }

  lemma SegAreasNext(gs: seq<ElfLoad.Segment>, i: nat)
    requires i < |gs|
    ensures Tasks.SegAreas(gs[..i + 1]) == Tasks.SegAreas(gs[..i]) + if gs[i].size == 0 then [] else [ElfLoad.Rounded(gs[i])]
    ensures ElfLoad.AllPages(gs[..i + 1]) == ElfLoad.AllPages(gs[..i]) + ElfLoad.SegPages(gs[i])
  {
    assert gs[..i + 1][..i] == gs[..i];
  }

  lemma LoadAllNext(s: State, r: nat, gs: seq<ElfLoad.Segment>, disk: seq<Byte>, i: nat)
    requires ElfLoad.InFile(gs, disk) && i < |gs|
    ensures ElfLoad.LoadAll(s, r, gs[..i + 1], disk)
         == match ElfLoad.LoadAll(s, r, gs[..i], disk) case None => None case Some(s1) => ElfLoad.LoadSegment(s1, r, gs[i], disk)
  {
    assert gs[..i + 1][..i] == gs[..i];
  }

  /** The slots once exec has cleared the first ten and set the two stacks. */
  function Cleared(areas: seq<Areas.Area>): (r: seq<Areas.Area>)
    ensures |r| == |areas|
  {
    seq(|areas|, j requires 0 <= j < |areas| => if j < Areas.COPIED then areas[j].(start := 0) else areas[j])
  }

  function WithStacks(areas: seq<Areas.Area>, stack: nat, kstack: nat): (r: seq<Areas.Area>)
    requires |areas| == Areas.AREAS
    ensures |r| == Areas.AREAS
  {
    areas[0 := Areas.Area(stack, stack + PAGE - 1)][1 := Areas.Area(kstack, kstack + PAGE - 1)][2 := Areas.Area(0, PAGE - 1)]
  }

  function Ended(areas: seq<Areas.Area>): seq<Areas.Area> {
    seq(|areas|, j requires 0 <= j < |areas| => if j < 3 then areas[j].(end := areas[j].start + PAGE - 1) else areas[j])
  }

  lemma StacksAre(areas: seq<Areas.Area>, stack: nat, kstack: nat)
    requires |areas| == Areas.AREAS && areas[2].start == 0
    ensures var a := areas[0 := areas[0].(start := stack)]; Ended(a[1 := a[1].(start := kstack)]) == WithStacks(areas, stack, kstack)
  {
  }

  /** A task once its two stacks are in place. */
  lemma StackTask(t: Tasks.Task, stack: nat, kstack: nat)
    requires |t.areas| == Areas.AREAS && t.areas[2].start == 0
    ensures var a := t.areas[0 := t.areas[0].(start := stack)];
            (Charged(Charged(t, 2 * PAGE).(areas := a), 2 * PAGE).(areas := Ended(a[1 := a[1].(start := kstack)])) ==
             Charged(t, 4 * PAGE).(areas := WithStacks(t.areas, stack, kstack)))
  {
    hide Ended, WithStacks;
    ChargedTwice(t, 2 * PAGE, 2 * PAGE);
    StacksAre(t.areas, stack, kstack);
  }

  lemma ExecAreasAre(areas: seq<Areas.Area>, segs: seq<Areas.Area>, stack: nat, kstack: nat)
    requires |areas| == Areas.AREAS && |segs| + 3 <= Areas.AREAS
    ensures WithSegments(WithStacks(Cleared(areas), stack, kstack), segs) == Tasks.ExecAreas(areas, segs, stack, kstack)
  {
  }

  lemma ClearedThird(areas: seq<Areas.Area>)
    requires |areas| == Areas.AREAS
    ensures |Cleared(areas)| == Areas.AREAS && Cleared(areas)[2].start == 0
  {
  }

  /** What exec leaves of the task. */
  lemma ExecTaskIs(t: Tasks.Task, gs: seq<ElfLoad.Segment>, f0: nat, f1: nat)
    requires |t.areas| == Areas.AREAS && |Tasks.SegAreas(gs)| + 3 <= Areas.AREAS
    ensures var t0 := t.(areas := Cleared(t.areas));
            var t1 := Charged(t0, 4 * PAGE).(areas := WithStacks(t0.areas, DirectAddr(f0), DirectAddr(f1)));
            Charged(t1, PAGE * |ElfLoad.AllPages(gs)|).(areas := WithSegments(t1.areas, Tasks.SegAreas(gs))) == Tasks.ExecTask(t, gs, f0, f1)
  {
    hide WithStacks, WithSegments, Cleared, Tasks.ExecAreas, DirectAddr, Tasks.SegAreas, ElfLoad.AllPages;
    ChargedTwice(t, 4 * PAGE, PAGE * |ElfLoad.AllPages(gs)|);
    ExecAreasAre(t.areas, Tasks.SegAreas(gs), DirectAddr(f0), DirectAddr(f1));
  }

  lemma ExecStepIs(s: State, t: Tasks.Task, gs: seq<ElfLoad.Segment>, disk: seq<Byte>)
    requires |t.areas| == Areas.AREAS && ElfLoad.InFile(gs, disk)
    ensures Tasks.ExecStep(Tasks.Kernel(s, [t]), 0, gs, disk)
         == if |s.free| < 4 then None
            else match ElfLoad.LoadAll(Take2(Take2(s)), t.root, gs, disk)
                 case None => None
                 case Some(s') => Some(Tasks.Kernel(s', [Tasks.ExecTask(t, gs, Second(s.free), Second(Take2(s).free))]))
  {
    hide ElfLoad.LoadAll, Tasks.ExecTask, Second, Rest;
    if |s.free| >= 4 {
      NewTableIs(s, Node(0, 0, 0));
      var t' := Tasks.ExecTask(t, gs, Second(s.free), Second(Take2(s).free));
      assert [t][0 := t'] == [t'];
    }
  }

  /** Before the first segment. */
  lemma NoSegments(s: State, r: nat, gs: seq<ElfLoad.Segment>, disk: seq<Byte>, t: Tasks.Task)
    requires ElfLoad.InFile(gs, disk) && t.usage < Tasks.WORD32
    ensures ElfLoad.LoadAll(s, r, gs[..0], disk) == Some(s)
    ensures Tasks.SegAreas(gs[..0]) == [] && ElfLoad.AllPages(gs[..0]) == []
    ensures t == Charged(t, PAGE * 0).(areas := WithSegments(t.areas, []))
  {
    assert WithSegments(t.areas, []) == t.areas;
  }

  // ---- The kernel image ----

  /** The last-level table that the walk of v comes to from table t. */
  function LastTable(m: Mem, t: nat, level: nat, v: Vpn): Option<nat>
    decreases level
  {
    var e := Rd(m, t, Index(level, v));
    if level <= 1 then Some(t)
    else if Present(e) then LastTable(m, e.frame, level - 1, v)
    else None
  }

  /** When all tables are there, mapping is one store. */
  lemma {:induction false} MapPresent(s: State, t: nat, level: nat, v: Vpn, w: Word)
    requires LastTable(s.mem, t, level, v).Some? && level >= 1
    ensures MapFrom(s, t, level, v, w) == Some(s.(mem := Put(s.mem, LastTable(s.mem, t, level, v).value, Index(1, v), w)))
    decreases level
  {
    hide Put;
    if level > 1 {
      MapPresent(s, Rd(s.mem, t, Index(level, v)).frame, level - 1, v, w);
    }
  }

  /** Pages of one table have the same last table, before and after a store in it. */
  lemma {:induction false} LastTableKept(s: State, t: nat, level: nat, u: Vpn, v: Vpn, t1: nat, i: nat, w: Word)
    requires Inv(s) && IsTable(s, t, level) && IsTable(s, t1, 1) && i < ENTRIES && forall k :: 1 < k <= level ==> Index(k, u) == Index(k, v)
    ensures LastTable(Put(s.mem, t1, i, w), t, level, u) == LastTable(s.mem, t, level, v)
    decreases level
  {
    hide Index;
    if level > 1 && Present(Rd(s.mem, t, Index(level, v))) {
      ChildIsTable(s, t, level, Index(level, v));
      LastTableKept(s, Rd(s.mem, t, Index(level, v)).frame, level - 1, u, v, t1, i, w);
    }
  }

  /** Going down one level sets at most the entry gone through. */
  lemma NextEntry(s: State, t: nat, level: nat, i: nat, x: nat, j: nat)
    requires Inv(s) && IsTable(s, t, level) && level > 1 && i < ENTRIES && NextOf(s, t, level, i).Some?
    ensures var (s', c) := NextOf(s, t, level, i).value;
            && Present(Rd(s'.mem, t, i)) && Rd(s'.mem, t, i).frame == c
            && (x != t ==> Rd(s'.mem, x, j) == Rd(s.mem, x, j))
            && (x in s.tabs ==> x in s'.tabs && s'.tabs[x] == s.tabs[x])
  {
  }

  lemma ThreeDown(m: Mem, root: nat, t3: nat, t2: nat, t1: nat, v: Vpn)
    requires Present(Rd(m, root, v.pml4)) && Rd(m, root, v.pml4).frame == t3
    requires Present(Rd(m, t3, v.pdp)) && Rd(m, t3, v.pdp).frame == t2 && Present(Rd(m, t2, v.pd)) && Rd(m, t2, v.pd).frame == t1
    ensures LastTable(m, root, 4, v) == Some(t1)
  {
    assert LastTable(m, t1, 1, v) == Some(t1);
    assert LastTable(m, t2, 2, v) == Some(t1);
    assert LastTable(m, t3, 3, v) == Some(t1);
  }

  /** PT_INDEX of the i-th page after a. */
  lemma PageAfter(a: nat, i: nat)
    ensures PageOf(a + i * PAGE).pt == (PageOf(a).pt + i) % ENTRIES
  {
    PagesOn(a, i);
    IndexOn(a / 0x1000, i);
  }

  lemma PagesOn(a: nat, i: nat)
    ensures (a + i * PAGE) / 0x1000 == a / 0x1000 + i
  {
    assert a + i * PAGE == (a / 0x1000 + i) * 0x1000 + a % 0x1000;
  }

  lemma IndexOn(n: nat, i: nat)
    ensures (n + i) % ENTRIES == (n % ENTRIES + i) % ENTRIES
  {
  }

  /** Pages of an image that ends at `end`. */
  function ImagePages(base: nat, end: nat): nat {
    if base >= end then 0 else (end - base + PAGE - 1) / PAGE
  }

  const PHYSBASE_OFFSET: nat := 0x4800

  /** One more page of the image, by the table that has its entries. */
  lemma ImageStep(s0: State, s: State, root: nat, v: Vpn, f: nat, i: nat, t1: nat)
    requires Inv(s) && IsRoot(s, root) && IsTable(s, t1, 1) && LastTable(s.mem, root, 4, v) == Some(t1)
    requires i > 0 ==> Boot.MapAll(s0, root, Boot.ImageOf(v, f, i)) == Some(s)
    requires i == 0 ==> MapFrom(s0, root, 4, v, Word(f, RWU)) == MapFrom(s, root, 4, v, Word(f, RWU))
    ensures var s' := s.(mem := Put(s.mem, t1, (v.pt + i) % ENTRIES, Word(f + i, RWU)));
            && Boot.MapAll(s0, root, Boot.ImageOf(v, f, i + 1)) == Some(s')
            && Inv(s') && IsRoot(s', root) && IsTable(s', t1, 1) && LastTable(s'.mem, root, 4, v) == Some(t1)
  {
    hide Inv, MapFrom, Put, LastTable, IsTable, Boot.MapAll, Boot.ImageOf;
    var u := v.(pt := (v.pt + i) % ENTRIES);
    InTable(s, root, v, u, t1, Word(f + i, RWU));
    ImageMore(s0, root, v, f, i);
    if i == 0 {
      assert u == v;
    }
  }

  /** Mapping a page whose last-level table is t1 is a store in t1, and keeps it so. */
  lemma InTable(s: State, root: nat, v: Vpn, u: Vpn, t1: nat, w: Word)
    requires Inv(s) && IsRoot(s, root) && IsTable(s, t1, 1) && LastTable(s.mem, root, 4, v) == Some(t1) && u == v.(pt := u.pt)
    ensures var s' := s.(mem := Put(s.mem, t1, u.pt, w));
            && MapFrom(s, root, 4, u, w) == Some(s')
            && Inv(s') && IsRoot(s', root) && IsTable(s', t1, 1) && LastTable(s'.mem, root, 4, v) == Some(t1)
  {
    hide Inv, MapFrom, Put, LastTable;
    LastTableKept(s, root, 4, u, v, t1, 0, Rd(s.mem, t1, 0));
    PutSame(s, t1);
    MapPresent(s, root, 4, u, w);
    SetLeafKeeps(s, t1, u.pt, w);
    LastTableKept(s, root, 4, v, v, t1, u.pt, w);
  }

  lemma ImageMore(s: State, root: nat, v: Vpn, f: nat, i: nat)
    ensures var u, w := v.(pt := (v.pt + i) % ENTRIES), Word(f + i, RWU);
            Boot.MapAll(s, root, Boot.ImageOf(v, f, i + 1)) ==
            if i == 0 then MapFrom(s, root, 4, u, w)
            else match Boot.MapAll(s, root, Boot.ImageOf(v, f, i)) case None => None case Some(s1) => MapFrom(s1, root, 4, u, w)
  {
    hide MapFrom;
    var m := Boot.Mapping(v.(pt := (v.pt + i) % ENTRIES), f + i);
    assert Boot.ImageOf(v, f, i + 1) == Boot.ImageOf(v, f, i) + [m];
    Boot.MapAllNext(s, root, Boot.ImageOf(v, f, i), m);
  }

  lemma PutSame(s: State, t: nat)
    requires Inv(s) && t in s.tabs
    ensures Put(s.mem, t, 0, Rd(s.mem, t, 0)) == s.mem
  {
    assert s.mem[t][0 := s.mem[t][0]] == s.mem[t];
    assert s.mem[t := s.mem[t]] == s.mem;
  }

  lemma LastIsSelf(m: Mem, t: nat, v: Vpn)
    ensures LastTable(m, t, 1, v) == Some(t)
  {
  }

  /** If the first page cannot be mapped, the image cannot. */
  lemma FirstImagePage(s: State, root: nat, v: Vpn, f: nat, n: nat)
    requires n > 0 && MapFrom(s, root, 4, v, Word(f, RWU)).None?
    ensures Boot.MapAll(s, root, Boot.ImageOf(v, f, n)).None?
  {
    hide MapFrom;
    var ms := Boot.ImageOf(v, f, n);
    assert ms[..1] == [] + [Boot.Mapping(v, f)];
    Boot.MapAllNext(s, root, [], Boot.Mapping(v, f));
    Boot.MapAllStops(s, root, ms, 1);
  }

  lemma NoScreen(s: State, root: nat, a: nat)
    ensures Boot.MapAll(s, root, Boot.ScreenOf(a, 0)) == Some(s)
  {
  }

  /** One more page of the screen. */
  lemma ScreenStep(s: State, root: nat, a: nat, i: nat)
    requires i < 4
    ensures Boot.MapAll(s, root, Boot.ScreenOf(a, i + 1))
         == match Boot.MapAll(s, root, Boot.ScreenOf(a, i)) case None => None case Some(s1) => MapFrom(s1, root, 4, PageOf(a + i * PAGE), Word(0xB8 + i, RWU))
    ensures Boot.MapAll(s, root, Boot.ScreenOf(a, i + 1)).None? ==> Boot.MapAll(s, root, Boot.ScreenOf(a, 4)).None?
  {
    hide MapFrom, Boot.MapAll;
    var m := Boot.Mapping(PageOf(a + i * PAGE), 0xB8 + i);
    assert Boot.ScreenOf(a, i + 1) == Boot.ScreenOf(a, i) + [m];
    Boot.MapAllNext(s, root, Boot.ScreenOf(a, i), m);
    assert Boot.ScreenOf(a, 4)[..i + 1] == Boot.ScreenOf(a, i + 1);
    if Boot.MapAll(s, root, Boot.ScreenOf(a, i + 1)).None? {
      Boot.MapAllStops(s, root, Boot.ScreenOf(a, 4), i + 1);
    }
  }

  // ---- Fork as a step ----

  lemma ForkStepIs(s: State, t: Tasks.Task)
    ensures Tasks.ForkStep(Tasks.Kernel(s, [t]), 0)
         == if !Areas.AllPassable(t.areas) then None
            else match Fork(s, t.root, Tasks.Recorded(t))
                 case None => None
                 case Some((s', child)) =>
                   Some(Tasks.Kernel(s', [t.(usage := (t.usage + 2 * PAGE * (Count(s.mem, t.root, 4) + |Tasks.Recorded(t)|)) % Tasks.WORD32),
                                          Tasks.Task(child, Tasks.Inherited(t.areas), UsageAfter(0, |Tasks.Recorded(t)|), t.limit, 0, 0)]))
  {
    hide Fork, Count, Tasks.Recorded, Tasks.Inherited, Areas.AllPassable;
    assert forall u: Tasks.Task, c: Tasks.Task :: [t][0 := u] + [c] == [u, c];
  }

  /** The child's root is a frame, so its direct address gives it back. */
  lemma ForkedRoot(s: State, r: nat, pages: seq<Vpn>)
    requires Inv(s) && IsRoot(s, r) && AllData(s, r, pages) && Fork(s, r, pages).Some?
    ensures FrameOfAddr(DirectAddr(Fork(s, r, pages).value.1)) == Fork(s, r, pages).value.1
  {
    hide Fork, AllData, DirectAddr, FrameOfAddr, Walk;
    ForkSpec(s, r, pages);
    VirtPhyRoundTrip(Fork(s, r, pages).value.1);
  }

  lemma FirstAreasAre(p: nat)
    ensures var none := seq(Areas.AREAS, _ => Areas.Area(0, 0));
            Ended(none[1 := none[1].(start := DirectAddr(p))]) == Boot.FirstAreas(p)
  {
    hide DirectAddr;
  }

  class Cpu {
    var mem: Mem
    var cr3: nat                    // frame of the current root table
    var task: Tasks.Task            // the record of current_task
    const frames: FrameBitmap.Bitmap
    ghost var tabs: map<nat, Node>

    /** Memory as the loader leaves it: every frame that may be handed out is zero. */
    constructor (frames: FrameBitmap.Bitmap)
      requires frames.Valid() && forall f :: f in frames.Free() ==> 0 < f < FRAMES
      ensures this.frames == frames && tabs == map[]
      ensures Inv(St()) && St().free == frames.Free()
    {
      this.frames := frames;
      mem := seq(FRAMES, _ => seq(ENTRIES, _ => ZERO));
      cr3, tabs := 0, map[];
      task := Tasks.Task(0, [], 0, 0, 0, 0);
    }

    ghost function St(): State
      reads this, frames, frames.words
    {
      State(mem, frames.Free(), tabs)
    }

    /** The tables are in order and the current space has the direct map. */
    ghost predicate Valid()
      reads this, frames, frames.words
    {
      frames.Valid() && Inv(St()) && IsRoot(St(), cr3) && Direct(St(), cr3) && task.usage < Tasks.WORD32
    }

    /** The frame that the current space has at virtual address a. */
    ghost function Translate(a: nat): Option<Word>
      reads this
    {
      Walk(mem, cr3, 4, PageOf(a))
    }

    /** Read word i of the page at virtual address a. */
    method Load(a: nat, i: Ix) returns (w: Word)
      requires Translate(a).Some?
      ensures w == Rd(mem, Translate(a).value.frame, i)
    {
      w := Rd(mem, Walk(mem, cr3, 4, PageOf(a)).value.frame, i);
    }

    /** Write word i of the page at virtual address a. */
    method Store(a: nat, i: Ix, w: Word)
      requires Translate(a).Some?
      modifies this`mem
      ensures mem == Put(old(mem), old(Translate(a).value.frame), i, w)
    {
      mem := Put(mem, Walk(mem, cr3, 4, PageOf(a)).value.frame, i, w);
    }

    /** A table is found at its direct address. */
    lemma TableAt(t: nat)
      requires Valid() && t in tabs
      ensures Translate(DirectAddr(t)) == Some(Word(t, RWU))
    {
      DirectAddrPage(t);
    }

    /** A fresh table for entry i of the table at `vt`. */
    method AddChild(vt: nat, i: Ix, ghost t: nat, ghost level: nat) returns (ok: bool, child: nat)
      requires Valid() && CanHang(St(), t, level, i) && vt == DirectAddr(t)
      modifies this`mem, this`tabs, frames.words
      ensures ok == (old(St()).free != {})
      ensures ok ==> Valid() && child == Lowest(old(St()).free) && St() == AddTable(old(St()), t, level, i)
    {
      hide Inv, Direct, Walk, Put, CanHang, DirectAddr, FrameBitmap.FramesOf, FrameBitmap.WordsOk;
      ghost var s := St();
      CanHangTable(s, t, level, i);
      TableAt(t);
      FreePositive(s);
      var addr := frames.PageAlloc();
      if addr == 0 {
        return false, 0;
      }
      child := addr / PAGE;
      HungKeeps(s, t, level, i, cr3);
      Store(vt, i, Word(child, RWU));
      tabs := tabs[child := Node(level - 1, t, i)];
      ok := true;
    }

    /** One level of map_process_specific: the table behind entry i of the table at `vt`, added if missing. */
    method NextTable(vt: nat, i: Ix, ghost t: nat, ghost level: nat) returns (ok: bool, child: nat)
      requires Valid() && IsTable(St(), t, level) && level > 1 && vt == DirectAddr(t)
      modifies this`mem, this`tabs, frames.words
      ensures ok ==> Valid() && NextOf(old(St()), t, level, i) == Some((St(), child))
      ensures !ok ==> NextOf(old(St()), t, level, i).None?
    {
      hide Inv, Direct, Walk, Put, DirectAddr, AddTable, FrameBitmap.FramesOf, FrameBitmap.WordsOk;
      TableAt(t);
      var e := Load(vt, i);
      if Present(e) {
        return true, e.frame;
      }
      ok, child := AddChild(vt, i, t, level);
    }

    /** map_process_specific: map the page of `va` to frame pa in the space whose root table is at `pml4e`, and
        count a page for the task whose usage is given. */
    method MapProcessSpecific(va: nat, pa: nat, pml4e: nat, usage: nat, ghost root: nat) returns (ok: bool, usage': nat)
      requires Valid() && IsRoot(St(), root) && pml4e == DirectAddr(root)
      modifies this`mem, this`tabs, frames.words
      ensures usage' == UsageAfter(usage, 1)
      ensures ok ==> frames.Valid() && MapFrom(old(St()), root, 4, PageOf(va), Word(pa, RWU)) == Some(St())
      ensures !ok ==> MapFrom(old(St()), root, 4, PageOf(va), Word(pa, RWU)).None?
    {
      hide Inv, Direct, Walk, Put, DirectAddr, NextOf, FrameBitmap.FramesOf, FrameBitmap.WordsOk, PageOf;
      usage' := (usage + PAGE) % Tasks.WORD32;
      var v := PageOf(va);
      ghost var w := Word(pa, RWU);
      var t3, t2, t1;
      NextIsTable(St(), root, 4, v.pml4);
      MapStep(St(), root, 4, v, w);
      ok, t3 := NextTable(pml4e, v.pml4, root, 4);
      if !ok { return; }
      NextIsTable(St(), t3, 3, v.pdp);
      MapStep(St(), t3, 3, v, w);
      ok, t2 := NextTable(DirectAddr(t3), v.pdp, t3, 3);
      if !ok { return; }
      NextIsTable(St(), t2, 2, v.pd);
      MapStep(St(), t2, 2, v, w);
      ok, t1 := NextTable(DirectAddr(t2), v.pd, t2, 2);
      if !ok { return; }
      TableAt(t1);
      Store(DirectAddr(t1), v.pt, Word(pa, RWU));
    }

    /** map_process: map in the current space, and count a page for the current task. */
    method MapProcess(va: nat, pa: nat) returns (ok: bool)
      requires Valid()
      modifies this`mem, this`tabs, this`task, frames.words
      ensures task == Charged(old(task), PAGE)
      ensures ok ==> frames.Valid() && MapFrom(old(St()), cr3, 4, PageOf(va), Word(pa, RWU)) == Some(St())
      ensures !ok ==> MapFrom(old(St()), cr3, 4, PageOf(va), Word(pa, RWU)).None?
    {
      hide Inv, Direct, Walk, MapFrom, PageOf, DirectAddr, FrameBitmap.FramesOf, FrameBitmap.WordsOk;
      var usage;
      ok, usage := MapProcessSpecific(va, pa, DirectAddr(cr3), task.usage, cr3);
      task := task.(usage := usage);
    }

    /** memset(a, 0, 4096), on a page of ordinary memory. */
    method Clear(a: nat, ghost f: nat)
      requires Inv(St()) && IsRoot(St(), cr3) && DataFrame(St(), f)
      requires Translate(a).Some? && Translate(a).value.frame == f
      modifies this`mem
      ensures St() == SetPage(old(St()), f, ZEROS)
    {
      hide Inv, Walk, Put, PageOf, Filling, DataFrame, SetPage, FrameBitmap.FramesOf;
      ghost var s := St();
      ghost var zs := ZEROS;
      var i := 0;
      DataFrameBound(s, f);
      FillingStart(s, f, zs);
      while i < ENTRIES
        invariant i <= ENTRIES && mem == Filling(s, f, zs, i).mem
      {
        FillingWalk(s, f, zs, i, cr3, PageOf(a), f, i);
        FillingStep(s, f, zs, i);
        Store(a, i, ZERO);
        i := i + 1;
      }
      SetPageShape(s, f, zs);
    }

    /** memcpy(dst, src, 4096), on a page of ordinary memory. */
    method Copy(dst: nat, src: nat, ghost f: nat)
      requires Inv(St()) && IsRoot(St(), cr3) && DataFrame(St(), f)
      requires Translate(dst).Some? && Translate(dst).value.frame == f
      requires Translate(src).Some? && Translate(src).value.frame < FRAMES && Translate(src).value.frame != f
      modifies this`mem
      ensures St() == SetPage(old(St()), f, Contents(old(mem), cr3, PageOf(src)))
    {
      hide Inv, Walk, Put, PageOf, Filling, DataFrame, SetPage, FrameBitmap.FramesOf;
      ghost var s := St();
      ghost var g := Translate(src).value.frame;
      PageLength(s, g);
      ghost var page := mem[g];
      var i := 0;
      DataFrameBound(s, f);
      FillingStart(s, f, page);
      while i < ENTRIES
        invariant i <= ENTRIES && mem == Filling(s, f, page, i).mem
      {
        FillingWalk(s, f, page, i, cr3, PageOf(dst), g, i);
        FillingWalk(s, f, page, i, cr3, PageOf(src), g, i);
        FillingStep(s, f, page, i);
        var w := Load(src, i);
        assert w == page[i];
        Store(dst, i, w);
        i := i + 1;
      }
      SetPageShape(s, f, page);
    }

    /** page_alloc, map_process at the direct address, memset. */
    method TakeFrame() returns (ok: bool, p: nat)
      requires Valid()
      modifies this`mem, this`tabs, this`task, frames.words
      ensures ok == (old(St()).free != {})
      ensures ok ==> Valid() && p == Lowest(old(St()).free) && St() == Without(old(St()), p)
      ensures ok ==> task == Charged(old(task), PAGE)
    {
      hide Inv, Direct, Walk, MapFrom, PageOf, DirectAddr, SetPage, DataFrame, FrameBitmap.FramesOf, FrameBitmap.WordsOk;
      ghost var s := St();
      FreePositive(s);
      var addr := frames.PageAlloc();
      if addr == 0 {
        return false, 0;
      }
      p := addr / PAGE;
      TakenFrame(s, cr3, p);
      ok := MapProcess(DirectAddr(p), p);
      Clear(DirectAddr(p), p);
    }

    /** i_virt_alloc: the first frame is abandoned and the second returned. */
    method IVirtAlloc() returns (ok: bool, va: nat)
      requires Valid()
      modifies this`mem, this`tabs, this`task, frames.words
      ensures ok == (|old(St()).free| >= 2)
      ensures ok ==> Valid() && St() == Take2(old(St())) && va == DirectAddr(Second(old(St()).free))
      ensures ok ==> task == Charged(old(task), 2 * PAGE)
    {
      hide Inv, Direct, DirectAddr, Take2, Second, FrameBitmap.FramesOf, FrameBitmap.WordsOk, Without;
      ghost var s := St();
      var p;
      ok, p := TakeFrame();
      if !ok {
        return false, 0;
      }
      TwoTaken(s);
      ChargedTwice(old(task), PAGE, PAGE);
      ok, p := TakeFrame();
      va := DirectAddr(p);
    }

    /** The body of the loop of clone_page_directory. */
    method CloneEntryOf(src: nat, va: nat, level: nat, i: Ix, ghost t: nat, ghost n: nat, ghost s: State) returns (ok: bool)
      requires frames.Valid() && task.usage < Tasks.WORD32 && CloneLoop(s, St(), t, n, level) && Inv(s) && IsRoot(s, cr3) && Direct(s, cr3)
      requires src == DirectAddr(t) && va == DirectAddr(n)
      modifies this`mem, this`tabs, this`task, frames.words
      ensures !ok ==> CloneEntry(old(St()), t, n, level, i).None?
      ensures ok ==>
                && frames.Valid() && CloneEntry(old(St()), t, n, level, i) == Some(St())
                && CloneLoop(s, St(), t, n, level)
                && Counted(old(task), task, old(St()), St())
      decreases level, 0
    {
      hide Inv, Direct, Walk, DirectAddr, CloneTable, FrameBitmap.FramesOf, FrameBitmap.WordsOk, UsedKept, FrameOfAddr, Put;
      ghost var c := St();
      KeptDirect(s, c, cr3);
      CountedSame(task, c);
      TableAt(t);
      TableAt(n);
      var e := Load(src, i);
      if Present(e) {
        if level == 1 {
          Store(va, i, e);
        } else {
          ChildIsTable(c, t, level, i);
          var child;
          ok, child := ClonePageDirectory(DirectAddr(e.frame), level - 1, e.frame, n, i);
          if !ok {
            return;
          }
          CloneChild(c, e.frame, level - 1, n, i);
          TableAt(n);
          Store(va, i, Word(FrameOfAddr(child), e.flags));
        }
      }
      CloneLoopStep(s, c, t, n, level, i);
      ok := true;
    }

    /** clone_page_directory: copy the table at `src`, and below it everything of the given levels. */
    method ClonePageDirectory(src: nat, level: nat, ghost t: nat, ghost up: nat, ghost at: nat) returns (ok: bool, va: nat)
      requires Valid() && CloneFrom(St(), t, level, up) && src == DirectAddr(t)
      modifies this`mem, this`tabs, this`task, frames.words
      ensures !ok ==> CloneTable(old(St()), t, level, up, at).None?
      ensures ok ==>
                && Valid() && CloneTable(old(St()), t, level, up, at).Some?
                && CloneTable(old(St()), t, level, up, at).value.0 == St()
                && va == DirectAddr(CloneTable(old(St()), t, level, up, at).value.1)
                && Counted(old(task), task, old(St()), St())
      decreases level, ENTRIES + 1
    {
      hide Inv, Direct, Walk, DirectAddr, CloneEntries, CloneEntry, CloneLoop, Rest, Second, FrameBitmap.FramesOf, FrameBitmap.WordsOk;
      ghost var s := St();
      ok, va := IVirtAlloc();
      if !ok {
        return;
      }
      ghost var n := Second(s.free);
      tabs := tabs[n := Node(level, up, at)];
      ghost var s1 := St();
      NewTableIs(s, Node(level, up, at));
      CloneLoopStart(s, t, level, up, at);
      var i := 0;
      while i < ENTRIES
        invariant i <= ENTRIES && frames.Valid()
        invariant CloneLoop(s, St(), t, n, level)
        invariant CloneEntries(s1, t, n, level, 0) == CloneEntries(St(), t, n, level, i)
        invariant Counted(old(task), task, s, St())
      {
        ghost var c, u := St(), task;
        CloneUnroll(c, t, n, level, i);
        ok := CloneEntryOf(src, va, level, i, t, n, s);
        if !ok {
          return;
        }
        CountedTrans(old(task), u, task, s, c, St());
        i := i + 1;
      }
      CloneLoopDone(s, St(), t, n, level, cr3);
    }

    /** The body of the copying loop of kfork, for the page at `cur`. */
    method ForkOnePage(cur: nat, childVa: nat, usage: nat, ghost child: nat) returns (ok: bool, usage': nat)
      requires Valid() && Forking(St(), cr3, child) && DataPage(St(), cr3, PageOf(cur)) && childVa == DirectAddr(child)
      requires cur % PAGE == 0
      modifies this`mem, this`tabs, this`task, frames.words
      ensures !ok ==> ForkPage(old(St()), cr3, child, PageOf(cur)).None?
      ensures ok ==>
                && Valid() && Forking(St(), cr3, child) && OthersKept(old(St()), St(), child, [PageOf(cur)])
                && ForkPage(old(St()), cr3, child, PageOf(cur)) == Some(St())
      ensures ok ==> task == Charged(old(task), 2 * PAGE) && usage' == UsageAfter(usage, 1)
    {
      hide Inv, Direct, Walk, MapFrom, DirectAddr, PageOf, DataFrame, SetPage, OthersKept, Rest, Second, FrameOfAddr, FrameBitmap.FramesOf, FrameBitmap.WordsOk;
      ghost var s := St();
      var pv;
      usage' := usage;
      ok, pv := IVirtAlloc();
      if !ok {
        return;
      }
      FreeRoundTrip(s);
      ok, usage' := MapProcessSpecific(cur, FrameOfAddr(pv), childVa, usage, child);
      if !ok {
        return;
      }
      ForkMapped(s, cr3, child, PageOf(cur), St());
      Copy(pv, cur, Second(s.free));
      ForkPageKeeps(s, cr3, child, PageOf(cur));
    }

    /** The inner loop of kfork: every page of one area.  Over an area that reaches the last page of the
        address space the loop never ends, which counts as a failure. */
    method ForkArea(start: nat, end: nat, childVa: nat, usage: nat, ghost child: nat, ghost rest: seq<Vpn>) returns (ok: bool, usage': nat)
      requires Valid() && Forking(St(), cr3, child) && childVa == DirectAddr(child) && Areas.AreaOk(Areas.Area(start, end))
      requires AllData(St(), cr3, Areas.PagesFrom(start, end)) && AllData(St(), cr3, rest) && usage < Tasks.WORD32
      modifies this`mem, this`tabs, this`task, frames.words
      ensures !ok ==> !Areas.Passable(Areas.Area(start, end)) || ForkPages(old(St()), cr3, child, Areas.PagesFrom(start, end)).None?
      ensures ok ==>
                && Valid() && Forking(St(), cr3, child) && AllData(St(), cr3, rest) && Areas.Passable(Areas.Area(start, end))
                && ForkPages(old(St()), cr3, child, Areas.PagesFrom(start, end)) == Some(St())
                && usage' == UsageAfter(usage, |Areas.PagesFrom(start, end)|)
                && task == ChargedFor(old(task), |Areas.PagesFrom(start, end)|)
    {
      hide Inv, Direct, DirectAddr, PageOf, ForkPage, ForkPages, DataPage, OthersKept, AllData, Forking, FrameBitmap.FramesOf, FrameBitmap.WordsOk;
      hide Charged, ChargedFor, UsageAfter;
      ghost var s := St();
      ghost var pages: nat := 0;
      ChargedForMore(task, 0, 0);
      UsageMore(usage, 0, 0);
      var cur := start;
      usage', ok := usage, true;
      if !Areas.Passable(Areas.Area(start, end)) {
        return false, usage;
      }
      ForkPagesNone(s, cr3, child);
      while cur < end
        invariant cur == start || cur < TOP
        invariant cur % PAGE == 0 && Valid() && Forking(St(), cr3, child)
        invariant AllData(St(), cr3, Areas.PagesFrom(cur, end)) && AllData(St(), cr3, rest)
        invariant ForkPages(s, cr3, child, Areas.PagesFrom(start, end)) == ForkPages(St(), cr3, child, Areas.PagesFrom(cur, end))
        invariant pages + |Areas.PagesFrom(cur, end)| == |Areas.PagesFrom(start, end)|
        invariant task == ChargedFor(old(task), pages) && usage' == UsageAfter(usage, pages)
        decreases end - cur
      {
        ghost var c, u, more := St(), task, Areas.PagesFrom(cur + PAGE, end);
        AllDataSplit(c, cr3, [PageOf(cur)], more);
        AllDataOne(c, cr3, PageOf(cur));
        ForkPagesFirst(c, cr3, child, PageOf(cur), more);
        UsageMore(usage, pages, 1);
        ok, usage' := ForkOnePage(cur, childVa, usage', child);
        if !ok {
          return;
        }
        ForkingRoots(c, cr3, child);
        StillData(c, St(), cr3, child, PageOf(cur), more);
        StillData(c, St(), cr3, child, PageOf(cur), rest);
        ChargedForMore(old(task), pages, 1);
        ChargedForMore(u, 1, 0);
        pages := pages + 1;
        NextAligned(cur);
        cur := (cur + PAGE) % TOP;
      }
      ForkPagesNone(St(), cr3, child);
    }

    /** The outer loop of kfork: the areas of the first ten slots. */
    method ForkAreas(areas: seq<Areas.Area>, childVa: nat, ghost child: nat) returns (ok: bool, usage: nat)
      requires Valid() && Areas.AreasFit(areas) && Forking(St(), cr3, child) && childVa == DirectAddr(child)
      requires AllData(St(), cr3, Areas.RecordedFrom(areas, 0))
      modifies this`mem, this`tabs, this`task, frames.words
      ensures !ok ==> !Areas.AllPassable(areas) || ForkPages(old(St()), cr3, child, Areas.RecordedFrom(areas, 0)).None?
      ensures ok ==>
                && Valid() && Areas.AllPassable(areas) && ForkPages(old(St()), cr3, child, Areas.RecordedFrom(areas, 0)) == Some(St())
                && usage == UsageAfter(0, |Areas.RecordedFrom(areas, 0)|)
                && task == ChargedFor(old(task), |Areas.RecordedFrom(areas, 0)|)
    {
      hide Inv, Direct, DirectAddr, ForkPages, AllData, Forking, Areas.PagesFrom, Areas.Passable, FrameBitmap.FramesOf, FrameBitmap.WordsOk;
      hide Charged, ChargedFor, Areas.RecordedFrom;
      ghost var s := St();
      ghost var pages: nat := 0;
      ChargedForMore(task, 0, 0);
      usage, ok := 0, true;
      var i := 0;
      while i < Areas.COPIED
        invariant i <= Areas.COPIED && ok
        invariant forall j :: 0 <= j < i && areas[j].start != 0 ==> Areas.Passable(areas[j])
        invariant Valid() && Forking(St(), cr3, child)
        invariant AllData(St(), cr3, Areas.RecordedFrom(areas, i))
        invariant ForkPages(s, cr3, child, Areas.RecordedFrom(areas, 0)) == ForkPages(St(), cr3, child, Areas.RecordedFrom(areas, i))
        invariant pages + |Areas.RecordedFrom(areas, i)| == |Areas.RecordedFrom(areas, 0)|
        invariant task == ChargedFor(old(task), pages) && usage == UsageAfter(0, pages)
      {
        ghost var now, more := Areas.AreaPages(areas[i]), Areas.RecordedFrom(areas, i + 1);
        Areas.RecordedSplit(areas, i);
        ForkPagesConcat(St(), cr3, child, now, more);
        AllDataSplit(St(), cr3, now, more);
        if areas[i].start != 0 {
          assert areas[i] == Areas.Area(areas[i].start, areas[i].end);
          ok, usage := ForkArea(areas[i].start, areas[i].end, childVa, usage, child, more);
          if !ok {
            return;
          }
          ChargedForMore(old(task), pages, |now|);
          UsageMore(0, pages, |now|);
          pages := pages + |now|;
        } else {
          ForkPagesNone(St(), cr3, child);
        }
        i := i + 1;
      }
      Areas.RecordedSplit(areas, i);
      ForkPagesNone(St(), cr3, child);
    }

    /** The memory part of kfork: the address of the child's root, and the usage of the child. */
    method ForkMemory(areas: seq<Areas.Area>) returns (ok: bool, childVa: nat, usage: nat)
      requires Valid() && Areas.AreasFit(areas) && AllData(St(), cr3, Areas.RecordedFrom(areas, 0))
      modifies this`mem, this`tabs, this`task, frames.words
      ensures !ok ==> !Areas.AllPassable(areas) || Fork(old(St()), cr3, Areas.RecordedFrom(areas, 0)).None?
      ensures ok ==>
                && Valid() && Areas.AllPassable(areas) && Fork(old(St()), cr3, Areas.RecordedFrom(areas, 0)).Some?
                && St() == Fork(old(St()), cr3, Areas.RecordedFrom(areas, 0)).value.0
                && childVa == DirectAddr(Fork(old(St()), cr3, Areas.RecordedFrom(areas, 0)).value.1)
                && usage == UsageAfter(0, |Areas.RecordedFrom(areas, 0)|)
                && task == ChargedFor(old(task), Count(old(mem), cr3, 4) + |Areas.RecordedFrom(areas, 0)|)
    {
      hide Inv, Direct, DirectAddr, CloneTable, ForkPages, AllData, Forking, Areas.RecordedFrom, Areas.AllPassable, FrameBitmap.FramesOf, FrameBitmap.WordsOk;
      hide Charged, ChargedFor, Count, Counted, UsageAfter;
      ghost var s := St();
      ok, childVa := ClonePageDirectory(DirectAddr(cr3), 4, cr3, 0, 0);
      if !ok {
        return false, 0, 0;
      }
      ghost var child := CloneTable(s, cr3, 4, 0, 0).value.1;
      ForkStart(s, cr3, Areas.RecordedFrom(areas, 0));
      CloneTableTakes(s, cr3, 4, 0, 0);
      CountedTables(old(task), task, s, St(), Count(s.mem, cr3, 4));
      ok, usage := ForkAreas(areas, childVa, child);
      ChargedForMore(old(task), Count(s.mem, cr3, 4), |Areas.RecordedFrom(areas, 0)|);
    }

    /** The memory part of kfork for the current task: the fork step, and the record of the child. */
    method Kfork() returns (ok: bool, child: Tasks.Task)
      requires Valid() && Areas.AreasFit(task.areas) && task.root == cr3 && AllData(St(), cr3, Tasks.Recorded(task))
      modifies this`mem, this`tabs, this`task, frames.words
      ensures !ok ==> Tasks.ForkStep(Tasks.Kernel(old(St()), [old(task)]), 0).None?
      ensures ok ==> Valid() && Tasks.ForkStep(Tasks.Kernel(old(St()), [old(task)]), 0) == Some(Tasks.Kernel(St(), [task, child]))
    {
      hide Inv, Direct, DirectAddr, FrameOfAddr, Fork, AllData, Areas.RecordedFrom, Areas.AllPassable, Areas.AreasFit, Tasks.ForkStep, Tasks.Inherited, Count;
      hide FrameBitmap.FramesOf, FrameBitmap.WordsOk;
      ghost var s := St();
      ghost var was := task;
      ForkStepIs(s, was);
      child := task;
      var childVa, usage;
      ok, childVa, usage := ForkMemory(task.areas);
      if !ok {
        return;
      }
      ForkedRoot(s, cr3, Tasks.Recorded(was));
      child := Tasks.Task(FrameOfAddr(childVa), Tasks.Inherited(task.areas), usage, task.limit, 0, 0);
    }

    /** add_to_vma, and the same loop in brk: the first empty of ten slots, if any. */
    method AddToVma(a: Areas.Area)
      requires |task.areas| == Areas.AREAS
      modifies this`task
      ensures task == old(task).(areas := Areas.AddArea(old(task.areas), a))
    {
      var i := 0;
      while i < Areas.COPIED
        invariant i <= Areas.COPIED && task == old(task)
        invariant Areas.EmptySlot(task.areas, 0) == Areas.EmptySlot(task.areas, i)
      {
        if task.areas[i].start == 0 {
          task := task.(areas := task.areas[i := a]);
          return;
        }
        i := i + 1;
      }
    }

    /** brk: a page for the current task, 0 when it is over its limit. */
    method Brk() returns (ok: bool, addr: nat)
      requires Valid() && |task.areas| == Areas.AREAS
      modifies this`mem, this`tabs, this`task, frames.words
      ensures !ok ==> Tasks.BrkStep(Tasks.Kernel(old(St()), [old(task)]), 0).None?
      ensures ok ==>
                && Valid() && |task.areas| == Areas.AREAS
                && Tasks.BrkStep(Tasks.Kernel(old(St()), [old(task)]), 0) == Some(Tasks.Kernel(St(), [task]))
                && addr == if Tasks.OverLimit(old(task)) then 0 else DirectAddr(Second(old(St()).free))
    {
      hide Inv, Direct, DirectAddr, Rest, Second, Areas.AddArea, Tasks.BrkStep, FrameBitmap.FramesOf, FrameBitmap.WordsOk;
      BrkStepIs(St(), task);
      if Tasks.OverLimit(task) {
        return true, 0;
      }
      ok, addr := IVirtAlloc();
      if !ok {
        return;
      }
      ChargedTwice(old(task), 2 * PAGE, PAGE);
      AddAreaLength(task.areas, Areas.Area(addr, addr + PAGE - 1));
      AddToVma(Areas.Area(addr, addr + PAGE - 1));
      task := Charged(task, PAGE);
      assert task == Tasks.Grown(old(task), Second(old(St()).free));
    }

    /** kmalloc: a block from the current page of the heap, or from a new page; 0 when brk refuses. */
    method Kmalloc(size: nat) returns (ok: bool, addr: nat)
      requires Valid() && |task.areas| == Areas.AREAS
      modifies this`mem, this`tabs, this`task, frames.words
      ensures !ok ==> Tasks.KmallocStep(Tasks.Kernel(old(St()), [old(task)]), 0, size).None?
      ensures ok ==>
                && Valid() && |task.areas| == Areas.AREAS
                && Tasks.KmallocStep(Tasks.Kernel(old(St()), [old(task)]), 0, size) == Some(Tasks.Kernel(St(), [task]))
                && addr == if !Tasks.NeedsPage(old(task), size) then old(task.cur)
                           else if Tasks.OverLimit(old(task)) then 0 else DirectAddr(Second(old(St()).free))
    {
      hide Inv, Direct, DirectAddr, Rest, Second, Areas.AddArea, Tasks.BrkStep, Tasks.KmallocStep, Tasks.OverLimit, Tasks.Grown;
      hide FrameBitmap.FramesOf, FrameBitmap.WordsOk;
      BrkStepIs(St(), task);
      KmallocStepIs(St(), task, size);
      ok := true;
      var cur, heapEnd := task.cur, task.heapEnd;
      if cur == 0 || (cur + size) % TOP > heapEnd {
        FreePositiveAddr(St());
        ok, cur := Brk();
        if !ok {
          return false, 0;
        }
        assert [task][0] == task;
        heapEnd := cur + PAGE - 1;
        AddAreaLength(task.areas, Areas.Area(cur, heapEnd));
        AddToVma(Areas.Area(cur, heapEnd));
      }
      if cur == 0 {
        return true, 0;
      }
      addr := cur;
      task := task.(cur := (cur + size) % TOP, heapEnd := heapEnd);
      assert Tasks.NeedsPage(old(task), size) ==> task == Tasks.HeapTask(old(task), Second(old(St()).free), size);
    }

    // ---- Boot: tables are reached at their physical addresses ----

    /** One level of map(). */
    method NextTableBoot(t: nat, i: Ix, ghost level: nat) returns (ok: bool, child: nat)
      requires frames.Valid() && Inv(St()) && IsTable(St(), t, level) && level > 1
      modifies this`mem, this`tabs, frames.words
      ensures ok ==> frames.Valid() && Inv(St()) && NextOf(old(St()), t, level, i) == Some((St(), child))
      ensures !ok ==> NextOf(old(St()), t, level, i).None?
    {
      hide Inv, Put, FrameBitmap.FramesOf, FrameBitmap.WordsOk;
      ghost var s := St();
      var e := Rd(mem, t, i);
      if Present(e) {
        return true, e.frame;
      }
      FreePositive(s);
      var addr := frames.PageAlloc();
      if addr == 0 {
        return false, 0;
      }
      child := addr / PAGE;
      assert CanHang(s, t, level, i);
      HungInv(s, t, level, i);
      mem := Put(mem, t, i, Word(child, RWU));
      tabs := tabs[child := Node(level - 1, t, i)];
      ok := true;
    }

    /** map(): as map_process_specific, before the direct map exists. */
    method Map(va: nat, pa: nat, root: nat) returns (ok: bool)
      requires frames.Valid() && Inv(St()) && IsRoot(St(), root)
      modifies this`mem, this`tabs, frames.words
      ensures ok ==> frames.Valid() && MapFrom(old(St()), root, 4, PageOf(va), Word(pa, RWU)) == Some(St())
      ensures !ok ==> MapFrom(old(St()), root, 4, PageOf(va), Word(pa, RWU)).None?
    {
      hide Inv, Walk, Put, NextOf, FrameBitmap.FramesOf, FrameBitmap.WordsOk, PageOf;
      var v := PageOf(va);
      ghost var w := Word(pa, RWU);
      var t3, t2, t1;
      NextIsTable(St(), root, 4, v.pml4);
      MapStep(St(), root, 4, v, w);
      ok, t3 := NextTableBoot(root, v.pml4, 4);
      if !ok { return; }
      NextIsTable(St(), t3, 3, v.pdp);
      MapStep(St(), t3, 3, v, w);
      ok, t2 := NextTableBoot(t3, v.pdp, 3);
      if !ok { return; }
      NextIsTable(St(), t2, 2, v.pd);
      MapStep(St(), t2, 2, v, w);
      ok, t1 := NextTableBoot(t2, v.pd, 2);
      if !ok { return; }
      mem := Put(mem, t1, v.pt, Word(pa, RWU));
    }

    /** The three tables of map_kernel.  The root is empty, so each is a new one. */
    method KernelTables(root: nat, v: Vpn, ghost w: Word) returns (ok: bool, t1: nat)
      requires frames.Valid() && Inv(St()) && IsRoot(St(), root)
      modifies this`mem, this`tabs, frames.words
      ensures !ok ==> MapFrom(old(St()), root, 4, v, w).None?
      ensures ok ==>
                && frames.Valid() && Inv(St()) && IsRoot(St(), root) && IsTable(St(), t1, 1)
                && LastTable(mem, root, 4, v) == Some(t1) && MapFrom(old(St()), root, 4, v, w) == MapFrom(St(), root, 4, v, w)
    {
      hide Inv, Put, NextOf, Present, MapFrom, LastTable, FrameBitmap.FramesOf, FrameBitmap.WordsOk;
      var t3, t2;
      ghost var s := St();
      t1 := 0;
      NextIsTable(s, root, 4, v.pml4);
      MapStep(s, root, 4, v, w);
      ok, t3 := NextTableBoot(root, v.pml4, 4);
      if !ok { return; }
      ghost var s3 := St();
      NextEntry(s, root, 4, v.pml4, root, 0);
      NextIsTable(s3, t3, 3, v.pdp);
      MapStep(s3, t3, 3, v, w);
      ok, t2 := NextTableBoot(t3, v.pdp, 3);
      if !ok { return; }
      ghost var s2 := St();
      NextEntry(s3, t3, 3, v.pdp, root, v.pml4);
      NextEntry(s3, t3, 3, v.pdp, t3, 0);
      NextIsTable(s2, t2, 2, v.pd);
      MapStep(s2, t2, 2, v, w);
      ok, t1 := NextTableBoot(t2, v.pd, 2);
      if !ok { return; }
      NextEntry(s2, t2, 2, v.pd, root, v.pml4);
      NextEntry(s2, t2, 2, v.pd, t3, v.pdp);
      ThreeDown(mem, root, t3, t2, t1, v);
      MapPresent(St(), root, 4, v, w);
      LastIsSelf(mem, t1, v);
      MapPresent(St(), t1, 1, v, w);
    }

    /** map_kernel */
    method MapKernel(kernmem: nat, physbase: nat, physfree: nat) returns (ok: bool, root: nat)
      requires frames.Valid() && Inv(St()) && physbase % PAGE == 0 && physbase < physfree + 0x4800
      modifies this`mem, this`tabs, frames.words
      ensures !ok ==> old(St()).free == {} ||
                      Boot.MapAll(NewRoot(old(St())), Lowest(old(St()).free),
                        Boot.ImageOf(PageOf(kernmem), physbase / PAGE, ImagePages(physbase, physfree + 0x4800))).None?
      ensures ok ==>
                && frames.Valid() && old(St()).free != {} && root == Lowest(old(St()).free) && Inv(St()) && IsRoot(St(), root)
                && Boot.MapAll(NewRoot(old(St())), root,
                     Boot.ImageOf(PageOf(kernmem), physbase / PAGE, ImagePages(physbase, physfree + 0x4800))) == Some(St())
    {
      hide Inv, Put, MapFrom, LastTable, Boot.MapAll, Boot.ImageOf, PageOf, FrameBitmap.FramesOf, FrameBitmap.WordsOk;
      ghost var s := St();
      FreePositive(s);
      root := 0;
      var addr := frames.PageAlloc();
      if addr == 0 {
        return false, 0;
      }
      NewRootKeeps(s);
      root := addr / PAGE;
      tabs := tabs[root := Node(4, 0, 0)];
      ghost var s0 := St();
      assert s0 == NewRoot(s);
      var v := PageOf(kernmem);
      var t1;
      ghost var n := ImagePages(physbase, physfree + PHYSBASE_OFFSET);
      ok, t1 := KernelTables(root, v, Word(physbase / PAGE, RWU));
      if !ok {
        FirstImagePage(s0, root, v, physbase / PAGE, n);
        return;
      }
      var base, i := physbase, 0;
      while base < physfree + PHYSBASE_OFFSET
        invariant frames.Valid() && base == physbase + i * PAGE && i <= n
        invariant Inv(St()) && IsRoot(St(), root) && IsTable(St(), t1, 1) && LastTable(mem, root, 4, v) == Some(t1)
        invariant i > 0 ==> Boot.MapAll(s0, root, Boot.ImageOf(v, physbase / PAGE, i)) == Some(St())
        invariant i == 0 ==> MapFrom(s0, root, 4, v, Word(physbase / PAGE, RWU)) == MapFrom(St(), root, 4, v, Word(physbase / PAGE, RWU))
        decreases physfree + PHYSBASE_OFFSET - base
      {
        ImageStep(s0, St(), root, v, physbase / PAGE, i, t1);
        PageAfter(kernmem, i);
        mem := Put(mem, t1, PageOf(kernmem + i * PAGE).pt, Word(base / PAGE, RWU));
        base, i := base + PAGE, i + 1;
      }
    }

    /** The first loop of identity_mapping, for a memory that ends at maxPhys. */
    method MapMemory(maxPhys: nat, root: nat) returns (ok: bool)
      requires frames.Valid() && Inv(St()) && IsRoot(St(), root) && maxPhys / PAGE < FRAMES
      modifies this`mem, this`tabs, frames.words
      ensures ok ==> frames.Valid() && IdentityMap(old(St()), root, maxPhys / PAGE + 1) == Some(St())
      ensures !ok ==> IdentityMap(old(St()), root, maxPhys / PAGE + 1).None?
    {
      hide Inv, MapFrom, DirectPage, DirectAddr, FrameBitmap.FramesOf, FrameBitmap.WordsOk;
      ghost var s := St();
      var n := 0;
      ok := true;
      while n * PAGE <= maxPhys
        invariant n <= maxPhys / PAGE + 1
        invariant frames.Valid() && Inv(St()) && IsRoot(St(), root) && IdentityMap(s, root, n) == Some(St())
        decreases maxPhys + 1 - n * PAGE
      {
        DirectAddrPage(n);
        ok := Map(DirectAddr(n), n, root);
        if !ok {
          IdentityMapStops(s, root, n + 1, maxPhys / PAGE + 1);
          return;
        }
        n := n + 1;
        IdentityMapKeeps(s, root, n);
      }
    }

    /** identity_mapping: all of memory at the direct addresses, and the screen. */
    method IdentityMapping(maxPhys: nat, vga: nat, root: nat) returns (ok: bool)
      requires frames.Valid() && Inv(St()) && IsRoot(St(), root) && maxPhys / PAGE < FRAMES
      modifies this`mem, this`tabs, frames.words
      ensures var s1 := IdentityMap(old(St()), root, maxPhys / PAGE + 1);
              && (ok ==> frames.Valid() && s1.Some? && Boot.MapAll(s1.value, root, Boot.ScreenOf(vga, 4)) == Some(St()))
              && (!ok ==> s1.None? || Boot.MapAll(s1.value, root, Boot.ScreenOf(vga, 4)).None?)
    {
      hide Inv, IdentityMap, MapFrom, Boot.MapAll, PageOf, FrameBitmap.FramesOf, FrameBitmap.WordsOk;
      ghost var s := St();
      ok := MapMemory(maxPhys, root);
      if !ok {
        return;
      }
      IdentityMapKeeps(s, root, maxPhys / PAGE + 1);
      ghost var s1 := St();
      var offset, i := 0, 0;
      NoScreen(s1, root, vga);
      while offset <= 23 * 80 * 2 * 4
        invariant offset == i * PAGE && i <= 4
        invariant frames.Valid() && Inv(St()) && IsRoot(St(), root) && Boot.MapAll(s1, root, Boot.ScreenOf(vga, i)) == Some(St())
      {
        ScreenStep(s1, root, vga, i);
        ok := Map(vga + offset, 0xB8 + offset / PAGE, root);
        if !ok {
          return;
        }
        offset, i := offset + PAGE, i + 1;
        Boot.MapAllKeeps(s1, root, Boot.ScreenOf(vga, i));
      }
    }

    // ---- Loading an executable ----

    /** page_alloc and map_process for the page at `at`. */
    method MapOne(at: nat) returns (ok: bool)
      requires Valid() && !InWindow(PageOf(at))
      modifies this`mem, this`tabs, this`task, frames.words
      ensures ok ==> Valid() && task == Charged(old(task), PAGE)
      ensures ok ==> MapFresh(old(St()), cr3, [PageOf(at)]) == Some(St())
      ensures !ok ==> MapFresh(old(St()), cr3, [PageOf(at)]).None?
    {
      hide Inv, Direct, MapFrom, MapFresh, PageOf, InWindow, FrameBitmap.FramesOf, FrameBitmap.WordsOk;
      ghost var c := St();
      MapFreshOne(c, cr3, PageOf(at));
      FreePositive(c);
      var addr := frames.PageAlloc();
      if addr == 0 {
        return false;
      }
      FreshPageKeeps(c, cr3, PageOf(at));
      ok := MapProcess(at, addr / PAGE);
    }

    /** The mapping loop of map_exe_format, over the pages from `start` to `end`. */
    method MapPages(start: nat, end: nat) returns (ok: bool)
      requires Valid() && end <= TOP
      requires forall v :: v in Areas.PagesFrom(start, end) ==> !InWindow(v)
      modifies this`mem, this`tabs, this`task, frames.words
      ensures !ok ==> MapFresh(old(St()), cr3, Areas.PagesFrom(start, end)).None?
      ensures ok ==> Valid() && MapFresh(old(St()), cr3, Areas.PagesFrom(start, end)) == Some(St())
      ensures ok ==> task == Charged(old(task), PAGE * |Areas.PagesFrom(start, end)|)
    {
      hide Inv, Direct, MapFresh, PageOf, InWindow, FrameBitmap.FramesOf, FrameBitmap.WordsOk;
      ghost var s := St();
      ghost var done: nat := 0;
      var at := start;
      ok := true;
      while at < end
        invariant Valid() && ok && (forall v :: v in Areas.PagesFrom(at, end) ==> !InWindow(v))
        invariant MapFresh(s, cr3, Areas.PagesFrom(start, end)) == MapFresh(St(), cr3, Areas.PagesFrom(at, end))
        invariant done + |Areas.PagesFrom(at, end)| == |Areas.PagesFrom(start, end)| && task == Charged(old(task), PAGE * done)
        decreases end - at
      {
        assert Areas.PagesFrom(at, end) == [PageOf(at)] + Areas.PagesFrom(at + PAGE, end);
        assert PageOf(at) in Areas.PagesFrom(at, end);
        MapFreshUnroll(St(), cr3, PageOf(at), Areas.PagesFrom(at + PAGE, end));
        ok := MapOne(at);
        if !ok {
          return;
        }
        ChargedTwice(old(task), PAGE * done, PAGE);
        done := done + 1;
        at := at + PAGE;
      }
      MapFreshNone(St(), cr3);
    }

    /** Write the byte at virtual address a. */
    method StoreByte(a: nat, x: Byte)
      modifies this`mem
      ensures St() == ElfLoad.PutByte(old(St()), cr3, a, x)
    {
      hide FrameBitmap.FramesOf, Walk, WithByte, PageOf;
      var w := Walk(mem, cr3, 4, PageOf(a));
      if w.Some? && w.value.frame < |mem| {
        mem := mem[w.value.frame := WithByte(mem[w.value.frame], a % PAGE, x)];
      }
    }

    /** The copying loop of map_exe_format. */
    method CopySegment(g: ElfLoad.Segment, disk: seq<Byte>)
      requires g.offset + g.size <= |disk|
      modifies this`mem
      ensures St() == ElfLoad.CopyBytes(old(St()), cr3, g, disk, g.size)
    {
      hide FrameBitmap.FramesOf, ElfLoad.PutByte;
      ghost var s := St();
      var n := 0;
      while n < g.size
        invariant n <= g.size
        invariant St() == ElfLoad.CopyBytes(s, cr3, g, disk, n)
      {
        StoreByte(g.vaddr + n, disk[g.offset + n]);
        n := n + 1;
      }
    }

    /** One round of map_exe_format, for a segment whose area goes to the given slot. */
    method MapSegment(g: ElfLoad.Segment, disk: seq<Byte>, slot: nat) returns (ok: bool)
      requires Valid() && g.offset + g.size <= |disk| && ElfLoad.Rounded(g).end <= TOP && (g.size != 0 ==> slot < |task.areas|)
      requires forall v :: v in ElfLoad.SegPages(g) ==> !InWindow(v)
      modifies this`mem, this`tabs, this`task, frames.words
      ensures !ok ==> ElfLoad.LoadSegment(old(St()), cr3, g, disk).None?
      ensures ok ==> Valid() && ElfLoad.LoadSegment(old(St()), cr3, g, disk) == Some(St())
      ensures ok ==> task == Charged(old(task), PAGE * |ElfLoad.SegPages(g)|).(areas :=
                       if g.size == 0 then old(task.areas) else old(task.areas)[slot := ElfLoad.Rounded(g)])
    {
      hide Inv, Direct, MapFresh, ElfLoad.CopyBytes, ElfLoad.Rounded, Areas.PagesFrom, InWindow, FrameBitmap.FramesOf, FrameBitmap.WordsOk;
      ghost var s := St();
      var r := ElfLoad.Rounded(g);
      if g.size != 0 {
        task := task.(areas := task.areas[slot := r]);
      }
      ok := MapPages(r.start, r.end);
      if !ok {
        return;
      }
      CopySegment(g, disk);
      SegmentLoaded(s, cr3, g, disk);
    }

    /** map_exe_format */
    method MapExeFormat(gs: seq<ElfLoad.Segment>, disk: seq<Byte>) returns (ok: bool)
      requires Valid() && Tasks.SegmentsOk(gs, disk) && |task.areas| == Areas.AREAS
      modifies this`mem, this`tabs, this`task, frames.words
      ensures !ok ==> ElfLoad.LoadAll(old(St()), cr3, gs, disk).None?
      ensures ok ==>
                && Valid() && ElfLoad.LoadAll(old(St()), cr3, gs, disk) == Some(St())
                && task == Charged(old(task), PAGE * |ElfLoad.AllPages(gs)|).(areas := WithSegments(old(task.areas), Tasks.SegAreas(gs)))
    {
      hide Inv, Direct, ElfLoad.LoadAll, ElfLoad.LoadSegment, ElfLoad.AllPages, ElfLoad.SegPages, ElfLoad.Rounded, Tasks.SegAreas;
      hide InWindow, FrameBitmap.FramesOf, FrameBitmap.WordsOk;
      ghost var s := St();
      ghost var was := task;
      var i, slot := 0, 3;
      ok := true;
      NoSegments(s, cr3, gs, disk, was);
      while i < |gs|
        invariant i <= |gs| && ok && Valid() && slot == 3 + |Tasks.SegAreas(gs[..i])|
        invariant ElfLoad.LoadAll(s, cr3, gs[..i], disk) == Some(St())
        invariant task == Charged(was, PAGE * |ElfLoad.AllPages(gs[..i])|).(areas := WithSegments(was.areas, Tasks.SegAreas(gs[..i])))
      {
        LoadAllNext(s, cr3, gs, disk, i);
        SegAreasNext(gs, i);
        FewSegAreas(gs, i + 1);
        forall v | v in ElfLoad.SegPages(gs[i]) ensures !InWindow(v) {
          SegInAll(gs, i, v);
        }
        ok := MapSegment(gs[i], disk, slot);
        if !ok {
          LoadAllStops(s, cr3, gs, disk, i + 1);
          return;
        }
        ChargedTwice(was, PAGE * |ElfLoad.AllPages(gs[..i])|, PAGE * |ElfLoad.SegPages(gs[i])|);
        if gs[i].size != 0 {
          slot := slot + 1;
        }
        i := i + 1;
      }
      assert gs[..i] == gs;
    }

    /** Clear the first ten areas. */
    method ClearAreas()
      requires |task.areas| == Areas.AREAS
      modifies this`task
      ensures task == old(task).(areas := Cleared(old(task.areas)))
    {
      ghost var was := task;
      var i := 0;
      while i < 10
        invariant i <= 10 && |task.areas| == |was.areas| && task == was.(areas := task.areas)
        invariant forall j :: 0 <= j < |was.areas| ==> task.areas[j] == if j < i then was.areas[j].(start := 0) else was.areas[j]
      {
        task := task.(areas := task.areas[i := task.areas[i].(start := 0)]);
        i := i + 1;
      }
      assert task.areas == Cleared(was.areas);
    }

    /** The ends of the first three areas. */
    method SetEnds()
      requires |task.areas| == Areas.AREAS
      modifies this`task
      ensures task == old(task).(areas := Ended(old(task.areas)))
    {
      ghost var was := task;
      var i := 0;
      while i < 3
        invariant i <= 3 && |task.areas| == |was.areas| && task == was.(areas := task.areas)
        invariant forall j :: 0 <= j < |was.areas| ==> task.areas[j] == if j < i then was.areas[j].(end := was.areas[j].start + PAGE - 1) else was.areas[j]
      {
        task := task.(areas := task.areas[i := task.areas[i].(end := task.areas[i].start + PAGE - 1)]);
        i := i + 1;
      }
      assert task.areas == Ended(was.areas);
    }

    /** A page from i_virt_alloc as the start of area i. */
    method StartArea(i: nat) returns (ok: bool, addr: nat)
      requires Valid() && i < |task.areas|
      modifies this`mem, this`tabs, this`task, frames.words
      ensures ok == (|old(St()).free| >= 2)
      ensures ok ==> Valid() && St() == Take2(old(St())) && addr == DirectAddr(Second(old(St()).free))
      ensures ok ==> task == Charged(old(task), 2 * PAGE).(areas := old(task.areas)[i := old(task.areas)[i].(start := addr)])
      ensures |task.areas| == old(|task.areas|) || !ok
    {
      hide Inv, Direct, DirectAddr, Second, Rest, FrameBitmap.FramesOf, FrameBitmap.WordsOk;
      ok, addr := IVirtAlloc();
      if ok {
        task := task.(areas := task.areas[i := task.areas[i].(start := addr)]);
      }
    }

    /** The two stacks of an executable. */
    method MakeStacks() returns (ok: bool)
      requires Valid() && |task.areas| == Areas.AREAS && task.areas[2].start == 0
      modifies this`mem, this`tabs, this`task, frames.words
      ensures ok == (|old(St()).free| >= 4)
      ensures ok ==> Valid() && St() == Take2(Take2(old(St())))
      ensures ok ==> task == Charged(old(task), 4 * PAGE).(areas :=
                               WithStacks(old(task.areas), DirectAddr(Second(old(St()).free)), DirectAddr(Second(Take2(old(St())).free))))
    {
      hide Inv, Direct, DirectAddr, Second, Rest, FrameBitmap.FramesOf, FrameBitmap.WordsOk, WithStacks, Ended, Charged;
      ghost var was := task;
      ghost var s := St();
      var stack, kstack;
      ok, stack := StartArea(0);
      if !ok {
        return;
      }
      NewTableIs(s, Node(0, 0, 0));
      ok, kstack := StartArea(1);
      if !ok {
        return;
      }
      StackTask(was, stack, kstack);
      SetEnds();
    }

    /** initialize_tasking, as far as the memory of the first task goes: all areas empty, then a page for the
        kernel stack. */
    method InitializeTasking(limit: nat) returns (ok: bool)
      requires Valid()
      modifies this`mem, this`tabs, this`task, frames.words
      ensures ok == (|old(St()).free| >= 2)
      ensures ok ==> Valid() && Tasks.Kernel(St(), [task]) == Boot.Started(old(St()), cr3, limit)
    {
      hide Inv, Direct, DirectAddr, Second, Rest, FrameBitmap.FramesOf, FrameBitmap.WordsOk, Ended, Boot.FirstAreas;
      task := Tasks.Task(cr3, seq(Areas.AREAS, _ => Areas.Area(0, 0)), 0, limit, 0, 0);
      var stack;
      ok, stack := StartArea(1);
      if !ok {
        return;
      }
      FirstAreasAre(Second(old(St()).free));
      SetEnds();
    }

    /** The memory part of kexecvpe: clear the areas, make the two stacks, load the executable. */
    method Exec(gs: seq<ElfLoad.Segment>, disk: seq<Byte>) returns (ok: bool)
      requires Valid() && Tasks.SegmentsOk(gs, disk) && |task.areas| == Areas.AREAS && task.root == cr3
      modifies this`mem, this`tabs, this`task, frames.words
      ensures !ok ==> Tasks.ExecStep(Tasks.Kernel(old(St()), [old(task)]), 0, gs, disk).None?
      ensures ok ==> Valid() && Tasks.ExecStep(Tasks.Kernel(old(St()), [old(task)]), 0, gs, disk) == Some(Tasks.Kernel(St(), [task]))
    {
      hide Inv, Direct, DirectAddr, Second, Rest, ElfLoad.LoadAll, ElfLoad.AllPages, Tasks.SegAreas, Tasks.ExecStep, Tasks.ExecTask;
      hide WithSegments, WithStacks, Cleared, Charged, FrameBitmap.FramesOf, FrameBitmap.WordsOk;
      ghost var was := task;
      ghost var s := St();
      ExecStepIs(s, was, gs, disk);
      ClearedThird(task.areas);
      ClearAreas();
      ok := MakeStacks();
      if !ok {
        return;
      }
      ExecTaskIs(was, gs, Second(s.free), Second(Take2(s).free));
      ok := MapExeFormat(gs, disk);
    }
  }
}
