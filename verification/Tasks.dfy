/**
 The memory of the tasks, over whole runs: brk and kmalloc (sys/virt_mem.c), the mapping
 part of exec (sys/kexecvpe.c, sys/read_tarfs.c), fork (sys/kfork.c) and stores by the
 tasks to the pages they have recorded.
 */
module Tasks {
  import opened Options
  import opened PageTables
  import opened TableClone
  import opened ForkCopy
  import opened Addresses
  import opened Areas
  import opened Bytes
  import opened ElfLoad

  const WORD32: nat := 0x1_0000_0000

  datatype Task = Task(root: nat, areas: seq<Area>, usage: nat, limit: nat, cur: nat, heapEnd: nat)

  datatype Kernel = Kernel(s: State, tasks: seq<Task>)

  /** The pages that fork copies. */
  function Recorded(t: Task): seq<Vpn> {
    RecordedFrom(t.areas, 0)
  }

  // ---- Steps ----

  datatype Op =
    | Brk(i: nat)
    | Kmalloc(i: nat, size: nat)
    | Exec(i: nat, gs: seq<Segment>, disk: seq<Byte>)
    | Fork(i: nat)
    | Store(i: nat, v: Vpn, at: Ix, w: Word)

  /** brk fails when one page more would pass the limit, in 32-bit arithmetic. */
  predicate OverLimit(t: Task) {
    (t.usage + PAGE) % WORD32 > t.limit
  }

  /** A successful brk: i_virt_alloc counts two pages and brk counts a third. */
  ghost function Grown(t: Task, p: nat): Task {
    t.(areas := AddArea(t.areas, Area(DirectAddr(p), DirectAddr(p) + PAGE - 1)),
    usage := (t.usage + 3 * PAGE) % WORD32)
  }

  ghost function BrkStep(k: Kernel, i: nat): Option<Kernel>
    requires i < |k.tasks|
  {
    var t := k.tasks[i];
    if OverLimit(t) then Some(k)
    else if |k.s.free| < 2 then None
    else Some(Kernel(Take2(k.s), k.tasks[i := Grown(t, Second(k.s.free))]))
  }

  /** Whether kmalloc takes a new page for the block. */
  predicate NeedsPage(t: Task, size: nat) {
    t.cur == 0 || (t.cur + size) % TOP > t.heapEnd
  }

  /** The task once kmalloc has taken frame p for its heap and `size` bytes of it; both brk and
      kmalloc record the page. */
  ghost function HeapTask(t: Task, p: nat, size: nat): Task {
    var a := DirectAddr(p);
    var t1 := Grown(t, p);
    t1.(areas := AddArea(t1.areas, Area(a, a + PAGE - 1)), cur := (a + size) % TOP, heapEnd := a + PAGE - 1)
  }

  ghost function KmallocStep(k: Kernel, i: nat, size: nat): Option<Kernel>
    requires i < |k.tasks|
  {
    var t := k.tasks[i];
    if !NeedsPage(t, size) then Some(k.(tasks := k.tasks[i := t.(cur := (t.cur + size) % TOP)]))
    else if OverLimit(t) then
      // brk returned NULL: only the end of an empty area slot is overwritten
      Some(k.(tasks := k.tasks[i := t.(areas := AddArea(t.areas, Area(0, PAGE - 1)))]))
    else if |k.s.free| < 2 then None
    else Some(Kernel(Take2(k.s), k.tasks[i := HeapTask(t, Second(k.s.free), size)]))
  }

  /** The areas of the segments that have a size, in order. */
  function SegAreas(gs: seq<Segment>): seq<Area> {
    if gs == [] then []
    else SegAreas(gs[..|gs| - 1]) + if gs[|gs| - 1].size == 0 then [] else [Rounded(gs[|gs| - 1])]
  }

  /** Store the segments in the slots from VMA_SEGMENT_START on, and clear the rest of the first ten. */
  function SegmentAreas(areas: seq<Area>, segs: seq<Area>): seq<Area> {
    seq(|areas|, j requires 0 <= j < |areas| =>
      if 3 <= j < 3 + |segs| then segs[j - 3]
      else if j < COPIED then Area(0, areas[j].end) else areas[j])
  }

  /** The segments of an executable: in the file, few enough for the slots, in the address space and outside
      the direct map. */
  ghost predicate SegmentsOk(gs: seq<Segment>, disk: seq<Byte>) {
    && InFile(gs, disk) && |SegAreas(gs)| + 3 <= AREAS
    && (forall i :: 0 <= i < |gs| ==> Rounded(gs[i]).end <= TOP)
    && forall v :: v in AllPages(gs) ==> !InWindow(v)
  }

  /** The areas after exec: user stack, kernel stack, an empty heap slot and the segments. */
  function ExecAreas(areas: seq<Area>, segs: seq<Area>, stack: nat, kstack: nat): seq<Area>
    requires |areas| == AREAS
  {
    SegmentAreas(areas, segs)[0 := Area(stack, stack + PAGE - 1)][1 := Area(kstack, kstack + PAGE - 1)][2 := Area(0, PAGE - 1)]
  }

  /** The task after exec, its stacks in frames f0 and f1. */
  function ExecTask(t: Task, gs: seq<Segment>, f0: nat, f1: nat): Task
    requires |t.areas| == AREAS
  {
    t.(areas := ExecAreas(t.areas, SegAreas(gs), DirectAddr(f0), DirectAddr(f1)),
    usage := (t.usage + 4 * PAGE + |AllPages(gs)| * PAGE) % WORD32)
  }

  ghost function ExecStep(k: Kernel, i: nat, gs: seq<Segment>, disk: seq<Byte>): Option<Kernel>
    requires i < |k.tasks| && InFile(gs, disk)
  {
    var t := k.tasks[i];
    if |k.s.free| < 4 || |t.areas| != AREAS then None
    else
      var s1 := Take2(k.s);
      var s' :- LoadAll(Take2(s1), t.root, gs, disk);
      Some(Kernel(s', k.tasks[i := ExecTask(t, gs, Second(k.s.free), Second(s1.free))]))
  }

  /** The slots a child inherits; its heap starts empty. */
  function Inherited(areas: seq<Area>): seq<Area> {
    seq(|areas|, j requires 0 <= j < |areas| => if j < COPIED && areas[j].start != 0 then areas[j] else Area(0, 0))
  }

  /** The parent after fork, charged for what i_virt_alloc took. */
  ghost function ForkParent(s: State, t: Task): Task {
    t.(usage := (t.usage + 2 * PAGE * (Count(s.mem, t.root, 4) + |Recorded(t)|)) % WORD32)
  }

  function ForkChild(t: Task, child: nat): Task {
    Task(child, Inherited(t.areas), |Recorded(t)| * PAGE % WORD32, t.limit, 0, 0)
  }

  /** None also when the loop over some area never ends. */
  ghost function ForkStep(k: Kernel, i: nat): Option<Kernel>
    requires i < |k.tasks|
  {
    var t := k.tasks[i];
    if !AllPassable(t.areas) then None
    else
      var (s', child) :- ForkCopy.Fork(k.s, t.root, Recorded(t));
      Some(Kernel(s', k.tasks[i := ForkParent(k.s, t)] + [ForkChild(t, child)]))
  }

  /** A store through a page table, as the hardware does it. */
  ghost function StoreStep(k: Kernel, i: nat, v: Vpn, at: Ix, w: Word): Option<Kernel>
    requires i < |k.tasks|
  {
    var e :- Walk(k.s.mem, k.tasks[i].root, 4, v);
    Some(k.(s := k.s.(mem := Put(k.s.mem, e.frame, at, w))))
  }

  /** One step; none when memory runs out, when fork never ends, or when a task strays from what it has recorded. */
  ghost function Step(k: Kernel, op: Op): Option<Kernel> {
    if op.i >= |k.tasks| then None
    else match op
      case Brk(i) => BrkStep(k, i)
      case Kmalloc(i, size) => KmallocStep(k, i, size)
      case Exec(i, gs, disk) => if SegmentsOk(gs, disk) then ExecStep(k, i, gs, disk) else None
      case Fork(i) => ForkStep(k, i)
      case Store(i, v, at, w) => if v in Recorded(k.tasks[i]) then StoreStep(k, i, v, at, w) else None
  }

  ghost function Run(k: Kernel, ops: seq<Op>): Option<Kernel> {
    if ops == [] then Some(k)
    else
      var k1 :- Run(k, ops[..|ops| - 1]);
      Step(k1, ops[|ops| - 1])
  }
}
