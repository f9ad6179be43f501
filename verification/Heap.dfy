/**
 The blocks that kmalloc and brk hand out (sys/virt_mem.c), over every interleaving of the
 tasks: a history of the blocks beside the run.
 */
module Heap {
  import opened Options
  import opened FrameSet
  import opened PageTables
  import opened TableClone
  import opened ForkCopy
  import opened Addresses
  import opened AddressSpaces
  import opened Areas
  import opened Bytes
  import opened ElfLoad
  import opened Tasks
  import opened TaskRuns

  /** A block given to a task, and the frame of the page it came from. */
  datatype Block = Block(task: nat, frame: nat, start: nat, size: nat)

  /** owner: for each frame that brk obtained, the task it was for. */
  datatype History = History(k: Kernel, blocks: seq<Block>, owner: map<nat, nat>)

  /** The frame a step takes for its task's heap, if it takes one. */
  ghost function TakenBy(k: Kernel, op: Op): Option<nat>
    requires op.i < |k.tasks|
  {
    var t := k.tasks[op.i];
    if |k.s.free| < 2 || OverLimit(t) then None
    else match op
      case Brk(_) => Some(Second(k.s.free))
      case Kmalloc(_, size) => if NeedsPage(t, size) then Some(Second(k.s.free)) else None
      case _ => None
  }

  /** The block a step returns, if it returns one. */
  ghost function GivenBy(k: Kernel, op: Op): Option<Block>
    requires op.i < |k.tasks|
  {
    var t := k.tasks[op.i];
    match op
    case Brk(i) =>
      (match TakenBy(k, op)
       case None => None
       case Some(p) => Some(Block(i, p, DirectAddr(p), PAGE)))
    case Kmalloc(i, size) =>
      if !NeedsPage(t, size) then Some(Block(i, FrameOfAddr(t.heapEnd), t.cur, size))
      else (match TakenBy(k, op)
            case None => None
            case Some(p) => Some(Block(i, p, DirectAddr(p), size)))
    case _ => None
  }

  ghost function HStep(h: History, op: Op): Option<History> {
    var k' :- Step(h.k, op);
    if op.i >= |h.k.tasks| then None
    else
      var given, taken := GivenBy(h.k, op), TakenBy(h.k, op);
      Some(History(k',
        if given.Some? then h.blocks + [given.value] else h.blocks,
        if taken.Some? then h.owner[taken.value := op.i] else h.owner))
  }

  ghost function HRun(h: History, ops: seq<Op>): Option<History> {
    if ops == [] then Some(h)
    else
      var h1 :- HRun(h, ops[..|ops| - 1]);
      HStep(h1, ops[|ops| - 1])
  }

  /** Blocks are smaller than a page. */
  predicate SmallOp(op: Op) {
    op.Kmalloc? ==> op.size < PAGE
  }

  // ---- What is kept ----

  /** The heap page of task i is its own, and `cur` is inside it. */
  ghost predicate HeapOk(owner: map<nat, nat>, t: Task, i: int) {
    t.cur != 0 ==>
      var f := FrameOfAddr(t.heapEnd);
      f in owner && owner[f] == i && t.heapEnd == DirectAddr(f) + PAGE - 1 && DirectAddr(f) <= t.cur <= t.heapEnd
  }

  /** The block lies in a page that its own task obtained. */
  ghost predicate BlockOk(owner: map<nat, nat>, b: Block) {
    && b.frame in owner && owner[b.frame] == b.task
    && DirectAddr(b.frame) <= b.start && b.start + b.size <= DirectAddr(b.frame) + PAGE
  }

  /** The block ends before what its task will hand out next. */
  ghost predicate BehindCur(ts: seq<Task>, b: Block) {
    b.task < |ts| &&
    (ts[b.task].cur != 0 && FrameOfAddr(ts[b.task].heapEnd) == b.frame ==> b.start + b.size <= ts[b.task].cur)
  }

  predicate Disjoint(b: Block, c: Block) {
    b.size > 0 && c.size > 0 ==> b.start + b.size <= c.start || c.start + c.size <= b.start
  }

  /** The last frame is never the page of a heap: it is neither owned nor free. */
  ghost predicate OwnerOk(s: State, owner: map<nat, nat>) {
    (forall f :: f in owner ==> 0 < f < LAST && f !in s.free) && forall f :: f in s.free ==> f < LAST
  }

  ghost predicate TasksOk(owner: map<nat, nat>, ts: seq<Task>) {
    forall i :: 0 <= i < |ts| ==> HeapOk(owner, ts[i], i)
  }

  ghost predicate BlocksOk(owner: map<nat, nat>, ts: seq<Task>, bs: seq<Block>) {
    forall x :: 0 <= x < |bs| ==> BlockOk(owner, bs[x]) && BehindCur(ts, bs[x])
  }

  ghost predicate AllDisjoint(bs: seq<Block>) {
    forall x, y :: 0 <= x < y < |bs| ==> Disjoint(bs[x], bs[y])
  }

  ghost predicate HeapInv(h: History) {
    && KernelInv(h.k) && OwnerOk(h.k.s, h.owner) && TasksOk(h.owner, h.k.tasks)
    && BlocksOk(h.owner, h.k.tasks, h.blocks) && AllDisjoint(h.blocks)
  }

  /** Pages of different frames do not meet. */
  lemma PagesApart(f: nat, g: nat)
    requires f < FRAMES && g < FRAMES && f != g
    ensures DirectAddr(f) + PAGE <= DirectAddr(g) || DirectAddr(g) + PAGE <= DirectAddr(f)
  {
    DirectAddrPage(f);
    DirectAddrPage(g);
  }

  lemma DisjointPages(owner: map<nat, nat>, b: Block, c: Block)
    requires BlockOk(owner, b) && BlockOk(owner, c) && b.frame != c.frame && b.frame < FRAMES && c.frame < FRAMES
    ensures Disjoint(b, c)
  {
    hide DirectAddr;
    PagesApart(b.frame, c.frame);
  }

  // ---- A step that gives a block from the current page ----

  lemma FitsBlock(owner: map<nat, nat>, t: Task, i: nat, size: nat)
    requires HeapOk(owner, t, i) && size < PAGE && !NeedsPage(t, size)
    requires forall f :: f in owner ==> 0 < f < LAST
    ensures BlockOk(owner, Block(i, FrameOfAddr(t.heapEnd), t.cur, size))
    ensures (t.cur + size) % TOP == t.cur + size <= t.heapEnd
    ensures HeapOk(owner, t.(cur := (t.cur + size) % TOP), i)
  {
    DirectAddrPage(FrameOfAddr(t.heapEnd));
  }

  lemma FitsKeepsHeap(h: History, i: nat, size: nat)
    requires HeapInv(h) && i < |h.k.tasks| && size < PAGE && !NeedsPage(h.k.tasks[i], size)
    ensures var o := HStep(h, Op.Kmalloc(i, size)); o.Some? ==> HeapInv(o.value)
  {
    hide KernelInv, DirectAddr, FrameOfAddr, NeedsPage, OverLimit, BlockOk, HeapOk;
    var t := h.k.tasks[i];
    var t' := t.(cur := (t.cur + size) % TOP);
    var b := Block(i, FrameOfAddr(t.heapEnd), t.cur, size);
    KmallocKeeps(h.k, i, size);
    CurNonzero(t, size);
    FitsBlock(h.owner, t, i, size);
    var ts' := h.k.tasks[i := t'];
    assert HStep(h, Op.Kmalloc(i, size)) == Some(History(h.k.(tasks := ts'), h.blocks + [b], h.owner));
    forall x | 0 <= x < |h.blocks| ensures BehindCur(ts', h.blocks[x]) && Disjoint(h.blocks[x], b) {
      BehindMoved(h.owner, h.k.tasks, i, size, h.blocks[x]);
      BehindDisjoint(h.owner, h.k.s, h.k.tasks, i, size, h.blocks[x]);
    }
    assert BehindCur(ts', b);
  }

  lemma CurNonzero(t: Task, size: nat)
    requires !NeedsPage(t, size)
    ensures t.cur != 0
  {
  }

  lemma BehindMoved(owner: map<nat, nat>, ts: seq<Task>, i: nat, size: nat, b: Block)
    requires i < |ts| && BehindCur(ts, b) && (ts[i].cur + size) % TOP == ts[i].cur + size && ts[i].cur != 0
    ensures BehindCur(ts[i := ts[i].(cur := (ts[i].cur + size) % TOP)], b)
  {
  }

  /** Earlier blocks are before `cur`, or in other pages. */
  lemma BehindDisjoint(owner: map<nat, nat>, s: State, ts: seq<Task>, i: nat, size: nat, b: Block)
    requires i < |ts| && BehindCur(ts, b) && BlockOk(owner, b) && OwnerOk(s, owner) && ts[i].cur != 0
    requires BlockOk(owner, Block(i, FrameOfAddr(ts[i].heapEnd), ts[i].cur, size))
    ensures Disjoint(b, Block(i, FrameOfAddr(ts[i].heapEnd), ts[i].cur, size))
  {
    hide DirectAddr, FrameOfAddr;
    var c := Block(i, FrameOfAddr(ts[i].heapEnd), ts[i].cur, size);
    if b.frame != c.frame {
      DisjointPages(owner, b, c);
    }
  }

  // ---- A step that takes a page ----

  /** Frame p joins the owned ones: what was owned stays owned, by the same task. */
  lemma OwnerGrows(s: State, owner: map<nat, nat>, p: nat, i: nat)
    requires Inv(s) && OwnerOk(s, owner) && p in s.free
    ensures OwnerOk(s.(free := s.free - {p}), owner[p := i])
    ensures p !in owner && 0 < p < LAST
  {
  }

  lemma KeptByOwner(owner: map<nat, nat>, p: nat, i: nat, t: Task, j: int, b: Block)
    requires p !in owner
    ensures HeapOk(owner, t, j) ==> HeapOk(owner[p := i], t, j)
    ensures BlockOk(owner, b) ==> BlockOk(owner[p := i], b) && b.frame != p
  {
    hide DirectAddr, FrameOfAddr;
  }

  /** The heap of a task that starts on frame p. */
  lemma FreshHeap(owner: map<nat, nat>, p: nat, i: nat, t: Task, size: nat)
    requires 0 < p < LAST && size < PAGE && t.cur == (DirectAddr(p) + size) % TOP && t.heapEnd == DirectAddr(p) + PAGE - 1
    ensures HeapOk(owner[p := i], t, i) && FrameOfAddr(t.heapEnd) == p && t.cur == DirectAddr(p) + size && t.cur != 0
  {
    DirectAddrPage(p);
  }

  /** A task keeps its heap, or starts on the fresh frame p with a block of `size` bytes. */
  ghost predicate HeapMoves(t: Task, t': Task, p: nat, size: nat) {
    || (t'.cur == t.cur && t'.heapEnd == t.heapEnd)
    || (size < PAGE && t'.cur == (DirectAddr(p) + size) % TOP && t'.heapEnd == DirectAddr(p) + PAGE - 1)
  }

  lemma FreshTaskOk(owner: map<nat, nat>, p: nat, i: nat, t: Task, t': Task, size: nat)
    requires p !in owner && 0 < p < LAST && HeapOk(owner, t, i) && HeapMoves(t, t', p, size)
    ensures HeapOk(owner[p := i], t', i)
    ensures t'.cur != 0 && FrameOfAddr(t'.heapEnd) == p ==> t'.cur == DirectAddr(p) + size
    ensures t'.cur != 0 && FrameOfAddr(t'.heapEnd) != p ==> t'.cur == t.cur && t'.heapEnd == t.heapEnd
  {
    if t'.cur == t.cur && t'.heapEnd == t.heapEnd {
      KeptByOwner(owner, p, i, t, i, Block(0, 0, 0, 0));
    } else {
      FreshHeap(owner, p, i, t', size);
    }
  }

  lemma FreshBehind(owner: map<nat, nat>, p: nat, ts: seq<Task>, i: nat, t': Task, size: nat, b: Block)
    requires p !in owner && 0 < p < LAST && i < |ts| && HeapOk(owner, ts[i], i) && HeapMoves(ts[i], t', p, size)
    requires BlockOk(owner, b) && BehindCur(ts, b)
    ensures BehindCur(ts[i := t'], b)
  {
    hide DirectAddr, FrameOfAddr, HeapMoves;
    FreshTaskOk(owner, p, i, ts[i], t', size);
    KeptByOwner(owner, p, i, ts[i], i, b);
  }

  /** Task i takes frame p and is given the first n bytes of its page. */
  lemma FreshKeepsHeap(h: History, i: nat, t': Task, p: nat, n: nat)
    requires HeapInv(h) && i < |h.k.tasks| && |h.k.s.free| >= 2 && p == Second(h.k.s.free) && n <= PAGE
    requires HeapOk(h.owner, h.k.tasks[i], i)
    requires HeapMoves(h.k.tasks[i], t', p, n)
    requires KernelInv(Kernel(Take2(h.k.s), h.k.tasks[i := t']))
    ensures HeapInv(History(Kernel(Take2(h.k.s), h.k.tasks[i := t']), h.blocks + [Block(i, p, DirectAddr(p), n)], h.owner[p := i]))
  {
    hide KernelInv, DirectAddr, HeapMoves, OwnerOk, TasksOk, BlocksOk, AllDisjoint, Rest;
    InOrderInv(h.k);
    OwnerGrows(h.k.s, h.owner, p, i);
    OwnerTake2(h.k.s, h.owner[p := i], p);
    FreshTasks(h.owner, h.k.tasks, i, t', p, n);
    FreshBlocks(h.k.s, h.owner, h.k.tasks, h.blocks, i, t', p, n);
  }

  lemma FreshTasks(owner: map<nat, nat>, ts: seq<Task>, i: nat, t': Task, p: nat, n: nat)
    requires p !in owner && 0 < p < LAST && i < |ts| && TasksOk(owner, ts) && HeapMoves(ts[i], t', p, n)
    ensures TasksOk(owner[p := i], ts[i := t'])
  {
    hide HeapOk, HeapMoves, DirectAddr, FrameOfAddr;
    var ts' := ts[i := t'];
    FreshTaskOk(owner, p, i, ts[i], t', n);
    forall j | 0 <= j < |ts'| ensures HeapOk(owner[p := i], ts'[j], j) {
      KeptByOwner(owner, p, i, ts[j], j, Block(0, 0, 0, 0));
    }
  }

  lemma FreshBlocks(s: State, owner: map<nat, nat>, ts: seq<Task>, bs: seq<Block>, i: nat, t': Task, p: nat, n: nat)
    requires p !in owner && 0 < p < LAST && i < |ts| && HeapOk(owner, ts[i], i) && HeapMoves(ts[i], t', p, n) && n <= PAGE
    requires OwnerOk(s, owner) && BlocksOk(owner, ts, bs) && AllDisjoint(bs)
    ensures BlocksOk(owner[p := i], ts[i := t'], bs + [Block(i, p, DirectAddr(p), n)])
    ensures AllDisjoint(bs + [Block(i, p, DirectAddr(p), n)])
  {
    hide HeapOk, HeapMoves, DirectAddr, FrameOfAddr, BlockOk, BehindCur, Disjoint, OwnerOk;
    var b := Block(i, p, DirectAddr(p), n);
    FreshTaskOk(owner, p, i, ts[i], t', n);
    FreshBlockOk(owner[p := i], ts[i := t'], i, p, n);
    forall x | 0 <= x < |bs|
      ensures BlockOk(owner[p := i], bs[x]) && BehindCur(ts[i := t'], bs[x]) && Disjoint(bs[x], b)
    {
      KeptByOwner(owner, p, i, ts[i], i, bs[x]);
      FreshBehind(owner, p, ts, i, t', n, bs[x]);
      OwnerFrames(s, owner, bs[x]);
      DisjointPages(owner[p := i], bs[x], b);
    }
  }

  lemma OwnerFrames(s: State, owner: map<nat, nat>, b: Block)
    requires OwnerOk(s, owner) && BlockOk(owner, b)
    ensures b.frame < FRAMES
  {
  }

  lemma OwnerTake2(s: State, owner: map<nat, nat>, p: nat)
    requires |s.free| >= 2 && p == Second(s.free) && OwnerOk(s.(free := s.free - {p}), owner)
    ensures OwnerOk(Take2(s), owner)
  {
    assert forall f :: f in Take2(s).free ==> f in s.free - {p};
  }

  lemma FreshBlockOk(owner: map<nat, nat>, ts: seq<Task>, i: nat, p: nat, n: nat)
    requires i < |ts| && p in owner && owner[p] == i && n <= PAGE
    requires ts[i].cur != 0 && FrameOfAddr(ts[i].heapEnd) == p ==> ts[i].cur == DirectAddr(p) + n
    ensures BlockOk(owner, Block(i, p, DirectAddr(p), n)) && BehindCur(ts, Block(i, p, DirectAddr(p), n))
  {
    hide DirectAddr, FrameOfAddr;
  }

  lemma BrkKeepsHeap(h: History, i: nat)
    requires HeapInv(h) && i < |h.k.tasks|
    ensures var o := HStep(h, Op.Brk(i)); o.Some? ==> HeapInv(o.value)
  {
    hide KernelInv, DirectAddr, HeapOk, OwnerOk, BlocksOk, AllDisjoint, AddArea, OverLimit;
    var t := h.k.tasks[i];
    if BrkStep(h.k, i).Some? && !OverLimit(t) {
      var p := Second(h.k.s.free);
      BrkKeeps(h.k, i);
      FreshKeepsHeap(h, i, Grown(t, p), p, PAGE);
    }
  }

  lemma KmallocKeepsHeap(h: History, i: nat, size: nat)
    requires HeapInv(h) && i < |h.k.tasks| && size < PAGE && NeedsPage(h.k.tasks[i], size)
    ensures var o := HStep(h, Op.Kmalloc(i, size)); o.Some? ==> HeapInv(o.value)
  {
    hide KernelInv, DirectAddr, HeapOk, OwnerOk, BlocksOk, AllDisjoint, AddArea, OverLimit, NeedsPage;
    var t := h.k.tasks[i];
    if KmallocStep(h.k, i, size).Some? {
      KmallocKeeps(h.k, i, size);
      if OverLimit(t) {
        SameHeapKeeps(h, KmallocStep(h.k, i, size).value);
      } else {
        var p := Second(h.k.s.free);
        FreshKeepsHeap(h, i, HeapTask(t, p, size), p, size);
      }
    }
  }

  // ---- Steps that touch no heap ----

  /** Every task has the heap it had, a new one has none, and no frame became free. */
  ghost predicate SameHeaps(k: Kernel, k': Kernel) {
    && |k.tasks| <= |k'.tasks| && k'.s.free <= k.s.free
    && (forall j :: 0 <= j < |k.tasks| ==> k'.tasks[j].cur == k.tasks[j].cur && k'.tasks[j].heapEnd == k.tasks[j].heapEnd)
    && (forall j :: |k.tasks| <= j < |k'.tasks| ==> k'.tasks[j].cur == 0)
  }

  lemma SameHeapKeeps(h: History, k': Kernel)
    requires HeapInv(h) && KernelInv(k') && SameHeaps(h.k, k')
    ensures HeapInv(h.(k := k'))
  {
    hide KernelInv, DirectAddr, FrameOfAddr, BlockOk;
  }

  lemma ForkSameHeaps(k: Kernel, i: nat)
    requires KernelInv(k) && i < |k.tasks| && ForkStep(k, i).Some?
    ensures SameHeaps(k, ForkStep(k, i).value)
  {
    hide KernelInv, ForkCopy.Fork, RecordedFrom, Inherited;
    ForkShrinks(k, i);
  }

  lemma ForkShrinks(k: Kernel, i: nat)
    requires KernelInv(k) && i < |k.tasks| && ForkCopy.Fork(k.s, k.tasks[i].root, Recorded(k.tasks[i])).Some?
    ensures ForkCopy.Fork(k.s, k.tasks[i].root, Recorded(k.tasks[i])).value.0.free <= k.s.free
  {
    hide KernelInv, Inv, Direct, ForkCopy.Fork, Forked, RecordedFrom, AllData, AvoidsDirect, Walk;
    TaskOk(k, i);
    InOrderInv(k);
    ForkSpec(k.s, k.tasks[i].root, Recorded(k.tasks[i]));
  }

  lemma ExecSameHeaps(k: Kernel, i: nat, gs: seq<Segment>, disk: seq<Byte>)
    requires KernelInv(k) && i < |k.tasks| && SegmentsOk(gs, disk) && ExecStep(k, i, gs, disk).Some?
    ensures SameHeaps(k, ExecStep(k, i, gs, disk).value)
  {
    hide KernelInv, LoadAll, SegmentsOk, AllPages, ExecAreas, SegAreas, Take2;
    ExecShrinks(k, i, gs, disk);
  }

  lemma ExecShrinks(k: Kernel, i: nat, gs: seq<Segment>, disk: seq<Byte>)
    requires KernelInv(k) && i < |k.tasks| && SegmentsOk(gs, disk) && |k.s.free| >= 4
    requires LoadAll(Take2(Take2(k.s)), k.tasks[i].root, gs, disk).Some?
    ensures LoadAll(Take2(Take2(k.s)), k.tasks[i].root, gs, disk).value.free <= k.s.free
  {
    hide KernelInv, Inv, Direct, LoadAll, FreshPages, AvoidsDirect, SegmentsOk, AllPages, Walk, AllData, RecordedFrom;
    TaskOk(k, i);
    InOrderInv(k);
    ExecFresh(k.s, k.tasks[i].root, gs, disk);
  }

  lemma HStepKeeps(h: History, op: Op)
    requires HeapInv(h) && SmallOp(op) && HStep(h, op).Some?
    ensures HeapInv(HStep(h, op).value)
  {
    hide HeapInv, KernelInv, BrkStep, KmallocStep, ExecStep, ForkStep, StoreStep, Recorded, SegmentsOk, NeedsPage, OverLimit;
    HasKernelInv(h);
    StepKeeps(h.k, op);
    OpInFile(h.k, op);
    match op
    case Brk(i) => BrkKeepsHeap(h, i);
    case Kmalloc(i, size) =>
      if NeedsPage(h.k.tasks[i], size) {
        KmallocKeepsHeap(h, i, size);
      } else {
        FitsKeepsHeap(h, i, size);
      }
    case Exec(i, gs, disk) => ExecSameHeaps(h.k, i, gs, disk); SameHeapKeeps(h, ExecStep(h.k, i, gs, disk).value);
    case Fork(i) => ForkSameHeaps(h.k, i); SameHeapKeeps(h, ForkStep(h.k, i).value);
    case Store(i, v, at, w) => StoreSameHeaps(h.k, i, v, at, w); SameHeapKeeps(h, StoreStep(h.k, i, v, at, w).value);
  }

  lemma StoreSameHeaps(k: Kernel, i: nat, v: Vpn, at: Ix, w: Word)
    requires i < |k.tasks| && StoreStep(k, i, v, at, w).Some?
    ensures SameHeaps(k, StoreStep(k, i, v, at, w).value)
  {
  }

  lemma OpInFile(k: Kernel, op: Op)
    requires Step(k, op).Some?
    ensures op.Exec? ==> SegmentsOk(op.gs, op.disk) && InFile(op.gs, op.disk)
  {
    hide ExecStep;
  }

  lemma HasKernelInv(h: History)
    requires HeapInv(h)
    ensures KernelInv(h.k)
  {
  }

  /** Over every interleaving with blocks below a page: non-empty blocks are pairwise disjoint, and each
      lies in one page obtained by its own task. */
  lemma {:induction false} HRunKeeps(h: History, ops: seq<Op>)
    requires HeapInv(h) && (forall x :: 0 <= x < |ops| ==> SmallOp(ops[x])) && HRun(h, ops).Some?
    ensures HeapInv(HRun(h, ops).value)
    decreases |ops|
  {
    hide HeapInv, HStep, SmallOp;
    if ops != [] {
      HRunKeeps(h, ops[..|ops| - 1]);
      HStepKeeps(HRun(h, ops[..|ops| - 1]).value, ops[|ops| - 1]);
    }
  }

  /** Nothing handed out yet. */
  lemma HeapStart(k: Kernel)
    requires KernelInv(k) && (forall i :: 0 <= i < |k.tasks| ==> k.tasks[i].cur == 0) && forall f :: f in k.s.free ==> f < LAST
    ensures HeapInv(History(k, [], map[]))
  {
    hide KernelInv;
  }

  // ---- What kmalloc returns ----

  /** A block that fits is given from the current page: the block starts where the last one ended, and nothing else
      changes, neither memory nor areas nor usage. */
  lemma KmallocFits(k: Kernel, i: nat, size: nat)
    requires i < |k.tasks| && k.tasks[i].cur != 0 && k.tasks[i].cur + size <= k.tasks[i].heapEnd < 0x1_0000_0000_0000_0000
    ensures var t := k.tasks[i];
            && Step(k, Op.Kmalloc(i, size)) == Some(k.(tasks := k.tasks[i := t.(cur := t.cur + size)]))
            && TakenBy(k, Op.Kmalloc(i, size)) == None
            && GivenBy(k, Op.Kmalloc(i, size)) == Some(Block(i, FrameOfAddr(t.heapEnd), t.cur, size))
  {
    hide FrameOfAddr;
  }

  /** Otherwise it takes a page as brk does, and the block starts at its beginning: two frames go, the usage grows by
      12288, the page is noted as the current one, and it is recorded twice while slots are empty. */
  lemma KmallocTakes(k: Kernel, i: nat, size: nat)
    requires i < |k.tasks| && (k.tasks[i].cur == 0 || k.tasks[i].heapEnd < k.tasks[i].cur + size < 0x1_0000_0000_0000_0000)
    requires (k.tasks[i].usage + 4096) % 0x1_0000_0000 <= k.tasks[i].limit && |k.s.free| >= 2
    ensures var t, p := k.tasks[i], Second(k.s.free);
            && TakenBy(k, Op.Kmalloc(i, size)) == Some(p)
            && GivenBy(k, Op.Kmalloc(i, size)) == Some(Block(i, p, DirectAddr(p), size))
            && Step(k, Op.Kmalloc(i, size)).Some?
            && var k' := Step(k, Op.Kmalloc(i, size)).value;
            && k'.s == k.s.(free := k'.s.free) && |k'.s.free| == |k.s.free| - 2 && |k'.tasks| == |k.tasks|
            && k'.tasks[i] == t.(areas := AddArea(AddArea(t.areas, Area(DirectAddr(p), DirectAddr(p) + 4095)), Area(DirectAddr(p), DirectAddr(p) + 4095)),
                                 usage := (t.usage + 12288) % 0x1_0000_0000, cur := (DirectAddr(p) + size) % 0x1_0000_0000_0000_0000, heapEnd := DirectAddr(p) + 4095)
  {
    hide DirectAddr, AddArea, Second;
    Take2Counts(k.s);
  }

  /** Over the limit it returns nothing, takes nothing and records no page. */
  lemma KmallocRefused(k: Kernel, i: nat, size: nat)
    requires i < |k.tasks| && (k.tasks[i].cur == 0 || k.tasks[i].heapEnd < k.tasks[i].cur + size < 0x1_0000_0000_0000_0000)
    requires (k.tasks[i].usage + 4096) % 0x1_0000_0000 > k.tasks[i].limit
    ensures GivenBy(k, Op.Kmalloc(i, size)) == None && TakenBy(k, Op.Kmalloc(i, size)) == None
    ensures Step(k, Op.Kmalloc(i, size)).Some? && Step(k, Op.Kmalloc(i, size)).value.s == k.s
    ensures |Step(k, Op.Kmalloc(i, size)).value.tasks| == |k.tasks|
    ensures var t, t' := k.tasks[i], Step(k, Op.Kmalloc(i, size)).value.tasks[i];
            t' == t.(areas := AddArea(t.areas, Area(0, 4095))) && forall v :: v in Recorded(t') <==> v in Recorded(t)
  {
    hide AddArea, RecordedFrom;
    RefusedRecords(k.tasks[i].areas);
  }

  /** brk past the limit does nothing; otherwise it returns the second lowest free frame, taking two, and notes its page
      in the first empty slot, if one of ten is empty. */
  lemma BrkSpec(k: Kernel, i: nat)
    requires i < |k.tasks|
    ensures var t := k.tasks[i];
            if (t.usage + 4096) % 0x1_0000_0000 > t.limit then Step(k, Op.Brk(i)) == Some(k) && GivenBy(k, Op.Brk(i)) == None
            else if |k.s.free| < 2 then Step(k, Op.Brk(i)) == None
            else
              var p := Second(k.s.free);
              && GivenBy(k, Op.Brk(i)) == Some(Block(i, p, DirectAddr(p), 4096))
              && Step(k, Op.Brk(i)) == Some(Kernel(k.s.(free := k.s.free - {Lowest(k.s.free)} - {p}),
                   k.tasks[i := t.(areas := AddArea(t.areas, Area(DirectAddr(p), DirectAddr(p) + 4095)), usage := (t.usage + 12288) % 0x1_0000_0000)]))
  {
    hide DirectAddr, AddArea;
  }

  /** What the run asks of kmalloc for task i. */
  function Asked(ops: seq<Op>, i: nat): nat {
    if ops == [] then 0
    else Asked(ops[..|ops| - 1], i) + if ops[|ops| - 1].Kmalloc? && ops[|ops| - 1].i == i then ops[|ops| - 1].size else 0
  }

  /** Task i does nothing but kmalloc in the run. */
  ghost predicate OnlyKmalloc(ops: seq<Op>, i: nat) {
    forall x :: 0 <= x < |ops| && ops[x].i == i ==> ops[x].Kmalloc?
  }

  /** As long as what a task asks for fits its page, in every interleaving with the steps of other tasks, its blocks
      follow one another and nothing of it changes but the place of the next block. */
  lemma {:induction false} BlocksFollow(k: Kernel, ops: seq<Op>, i: nat)
    requires i < |k.tasks| && k.tasks[i].cur != 0 && k.tasks[i].cur + Asked(ops, i) <= k.tasks[i].heapEnd < 0x1_0000_0000_0000_0000
    requires OnlyKmalloc(ops, i) && Run(k, ops).Some?
    ensures i < |Run(k, ops).value.tasks| && Run(k, ops).value.tasks[i] == k.tasks[i].(cur := k.tasks[i].cur + Asked(ops, i))
    decreases |ops|
  {
    hide Step;
    if ops != [] {
      var n := |ops| - 1;
      BlocksFollow(k, ops[..n], i);
      var k1 := Run(k, ops[..n]).value;
      if ops[n].i == i {
        assert ops[n].Kmalloc?;
        KmallocFits(k1, i, ops[n].size);
      } else {
        OtherTask(k1, ops[n], i);
      }
    }
  }

  /** After a page is taken at address a, the blocks of a task whose sizes sum to at most 4095 are given at a and
      then each right behind the one before, and the task takes no frame for them. */
  lemma PageFills(k: Kernel, i: nat, size: nat, ops: seq<Op>, next: nat)
    requires i < |k.tasks| && (k.tasks[i].cur == 0 || k.tasks[i].heapEnd < k.tasks[i].cur + size < 0x1_0000_0000_0000_0000)
    requires (k.tasks[i].usage + 4096) % 0x1_0000_0000 <= k.tasks[i].limit && |k.s.free| >= 2 && Second(k.s.free) < FRAMES
    requires size + Asked(ops, i) + next <= 4095 && OnlyKmalloc(ops, i)
    requires Step(k, Op.Kmalloc(i, size)).Some? && Run(Step(k, Op.Kmalloc(i, size)).value, ops).Some?
    ensures var a := DirectAddr(Second(k.s.free));
            var k' := Run(Step(k, Op.Kmalloc(i, size)).value, ops).value;
            && i < |k'.tasks| && GivenBy(k, Op.Kmalloc(i, size)).Some? && GivenBy(k, Op.Kmalloc(i, size)).value.start == a
            && TakenBy(k', Op.Kmalloc(i, next)) == None
            && GivenBy(k', Op.Kmalloc(i, next)).Some? && GivenBy(k', Op.Kmalloc(i, next)).value.start == a + size + Asked(ops, i)
  {
    hide Step, DirectAddr, Asked, OnlyKmalloc, Run, Second;
    DirectAddrPage(Second(k.s.free));
    KmallocTakes(k, i, size);
    var k1 := Step(k, Op.Kmalloc(i, size)).value;
    BlocksFollow(k1, ops, i);
    KmallocFits(Run(k1, ops).value, i, next);
  }

  // ---- The last frame ----

  /** The heap of t is at `cur` in the page of frame f. */
  predicate HeapAt(t: Task, f: nat) {
    t.cur != 0 && t.heapEnd == DirectAddr(f) + PAGE - 1 && DirectAddr(f) <= t.cur <= t.heapEnd
  }

  /** kmalloc hands out what is left of the page and no more, for every block below a page. */
  ghost predicate StaysInPage(f: nat) {
    forall t, size :: HeapAt(t, f) && 0 <= size < PAGE && !NeedsPage(t, size) ==> t.cur + size <= DirectAddr(f) + PAGE
  }

  /** That holds for every page but that of the last frame, where the sum wraps and the test passes. */
  lemma OnlyLastOverruns(f: nat)
    requires f < FRAMES
    ensures StaysInPage(f) <==> f < LAST
  {
    hide DirectAddr;
    DirectAddrPage(f);
    if f == LAST {
      var t := Task(0, [], 0, 0, TOP - 1, TOP - 1);
      assert HeapAt(t, f) && !NeedsPage(t, 2);
    } else {
      forall t, size | HeapAt(t, f) && 0 <= size < PAGE && !NeedsPage(t, size) ensures t.cur + size <= DirectAddr(f) + PAGE {
        assert t.cur + size < TOP;
      }
    }
  }

  /** It happens in two steps, when the last frame is the one a task without a heap is given: of the second block
      only the first byte is in the page, which ends at 2^64. */
  lemma LastFrameOverrun(k: Kernel)
    requires |k.tasks| > 0 && k.tasks[0].cur == 0 && !OverLimit(k.tasks[0]) && |k.s.free| >= 2 && Second(k.s.free) == LAST
    ensures var k1 := Step(k, Op.Kmalloc(0, 4095));
            && k1.Some? && |k1.value.tasks| > 0 && Step(k1.value, Op.Kmalloc(0, 2)).Some?
            && GivenBy(k1.value, Op.Kmalloc(0, 2)) == Some(Block(0, LAST, TOP - 1, 2)) && DirectAddr(LAST) + PAGE == TOP
  {
    hide DirectAddr, FrameOfAddr, AddArea, OverLimit;
    DirectAddrPage(LAST);
    LastPageFrame();
    assert (TOP - 1 + 2) % TOP == 1;
  }

  lemma LastPageFrame()
    ensures FrameOfAddr(TOP - 1) == LAST
  {
  }

  // ---- Which heap pages fork copies ----

  /** Task i has recorded page v. */
  predicate RecordedBy(k: Kernel, i: nat, v: Vpn) {
    i < |k.tasks| && v in Recorded(k.tasks[i])
  }

  /** Steps only take frames. */
  lemma StepShrinks(k: Kernel, op: Op)
    requires KernelInv(k) && Step(k, op).Some?
    ensures Step(k, op).value.s.free <= k.s.free && |k.tasks| <= |Step(k, op).value.tasks|
  {
    hide KernelInv, ExecStep, ForkStep, StoreStep, Recorded, SegmentsOk, NeedsPage, OverLimit, AddArea;
    OpInFile(k, op);
    match op
    case Brk(i) =>
    case Kmalloc(i, size) =>
    case Exec(i, gs, disk) => ExecSameHeaps(k, i, gs, disk);
    case Fork(i) => ForkSameHeaps(k, i);
    case Store(i, v, at, w) => StoreSameHeaps(k, i, v, at, w);
  }

  /** The direct page of a frame in use is not recorded by a task after its own exec. */
  lemma ExecForgets(k: Kernel, i: nat, gs: seq<Segment>, disk: seq<Byte>, p: nat)
    requires KernelInv(k) && i < |k.tasks| && SegmentsOk(gs, disk) && ExecStep(k, i, gs, disk).Some?
    requires p < FRAMES && p !in k.s.free
    ensures !RecordedBy(ExecStep(k, i, gs, disk).value, i, DirectPage(p))
  {
    hide KernelInv, LoadAll, ExecAreas, SegAreas, AllPages, RecordedFrom, DirectAddr, DirectPage;
    var f0, f1 := Second(k.s.free), Second(Take2(k.s).free);
    TaskOk(k, i);
    FreeIsFrame(k, f0);
    FreeIsFrame(k, f1);
    DirectPageInjective(p, f0);
    DirectPageInjective(p, f1);
    ExecRecords(k.tasks[i].areas, SegAreas(gs), f0, f1, DirectPage(p));
    if OnSegment(SegAreas(gs), DirectPage(p)) {
      OnSegmentMapped(gs, DirectPage(p));
      DirectInWindow(p);
    }
  }

  lemma OtherTask(k: Kernel, op: Op, i: nat)
    requires Step(k, op).Some? && i < |k.tasks| && i != op.i
    ensures i < |Step(k, op).value.tasks| && Step(k, op).value.tasks[i] == k.tasks[i]
  {
    hide ForkCopy.Fork, LoadAll, SegmentsOk, RecordedFrom, AddArea, Walk, Put, AllPassable;
    hide ExecTask, Grown, HeapTask, ForkParent, ForkChild, NeedsPage, OverLimit, Take2, Second;
  }

  /** A page is recorded by what the task's own brk and kmalloc take; other steps but exec leave its record. */
  lemma OwnStep(k: Kernel, op: Op)
    requires KernelInv(k) && Step(k, op).Some? && !op.Exec?
    requires op.i < |k.tasks|
    ensures forall v :: RecordedBy(Step(k, op).value, op.i, v) <==>
              RecordedBy(k, op.i, v) || (TakenBy(k, op).Some? && HasRoom(k.tasks[op.i].areas) && v == DirectPage(TakenBy(k, op).value))
  {
    hide KernelInv, ForkCopy.Fork, RecordedFrom, AddArea, Walk, DirectAddr, DirectPage, HasRoom, AllPassable, Inherited, Count;
    hide Grown, HeapTask, NeedsPage, OverLimit, Take2, Put, StoreStep, ForkStep;
    if op.Fork? || op.Store? {
      SameAreas(k, op);
    }
    if |k.s.free| >= 2 {
      FreeIsFrame(k, Second(k.s.free));
      GrownRecords(k.tasks[op.i], Second(k.s.free));
      if op.Kmalloc? {
        HeapTaskRecords(k.tasks[op.i], Second(k.s.free), op.size);
      }
    }
    if op.Kmalloc? && OverLimit(k.tasks[op.i]) {
      RefusedRecords(k.tasks[op.i].areas);
    }
  }

  /** fork and stores leave the areas of the task. */
  lemma SameAreas(k: Kernel, op: Op)
    requires Step(k, op).Some? && (op.Fork? || op.Store?)
    ensures op.i < |k.tasks| && op.i < |Step(k, op).value.tasks| && Step(k, op).value.tasks[op.i].areas == k.tasks[op.i].areas
  {
    hide ForkCopy.Fork, RecordedFrom, Walk, Put, AllPassable, Count, Inherited;
  }

  lemma RefusedRecords(areas: seq<Area>)
    ensures forall v :: v in RecordedFrom(AddArea(areas, Area(0, PAGE - 1)), 0) <==> v in RecordedFrom(areas, 0)
  {
    hide RecordedFrom, AddArea, HasRoom;
    forall v ensures v in RecordedFrom(AddArea(areas, Area(0, PAGE - 1)), 0) <==> v in RecordedFrom(areas, 0) {
      AddAreaRecords(areas, Area(0, PAGE - 1), v);
    }
  }

  /** One step: the direct page of a frame in use stays recorded, or unrecorded, unless the task itself execs. */
  lemma RecordStep(k: Kernel, op: Op, i: nat, p: nat)
    requires KernelInv(k) && Step(k, op).Some? && i < |k.tasks| && p < FRAMES && p !in k.s.free
    ensures var k' := Step(k, op).value;
            RecordedBy(k', i, DirectPage(p)) <==> RecordedBy(k, i, DirectPage(p)) && !(op.Exec? && op.i == i)
  {
    hide KernelInv, BrkStep, KmallocStep, ExecStep, ForkStep, StoreStep, RecordedFrom, DirectPage, HasRoom, SegmentsOk;
    StepShrinks(k, op);
    if op.i != i {
      OtherTask(k, op, i);
    } else if op.Exec? {
      OpInFile(k, op);
      ExecForgets(k, i, op.gs, op.disk, p);
    } else {
      OwnStep(k, op);
      if |k.s.free| >= 2 {
        FreeIsFrame(k, Second(k.s.free));
        DirectPageInjective(p, Second(k.s.free));
      }
    }
  }

  /** The task execs nowhere in the run. */
  ghost predicate NoExec(ops: seq<Op>, i: nat) {
    forall x :: 0 <= x < |ops| ==> !(ops[x].Exec? && ops[x].i == i)
  }

  lemma {:induction false} RecordRun(k: Kernel, ops: seq<Op>, i: nat, p: nat)
    requires KernelInv(k) && Run(k, ops).Some? && i < |k.tasks| && p < FRAMES && p !in k.s.free
    ensures var k' := Run(k, ops).value;
            && i < |k'.tasks| && p !in k'.s.free
            && (RecordedBy(k', i, DirectPage(p)) <==> RecordedBy(k, i, DirectPage(p)) && NoExec(ops, i))
    decreases |ops|
  {
    hide KernelInv, Step, RecordedFrom, DirectPage;
    if ops != [] {
      var n := |ops| - 1;
      RecordRun(k, ops[..n], i, p);
      RunKeeps(k, ops[..n]);
      var k1 := Run(k, ops[..n]).value;
      RecordStep(k1, ops[n], i, p);
      StepShrinks(k1, ops[n]);
      assert NoExec(ops, i) <==> NoExec(ops[..n], i) && !(ops[n].Exec? && ops[n].i == i);
    }
  }

  /** The page that brk or kmalloc takes is copied by a later fork exactly when a slot was empty as it was taken
      and the task has not called exec since; otherwise parent and child share it. */
  lemma HeapPageRecorded(k: Kernel, op: Op, ops: seq<Op>)
    requires KernelInv(k) && op.i < |k.tasks| && TakenBy(k, op).Some?
    requires Step(k, op).Some? && Run(Step(k, op).value, ops).Some?
    ensures RecordedBy(Run(Step(k, op).value, ops).value, op.i, DirectPage(TakenBy(k, op).value)) <==>
            HasRoom(k.tasks[op.i].areas) && NoExec(ops, op.i)
  {
    hide KernelInv, RecordedFrom, DirectPage, HasRoom, Run, AllData, NoExec, Direct;
    var p := Second(k.s.free);
    var k1 := Step(k, op).value;
    FreeIsFrame(k, p);
    TakenLeaves(k, op);
    OwnStep(k, op);
    StepKeeps(k, op);
    StepShrinks(k, op);
    TaskOk(k, op.i);
    RecordRun(k1, ops, op.i, p);
  }

  lemma TakenLeaves(k: Kernel, op: Op)
    requires op.i < |k.tasks| && Step(k, op).Some? && TakenBy(k, op).Some?
    ensures !op.Exec? && TakenBy(k, op).value == Second(k.s.free) && Second(k.s.free) !in Step(k, op).value.s.free
  {
    hide AddArea, DirectAddr, ForkCopy.Fork, LoadAll, Walk, RecordedFrom;
  }

  /** So a fork after the run makes parent and child share the page exactly when it is not recorded. */
  lemma HeapPageShared(k: Kernel, op: Op, ops: seq<Op>)
    requires KernelInv(k) && op.i < |k.tasks| && TakenBy(k, op).Some?
    requires Step(k, op).Some? && Run(Step(k, op).value, ops).Some? && op.i < |Run(Step(k, op).value, ops).value.tasks|
    requires ForkStep(Run(Step(k, op).value, ops).value, op.i).Some?
    ensures var k1 := Run(Step(k, op).value, ops).value;
            var k2 := ForkStep(k1, op.i).value;
            var v := DirectPage(TakenBy(k, op).value);
            && |k2.tasks| == |k1.tasks| + 1
            && (Walk(k2.s.mem, k2.tasks[|k1.tasks|].root, 4, v) == Walk(k2.s.mem, k1.tasks[op.i].root, 4, v) <==>
                !(HasRoom(k.tasks[op.i].areas) && NoExec(ops, op.i)))
  {
    hide KernelInv, Step, Run, ForkStep, TakenBy, RecordedFrom, DirectPage, HasRoom, NoExec, Walk;
    StepKeeps(k, op);
    RunKeeps(Step(k, op).value, ops);
    HeapPageRecorded(k, op, ops);
    ForkStepSpec(Run(Step(k, op).value, ops).value, op.i, DirectPage(TakenBy(k, op).value));
  }

  /** The first n slots are taken and the others of the ten are empty. */
  ghost predicate SlotsTaken(areas: seq<Area>, n: nat) {
    |areas| == AREAS && n <= COPIED && forall j :: 0 <= j < COPIED ==> (areas[j].start == 0 <==> j >= n)
  }

  lemma {:induction false} EmptySlotIs(areas: seq<Area>, n: nat, i: nat)
    requires SlotsTaken(areas, n) && i <= n
    ensures EmptySlot(areas, i) == n
    decreases n - i
  {
    if i < n {
      EmptySlotIs(areas, n, i + 1);
    }
  }

  function Brks(n: nat): seq<Op> {
    seq(n, _ => Op.Brk(0))
  }

  /** Ten calls of brk fill the slots of a task that has recorded nothing. */
  lemma {:induction false} BrksFill(k: Kernel, n: nat)
    requires KernelInv(k) && |k.tasks| > 0 && SlotsTaken(k.tasks[0].areas, 0) && n <= COPIED && |k.s.free| >= 2 * n
    requires k.tasks[0].usage + 3 * PAGE * n + PAGE <= k.tasks[0].limit < WORD32
    ensures var o := Run(k, Brks(n));
            && o.Some? && |o.value.tasks| == |k.tasks| && SlotsTaken(o.value.tasks[0].areas, n)
            && |o.value.s.free| == |k.s.free| - 2 * n
            && o.value.tasks[0].usage == k.tasks[0].usage + 3 * PAGE * n && o.value.tasks[0].limit == k.tasks[0].limit
    decreases n
  {
    hide KernelInv, Step, SlotsTaken;
    if n > 0 {
      BrksFill(k, n - 1);
      assert Brks(n)[..n - 1] == Brks(n - 1);
      RunKeeps(k, Brks(n - 1));
      BrkFills(Run(k, Brks(n - 1)).value, n - 1);
    }
  }

  lemma BrkFills(k: Kernel, n: nat)
    requires KernelInv(k) && |k.tasks| > 0 && SlotsTaken(k.tasks[0].areas, n) && |k.s.free| >= 2
    requires k.tasks[0].usage + 3 * PAGE <= k.tasks[0].limit + 2 * PAGE && k.tasks[0].usage + 3 * PAGE < WORD32
    ensures var o := Step(k, Op.Brk(0));
            && o.Some? && |o.value.tasks| == |k.tasks| && TakenBy(k, Op.Brk(0)).Some?
            && |o.value.s.free| == |k.s.free| - 2
            && o.value.tasks[0].usage == k.tasks[0].usage + 3 * PAGE && o.value.tasks[0].limit == k.tasks[0].limit
            && (n < COPIED ==> SlotsTaken(o.value.tasks[0].areas, n + 1))
            && HasRoom(k.tasks[0].areas) == (n < COPIED)
  {
    hide KernelInv, DirectAddr, EmptySlot;
    FreeIsFrame(k, Second(k.s.free));
    DirectAddrPage(Second(k.s.free));
    EmptySlotIs(k.tasks[0].areas, n, 0);
  }

  /** An example: the page of the eleventh brk of a task that had recorded nothing is not recorded. */
  lemma EleventhUnrecorded(k: Kernel)
    requires KernelInv(k) && |k.tasks| > 0 && SlotsTaken(k.tasks[0].areas, 0) && |k.s.free| >= 22
    requires k.tasks[0].usage + 31 * PAGE <= k.tasks[0].limit && k.tasks[0].limit + 2 * PAGE < WORD32
    ensures var o := Run(k, Brks(10));
            && o.Some? && |o.value.tasks| > 0 && TakenBy(o.value, Op.Brk(0)).Some? && Step(o.value, Op.Brk(0)).Some?
            && !RecordedBy(Step(o.value, Op.Brk(0)).value, 0, DirectPage(TakenBy(o.value, Op.Brk(0)).value))
  {
    hide KernelInv, Step, Run, SlotsTaken, HasRoom, RecordedBy, DirectPage, TakenBy;
    BrksFill(k, 10);
    RunKeeps(k, Brks(10));
    var k1 := Run(k, Brks(10)).value;
    BrkFills(k1, 10);
    RunNothing(Step(k1, Op.Brk(0)).value);
    HeapPageRecorded(k1, Op.Brk(0), []);
  }

  lemma RunNothing(k: Kernel)
    ensures Run(k, []) == Some(k)
  {
  }

  // ---- Usage ----

  /** A successful brk adds exactly three pages to the usage, and so ends at most two above the limit. */
  lemma BrkUsage(k: Kernel, i: nat)
    requires i < |k.tasks| && BrkStep(k, i).Some? && k.tasks[i].usage + 12288 < 0x1_0000_0000
    ensures var t, t' := k.tasks[i], BrkStep(k, i).value.tasks[i];
            if t.usage + 4096 > t.limit then t' == t else t'.usage == t.usage + 12288 <= t.limit + 8192
  {
    hide AddArea;
  }
}
