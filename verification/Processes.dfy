/**
 The process table and the scheduler (sys/task.c, sys/scheduler.c, sys/kfork.c, sys/kexit.c,
 sys/ksleep.c, sys/kwaitpid.c, sys/timer.c) as a step machine.  Each system call and each
 timer tick is one step, since both run with interrupts off.
 */
module Processes {
  import opened Options

  const SLOTS: nat := 100                   // MAX_TASKS
  const ANY: nat := 0xFFFF_FFFF             // (uint32_t)-1
  const WORD32: nat := 0x1_0000_0000

  datatype Status = Free | Ready | Waiting | Sleeping | Zombie

  /** The scheduling part of task_t; `idle` stands for a program name equal to "bin/idle". */
  datatype Slot = Slot(
    pid: nat, status: Status, parent: Option<nat>, exitStatus: nat,
    waitPid: nat, waitStatus: nat, timeAtWait: nat, endTime: nat, sleep: int, idle: bool)

  datatype Table = Table(slots: seq<Slot>, nextPid: nat, current: nat, tick: nat)

  // ---- Searches ----

  /** The k-th slot after `start`, cyclically. */
  function Pos(start: nat, k: int): nat {
    (start + k) % SLOTS
  }

  /** get_next_ready_task from the i-th slot after `start` on: an unflagged ready slot, or the flagged
      slot met last. */
  function Scan(ss: seq<Slot>, start: nat, i: nat, idle: Option<nat>): (r: Option<nat>)
    requires |ss| == SLOTS && (idle.Some? ==> idle.value < SLOTS)
    ensures r.Some? ==> r.value < SLOTS
    decreases SLOTS - i
  {
    if i >= SLOTS then idle
    else
      var j := Pos(start, i);
      if ss[j].idle then Scan(ss, start, i + 1, Some(j))
      else if ss[j].status == Ready then Some(j)
      else Scan(ss, start, i + 1, idle)
  }

  /** get_next_free_task: the first free slot from i on. */
  function FirstFree(ss: seq<Slot>, i: nat): (r: Option<nat>)
    ensures r.Some? ==> i <= r.value < |ss| && ss[r.value].status == Free && forall j :: i <= j < r.value ==> ss[j].status != Free
    ensures r.None? ==> forall j :: i <= j < |ss| ==> ss[j].status != Free
    decreases |ss| - i
  {
    if i >= |ss| then None else if ss[i].status == Free then Some(i) else FirstFree(ss, i + 1)
  }

  /** get_task: the first slot from i on with the pid. */
  function FindPid(ss: seq<Slot>, pid: nat, i: nat): (r: Option<nat>)
    ensures r.Some? ==> i <= r.value < |ss| && ss[r.value].pid == pid && forall j :: i <= j < r.value ==> ss[j].pid != pid
    ensures r.None? ==> forall j :: i <= j < |ss| ==> ss[j].pid != pid
    decreases |ss| - i
  {
    if i >= |ss| then None else if ss[i].pid == pid then Some(i) else FindPid(ss, pid, i + 1)
  }

  predicate IsChild(ss: seq<Slot>, i: nat, pid: nat) {
    i < |ss| && ss[i].parent.Some? && ss[i].parent.value < |ss| && ss[ss[i].parent.value].pid == pid
  }

  /** get_children: the slots below n whose parent has the pid, highest first. */
  function Children(ss: seq<Slot>, pid: nat, n: nat): seq<nat> {
    if n == 0 then []
    else if IsChild(ss, n - 1, pid) then [n - 1] + Children(ss, pid, n - 1)
    else Children(ss, pid, n - 1)
  }

  /** The search over the children: past those that are alive and ended after the wait began. */
  function Search(ss: seq<Slot>, list: seq<nat>, timeAtWait: nat): Option<nat> {
    if list == [] || list[0] >= |ss| then None
    else if ss[list[0]].status != Zombie && ss[list[0]].endTime > timeAtWait then Search(ss, list[1..], timeAtWait)
    else Some(list[0])
  }

  // ---- The tick ----

  function Slept(t: Slot): Slot {
    if t.status != Sleeping then t
    else if t.sleep - 1 <= 0 then t.(sleep := 0, status := Ready)
    else t.(sleep := t.sleep - 1)
  }

  /** The slot that the waiting slot i looks at. */
  function WaitedFor(ss: seq<Slot>, i: nat): Option<nat>
    requires i < |ss|
  {
    if ss[i].waitPid == ANY then Search(ss, Children(ss, ss[i].pid, |ss|), ss[i].timeAtWait)
    else FindPid(ss, ss[i].waitPid, 0)
  }

  /** Deliver zombie z to the waiting slot i; the zombie is disowned. */
  function Deliver(ss: seq<Slot>, i: nat, z: nat): seq<Slot>
    requires i < |ss| && z < |ss|
  {
    var ss1 := ss[i := ss[i].(waitPid := ss[z].pid, status := Ready, waitStatus := ss[z].exitStatus)];
    ss1[z := ss1[z].(parent := None)]
  }

  /** One pass of the loop of update_waiting_and_sleeping_tasks. */
  function UpdateAt(ss: seq<Slot>, i: nat): (ss': seq<Slot>)
    requires i < |ss|
    ensures |ss'| == |ss|
  {
    var ss1 := ss[i := Slept(ss[i])];
    if ss1[i].status != Waiting then ss1
    else match WaitedFor(ss1, i)
      case Some(z) => if z < |ss| && ss1[z].status == Zombie then Deliver(ss1, i, z) else ss1
      case None => ss1
  }

  /** The first n passes. */
  function Updated(ss: seq<Slot>, n: nat): (ss': seq<Slot>)
    requires n <= |ss|
    ensures |ss'| == |ss|
  {
    if n == 0 then ss else UpdateAt(Updated(ss, n - 1), n - 1)
  }

  // ---- Steps ----

  datatype Op = Fork | Exec(idle: bool) | Exit(status: nat) | Sleep(time: nat) | Wait(pid: nat) | Tick

  /** switch_task: who runs next; none when no slot can, and the kernel spins for ever. */
  function Switch(tb: Table): Option<Table>
    requires |tb.slots| == SLOTS
  {
    var j :- Scan(tb.slots, tb.current + 1, 0, None);
    Some(tb.(current := j))
  }

  function SetCurrent(tb: Table, t: Slot): Table
    requires tb.current < |tb.slots|
  {
    tb.(slots := tb.slots[tb.current := t])
  }

  function ForkStep(tb: Table): Option<Table>
    requires |tb.slots| == SLOTS && tb.current < SLOTS
  {
    var f :- FirstFree(tb.slots, 0);
    var c := tb.slots[f].(pid := tb.nextPid, status := Ready, parent := Some(tb.current), idle := tb.slots[tb.current].idle);
    Some(tb.(slots := tb.slots[f := c], nextPid := tb.nextPid + 1))
  }

  function Step(tb: Table, op: Op): Option<Table>
    requires |tb.slots| == SLOTS && tb.current < SLOTS
  {
    var me := tb.slots[tb.current];
    match op
    case Fork => ForkStep(tb)
    case Exec(idle) => Some(SetCurrent(tb, me.(idle := idle)))
    case Exit(status) => Switch(SetCurrent(tb, me.(exitStatus := status, status := Zombie, endTime := tb.tick)))
    case Sleep(time) => Switch(SetCurrent(tb, me.(sleep := time * 18 % WORD32, status := Sleeping)))
    case Wait(pid) => Switch(SetCurrent(tb, me.(status := Waiting, waitPid := pid, timeAtWait := tb.tick)))
    case Tick => Switch(tb.(tick := tb.tick + 1, slots := Updated(tb.slots, SLOTS)))
  }

  /** A program named bin/idle loops for ever: it neither exits nor blocks. */
  predicate Allowed(tb: Table, op: Op) {
    tb.current < |tb.slots| && tb.slots[tb.current].idle ==> !(op.Exit? || op.Sleep? || op.Wait?)
  }
}
