/**
 Where the fields of the process table come from, over whole runs from the initial table: who
 forked a slot, who took it away from its parent, when it exited or began to wait, and which
 program it runs.
 */
module Families {
  import opened Options
  import opened Processes
  import opened ProcessRuns
  import opened Waiting

  // ---- Parents ----

  /** Only a tick takes a child away from its parent. */
  lemma ParentKept(tb: Table, op: Op, i: nat)
    requires TableInv(tb) && Allowed(tb, op) && Step(tb, op).Some? && op != Tick && i < Used(tb)
    ensures i < |Step(tb, op).value.slots| && Step(tb, op).value.slots[i].parent == tb.slots[i].parent
  {
    hide Scan;
    if i != tb.current {
      OtherSlots(tb, op, i);
    }
    assert SlotOk(tb.slots, i, Used(tb));
  }

  /** Slot w waited in ss, and in ss' holds the pid and the status of the zombie i. */
  ghost predicate Receives(ss: seq<Slot>, ss': seq<Slot>, w: nat, i: nat) {
    && w < |ss| && i < |ss| && |ss'| == |ss| && ss[w].status == Waiting && ss'[w].status == Ready
    && ss'[w].waitPid == ss[i].pid && ss'[w].waitStatus == ss[i].exitStatus && ss[i].status == Zombie
  }

  /** One pass. */
  lemma PassDrops(ss: seq<Slot>, v: nat, i: nat)
    requires v < |ss| && i < |ss|
    ensures var ss' := UpdateAt(ss, v);
            ss'[i].parent == ss[i].parent || (ss'[i].parent == None && Receives(ss, ss', v, i))
  {
    hide Search, Children, FindPid;
  }

  /** And it touches no waiter that was served before. */
  lemma ServedStays(ss: seq<Slot>, v: nat, w: nat)
    requires v < |ss| && w < |ss| && w != v && ss[w].status == Ready
    ensures UpdateAt(ss, v)[w] == ss[w]
  {
    hide UpdateAt;
    UpdateAtEffect(ss, v);
  }

  /** The passes of a tick: a parent is forgotten only when a waiter receives the zombie. */
  lemma {:induction false} TickDrops(ss: seq<Slot>, n: nat, i: nat)
    requires n <= |ss| && i < |ss|
    ensures var ss' := Updated(ss, n);
            ss'[i].parent == ss[i].parent || (ss'[i].parent == None && exists w: nat :: w < n && Receives(ss, ss', w, i))
    decreases n
  {
    hide UpdateAt;
    if n > 0 {
      var now, v := Updated(ss, n - 1), n - 1;
      TickDrops(ss, n - 1, i);
      PassDrops(now, v, i);
      UpdatedZombies(ss, v, v);
      UpdatedZombies(ss, v, i);
      if Updated(ss, n)[i].parent != now[i].parent {
        assert Receives(now, Updated(ss, n), v, i);
        SameWaiter(ss, n, v, i);
      } else if now[i].parent != ss[i].parent {
        var w: nat :| w < v && Receives(ss, now, w, i);
        ServedStays(now, v, w);
        assert Receives(ss, Updated(ss, n), w, i);
      }
    }
  }

  lemma SameWaiter(ss: seq<Slot>, n: nat, v: nat, i: nat)
    requires 0 < n <= |ss| && v == n - 1 && i < |ss| && Receives(Updated(ss, v), Updated(ss, n), v, i)
    ensures Receives(ss, Updated(ss, n), v, i)
  {
    hide UpdateAt;
    UpdatedZombies(ss, v, v);
    UpdatedZombies(ss, v, i);
  }

  /** Step n of the run is the fork by slot p that made slot i. */
  ghost predicate ForkedBy(ops: seq<Op>, n: nat, i: nat, p: nat) {
    && n < |ops| && ops[n] == Fork && Run(Initial(), ops[..n]).Some?
    && Used(Run(Initial(), ops[..n]).value) == i && Run(Initial(), ops[..n]).value.current == p
  }

  ghost predicate Received(ss: seq<Slot>, ss': seq<Slot>, i: nat) {
    exists w: nat :: Receives(ss, ss', w, i)
  }

  /** Step n of the run is a tick at which some waiter receives the zombie i. */
  ghost predicate DeliveredAt(ops: seq<Op>, n: nat, i: nat) {
    && n < |ops| && ops[n] == Tick && Run(Initial(), ops[..n]).Some? && Run(Initial(), ops[..n + 1]).Some?
    && Received(Run(Initial(), ops[..n]).value.slots, Run(Initial(), ops[..n + 1]).value.slots, i)
  }

  /** The parent of slot i is the slot that forked it, until a waiter has received it. */
  ghost predicate Origin(ops: seq<Op>, i: nat) {
    Run(Initial(), ops).Some? && i < |Run(Initial(), ops).value.slots| &&
    exists n: nat, p: nat ::
      && ForkedBy(ops, n, i, p)
      && var parent := Run(Initial(), ops).value.slots[i].parent;
         parent == Some(p) || (parent == None && exists m: nat :: DeliveredAt(ops, m, i))
  }

  lemma LongerRun(ops: seq<Op>, k: nat, n: nat, i: nat, p: nat)
    requires k <= |ops|
    ensures ForkedBy(ops[..k], n, i, p) ==> ForkedBy(ops, n, i, p)
    ensures DeliveredAt(ops[..k], n, i) ==> DeliveredAt(ops, n, i)
  {
    hide Run;
    if n < k {
      assert ops[..k][..n] == ops[..n] && ops[..k][..n + 1] == ops[..n + 1];
    }
  }

  /** Any step, seen from a slot in use. */
  lemma StepParent(tb: Table, op: Op, i: nat)
    requires TableInv(tb) && Allowed(tb, op) && Step(tb, op).Some? && i < Used(tb)
    ensures var tb' := Step(tb, op).value;
            && i < |tb.slots| && i < |tb'.slots|
            && (tb'.slots[i].parent == tb.slots[i].parent || (tb'.slots[i].parent == None && op == Tick && Received(tb.slots, tb'.slots, i)))
  {
    hide Step, Updated, Allowed;
    UsedSlots(tb);
    if op == Tick {
      TickSlots(tb);
      TickDrops(tb.slots, SLOTS, i);
    } else {
      ParentKept(tb, op, i);
    }
  }

  /** The last step of a run. */
  lemma Peel(ops: seq<Op>)
    requires ops != [] && Run(Initial(), ops).Some?
    ensures var m := |ops| - 1;
            && Run(Initial(), ops[..m]).Some? && |Run(Initial(), ops[..m]).value.slots| == SLOTS && Run(Initial(), ops[..m]).value.current < SLOTS
            && Allowed(Run(Initial(), ops[..m]).value, ops[m]) && Step(Run(Initial(), ops[..m]).value, ops[m]) == Run(Initial(), ops)
  {
    hide Step, Allowed, Initial;
  }

  /** The last step, seen from a slot that was in use. */
  lemma LastStepParent(ops: seq<Op>, i: nat)
    requires ops != [] && Run(Initial(), ops).Some? && Run(Initial(), ops[..|ops| - 1]).Some?
    requires TableInv(Run(Initial(), ops[..|ops| - 1]).value) && i < Used(Run(Initial(), ops[..|ops| - 1]).value)
    ensures var tb, tb' := Run(Initial(), ops[..|ops| - 1]).value, Run(Initial(), ops).value;
            && i < |tb.slots| && i < |tb'.slots|
            && (tb'.slots[i].parent == tb.slots[i].parent || (tb'.slots[i].parent == None && DeliveredAt(ops, |ops| - 1, i)))
  {
    hide Run, Step, Initial, TableInv, Allowed, Received;
    var m := |ops| - 1;
    Peel(ops);
    StepParent(Run(Initial(), ops[..m]).value, ops[m], i);
    assert ops[..m + 1] == ops;
  }

  lemma TickSlots(tb: Table)
    requires |tb.slots| == SLOTS && tb.current < SLOTS && Step(tb, Tick).Some?
    ensures Step(tb, Tick).value.slots == Updated(tb.slots, SLOTS)
  {
    hide Updated, Scan;
  }

  lemma {:induction false} ParentForked(ops: seq<Op>, i: nat)
    requires Run(Initial(), ops).Some? && 0 < i < Used(Run(Initial(), ops).value)
    ensures Origin(ops, i)
    decreases |ops|
  {
    hide TableInv, Step, Initial, ForkedBy, DeliveredAt;
    InitialOk();
    RunKeeps(Initial(), ops);
    TableSize(Run(Initial(), ops).value);
    UsedSlots(Run(Initial(), ops).value);
    OneSlot();
    if ops != [] {
      var m := |ops| - 1;
      var tb := Run(Initial(), ops[..m]).value;
      RunKeeps(Initial(), ops[..m]);
      if i < Used(tb) {
        ParentForked(ops[..m], i);
        LastStepParent(ops, i);
        ExtendOrigin(ops, i);
      } else {
        NewSlot(ops, i);
      }
    }
  }

  lemma UsedSlots(tb: Table)
    requires TableInv(tb)
    ensures Used(tb) <= SLOTS == |tb.slots|
  {
  }

  lemma OneSlot()
    ensures Used(Initial()) == 1
  {
  }

  lemma ExtendOrigin(ops: seq<Op>, i: nat)
    requires ops != [] && Origin(ops[..|ops| - 1], i) && Run(Initial(), ops).Some? && i < |Run(Initial(), ops).value.slots|
    requires Run(Initial(), ops).value.slots[i].parent == Run(Initial(), ops[..|ops| - 1]).value.slots[i].parent
             || (Run(Initial(), ops).value.slots[i].parent == None && DeliveredAt(ops, |ops| - 1, i))
    ensures Origin(ops, i)
  {
    hide Run, ForkedBy, DeliveredAt, Initial;
    var k := |ops| - 1;
    var parent := Run(Initial(), ops[..k]).value.slots[i].parent;
    var n: nat, p: nat :| ForkedBy(ops[..k], n, i, p) && (parent == Some(p) || (parent == None && exists m: nat :: DeliveredAt(ops[..k], m, i)));
    LongerRun(ops, k, n, i, p);
    if parent == None {
      var m: nat :| DeliveredAt(ops[..k], m, i);
      LongerRun(ops, k, m, i, p);
    }
  }

  /** A slot that comes into use at the last step was made by that step. */
  lemma NewSlot(ops: seq<Op>, i: nat)
    requires ops != [] && Run(Initial(), ops).Some? && Run(Initial(), ops[..|ops| - 1]).Some?
    requires TableInv(Run(Initial(), ops[..|ops| - 1]).value)
    requires Used(Run(Initial(), ops[..|ops| - 1]).value) <= i < Used(Run(Initial(), ops).value) && i < |Run(Initial(), ops).value.slots|
    ensures Origin(ops, i)
  {
    hide Run, Step, Initial, TableInv, Allowed;
    var m := |ops| - 1;
    var tb := Run(Initial(), ops[..m]).value;
    Peel(ops);
    OnlyForkGrows(tb, ops[m]);
    assert ForkedBy(ops, m, i, tb.current);
  }

  lemma OnlyForkGrows(tb: Table, op: Op)
    requires TableInv(tb) && Step(tb, op).Some? && Used(tb) < Used(Step(tb, op).value)
    ensures var tb' := Step(tb, op).value;
            op == Fork && Used(tb') == Used(tb) + 1 && |tb'.slots| == SLOTS && Used(tb) < SLOTS && tb'.slots[Used(tb)].parent == Some(tb.current)
  {
    hide Updated, Scan, FirstFree, SlotOk;
    if op == Fork {
      ForkMakes(tb);
    }
  }

  // ---- What a fork makes ----

  /** Fork makes one slot, the next one, ready and with the next pid, the parent's program and nothing else of it;
      all other slots stay, and the parent goes on running. */
  lemma ForkMakes(tb: Table)
    requires TableInv(tb) && Step(tb, Fork).Some?
    ensures var tb' := Step(tb, Fork).value;
            var n := Used(tb);
            && n < 100 && |tb'.slots| == 100 && tb'.current == tb.current && tb'.tick == tb.tick && tb'.nextPid == tb.nextPid + 1
            && tb'.slots[n].pid == n + 1 && tb'.slots[n].status == Ready && tb'.slots[n].parent == Some(tb.current)
            && tb'.slots[n].idle == tb.slots[tb.current].idle && tb'.slots[n].endTime == 0
            && forall j :: 0 <= j < 100 && j != n ==> tb'.slots[j] == tb.slots[j]
  {
    hide FirstFree;
    var f := FirstFree(tb.slots, 0).value;
    assert SlotOk(tb.slots, f, Used(tb));
    assert Used(tb) < SLOTS ==> SlotOk(tb.slots, Used(tb), Used(tb));
  }

  /** And it fails exactly when all slots are in use. */
  lemma ForkFails(tb: Table)
    requires TableInv(tb)
    ensures Step(tb, Fork).None? <==> Used(tb) == 100
  {
    hide FirstFree;
    var f := FirstFree(tb.slots, 0);
    assert Used(tb) < SLOTS ==> SlotOk(tb.slots, Used(tb), Used(tb));
    if f.Some? {
      assert SlotOk(tb.slots, f.value, Used(tb));
    }
  }

  // ---- Programs, time ----

  /** The program of a slot in use changes only by its own exec, and then to the one given. */
  lemma ProgramKept(tb: Table, op: Op, i: nat)
    requires TableInv(tb) && Allowed(tb, op) && Step(tb, op).Some? && i < Used(tb)
    ensures i < |Step(tb, op).value.slots|
    ensures Step(tb, op).value.slots[i].idle == if op.Exec? && tb.current == i then op.idle else tb.slots[i].idle
  {
    hide Scan, Updated;
    assert SlotOk(tb.slots, i, Used(tb));
    if op == Tick {
      PassesKeep(tb.slots, SLOTS, i);
    } else if i != tb.current {
      OtherSlots(tb, op, i);
    }
  }

  /** The passes of a tick leave pid, program, exit and the times of each slot. */
  lemma {:induction false} PassesKeep(ss: seq<Slot>, n: nat, i: nat)
    requires n <= |ss| && i < |ss|
    ensures var t, t' := ss[i], Updated(ss, n)[i];
            && t'.idle == t.idle && t'.pid == t.pid && t'.exitStatus == t.exitStatus
            && t'.endTime == t.endTime && t'.timeAtWait == t.timeAtWait
    decreases n
  {
    hide UpdateAt;
    if n > 0 {
      PassesKeep(ss, n - 1, i);
      UpdateAtEffect(Updated(ss, n - 1), n - 1);
    }
  }

  /** The clock of a run is the number of its ticks. */
  lemma {:induction false} ClockCounts(ops: seq<Op>)
    requires Run(Initial(), ops).Some?
    ensures Run(Initial(), ops).value.tick == Ticks(ops)
    decreases |ops|
  {
    hide Run, Step, Initial;
    if ops != [] {
      Peel(ops);
      ClockCounts(ops[..|ops| - 1]);
      ClockStep(Run(Initial(), ops[..|ops| - 1]).value, ops[|ops| - 1]);
    } else {
      NoneWaits(0);
      ClockStarts();
    }
  }

  lemma ClockStarts()
    ensures Initial().tick == 0
  {
  }

  lemma ClockStep(tb: Table, op: Op)
    requires |tb.slots| == SLOTS && tb.current < SLOTS && Step(tb, op).Some?
    ensures Step(tb, op).value.tick == tb.tick + if op == Tick then 1 else 0
  {
    hide Scan, Updated, FirstFree;
  }

  /** Exec is no more than the change of program: the task runs on. */
  lemma ExecKeepsRunning(tb: Table, idle: bool)
    requires TableInv(tb)
    ensures Step(tb, Op.Exec(idle)).Some? && Step(tb, Op.Exec(idle)).value.current == tb.current
    ensures Step(tb, Op.Exec(idle)).value.nextPid == tb.nextPid && Step(tb, Op.Exec(idle)).value.tick == tb.tick
    ensures |Step(tb, Op.Exec(idle)).value.slots| == SLOTS
    ensures forall j :: 0 <= j < SLOTS ==> Step(tb, Op.Exec(idle)).value.slots[j].(idle := tb.slots[j].idle) == tb.slots[j]
  {
  }

  // ---- The choice comes after the update ----

  predicate Yields(op: Op) {
    op.Tick? || op.Exit? || op.Sleep? || op.Wait?
  }

  /** Whenever a step gives up the processor, the next to run is chosen by the table the step leaves, so that a
      sleeper or a waiter that a tick makes ready takes part at once: each such step runs a ready slot i that is not
      flagged, or comes strictly nearer to it. */
  lemma StepApproaches(tb: Table, op: Op, i: nat)
    requires TableInv(tb) && Yields(op) && Step(tb, op).Some? && Runnable(Step(tb, op).value.slots, i)
    ensures var tb' := Step(tb, op).value; tb'.current == i || Gap(tb'.current, i) < Gap(tb.current, i)
  {
    hide Scan, Updated, Gap;
    var me := tb.slots[tb.current];
    match op
    case Exit(status) => SwitchApproaches(SetCurrent(tb, me.(exitStatus := status, status := Zombie, endTime := tb.tick)), i);
    case Sleep(time) => SwitchApproaches(SetCurrent(tb, me.(sleep := time * 18 % WORD32, status := Sleeping)), i);
    case Wait(pid) => SwitchApproaches(SetCurrent(tb, me.(status := Waiting, waitPid := pid, timeAtWait := tb.tick)), i);
    case Tick => SwitchApproaches(tb.(tick := tb.tick + 1, slots := Updated(tb.slots, SLOTS)), i);
  }

  // ---- Exits and waits ----

  /** Step n of the run is slot w beginning to wait for the pid. */
  ghost predicate WaitBegan(ops: seq<Op>, n: nat, w: nat, pid: nat) {
    n < |ops| && ops[n] == Op.Wait(pid) && Run(Initial(), ops[..n]).Some? && Run(Initial(), ops[..n]).value.current == w
  }

  /** Only its own call makes a slot wait; and while it waits its record of that call stays. */
  lemma MadeWaiting(tb: Table, op: Op, w: nat)
    requires TableInv(tb) && Allowed(tb, op) && Step(tb, op).Some? && w < SLOTS
    ensures w < |Step(tb, op).value.slots|
    ensures var t, t' := tb.slots[w], Step(tb, op).value.slots[w];
            t'.status == Waiting ==>
              || (op == Op.Wait(t'.waitPid) && tb.current == w && t'.timeAtWait == tb.tick)
              || (t.status == Waiting && t'.waitPid == t.waitPid && t'.timeAtWait == t.timeAtWait)
  {
    hide Updated, Scan, FirstFree;
    if op == Tick {
      StillWaiting(tb.slots, SLOTS, w);
    }
  }

  lemma {:induction false} StillWaiting(ss: seq<Slot>, n: nat, w: nat)
    requires n <= |ss| && w < |ss|
    ensures Updated(ss, n)[w].status == Waiting ==> ss[w].status == Waiting && Updated(ss, n)[w].waitPid == ss[w].waitPid
                                                    && Updated(ss, n)[w].timeAtWait == ss[w].timeAtWait
    decreases n
  {
    hide UpdateAt;
    if n > 0 {
      StillWaiting(ss, n - 1, w);
      UpdateAtEffect(Updated(ss, n - 1), n - 1);
    }
  }

  /** Every waiting slot of every run began to wait in it, for the pid it waits for, at the time it has noted. */
  lemma {:induction false} WaiterBegan(ops: seq<Op>, w: nat) returns (n: nat)
    requires Run(Initial(), ops).Some? && w < |Run(Initial(), ops).value.slots| && Run(Initial(), ops).value.slots[w].status == Waiting
    ensures var t := Run(Initial(), ops).value.slots[w];
            WaitBegan(ops, n, w, t.waitPid) && t.timeAtWait == Ticks(ops[..n])
    decreases |ops|
  {
    hide TableInv, Step, Initial, Ticks;
    InitialOk();
    RunKeeps(Initial(), ops);
    TableSize(Run(Initial(), ops).value);
    if ops == [] {
      NoneWaits(w);
      assert false;
    } else {
      var m := |ops| - 1;
      var before := ops[..m];
      RunKeeps(Initial(), before);
      var tb := Run(Initial(), before).value;
      TableSize(tb);
      MadeWaiting(tb, ops[m], w);
      if ops[m] == Op.Wait(Run(Initial(), ops).value.slots[w].waitPid) && tb.current == w && Run(Initial(), ops).value.slots[w].timeAtWait == tb.tick {
        n := m;
        ClockCounts(before);
      } else {
        n := WaiterBegan(before, w);
        assert before[..n] == ops[..n];
      }
    }
  }

  lemma NoneWaits(w: nat)
    requires w < SLOTS
    ensures Run(Initial(), []) == Some(Initial()) && Initial().slots[w].status != Waiting
  {
  }

  /** The end time of a zombie is the time of its exit. */
  lemma {:induction false} ZombieEnded(ops: seq<Op>, z: nat) returns (n: nat)
    requires Run(Initial(), ops).Some? && z < |Run(Initial(), ops).value.slots| && Run(Initial(), ops).value.slots[z].status == Zombie
    ensures var t := Run(Initial(), ops).value.slots[z];
            Exited(ops, n, z, t.exitStatus) && t.endTime == Ticks(ops[..n])
    decreases |ops|
  {
    hide TableInv, Step, Initial, Ticks;
    InitialOk();
    RunKeeps(Initial(), ops);
    TableSize(Run(Initial(), ops).value);
    if ops == [] {
      NoZombieYet(z);
      assert false;
    } else {
      var m := |ops| - 1;
      var before := ops[..m];
      RunKeeps(Initial(), before);
      var tb := Run(Initial(), before).value;
      TableSize(tb);
      StepKeeps(tb, ops[m]);
      if tb.slots[z].status == Zombie {
        n := ZombieEnded(before, z);
        assert before[..n] == ops[..n];
        ZombieKept(tb, Step(tb, ops[m]).value, z);
        EndTimeKept(tb, ops[m], z);
      } else {
        MadeZombie(tb, ops[m], z);
        EndTimeSet(tb, ops[m], z);
        ClockCounts(before);
        n := m;
      }
    }
  }

  lemma EndTimeKept(tb: Table, op: Op, z: nat)
    requires TableInv(tb) && Step(tb, op).Some? && z < SLOTS && tb.slots[z].status == Zombie
    ensures z < |Step(tb, op).value.slots| && Step(tb, op).value.slots[z].endTime == tb.slots[z].endTime
  {
    hide Updated, Scan;
    assert SlotOk(tb.slots, z, Used(tb));
    if op == Tick {
      PassesKeep(tb.slots, SLOTS, z);
    } else {
      OtherSlots(tb, op, z);
    }
  }

  lemma EndTimeSet(tb: Table, op: Op, z: nat)
    requires TableInv(tb) && Step(tb, op).Some? && op.Exit? && tb.current == z
    ensures z < |Step(tb, op).value.slots| && Step(tb, op).value.slots[z].endTime == tb.tick
  {
    hide Scan;
  }
}
