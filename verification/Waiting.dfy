/**
 Sleeping and waiting (sys/ksleep.c, sys/kwaitpid.c, sys/scheduler.c) over whole runs.
 */
module Waiting {
  import opened Options
  import opened Processes
  import opened ProcessRuns

  // ---- Steps leave other slots alone ----

  /** A step that is no tick changes the current slot and a free one. */
  lemma OtherSlots(tb: Table, op: Op, w: nat)
    requires TableInv(tb) && Step(tb, op).Some? && op != Tick && w < Used(tb) && w != tb.current
    ensures Step(tb, op).value.slots[w] == tb.slots[w]
  {
    hide Scan;
    assert SlotOk(tb.slots, w, Used(tb));
  }

  /** A tick, seen from a slot that is neither a zombie nor waiting. */
  lemma {:induction false} UpdatedOne(ss: seq<Slot>, n: nat, w: nat)
    requires n <= |ss| && w < |ss| && ss[w].status != Zombie && ss[w].status != Waiting
    ensures Updated(ss, n)[w] == if w < n then Slept(ss[w]) else ss[w]
    decreases n
  {
    hide UpdateAt;
    if n > 0 {
      UpdatedOne(ss, n - 1, w);
      UpdateAtEffect(Updated(ss, n - 1), n - 1);
    }
  }

  // ---- Sleeping ----

  function Ticks(ops: seq<Op>): nat {
    if ops == [] then 0 else Ticks(ops[..|ops| - 1]) + if ops[|ops| - 1] == Tick then 1 else 0
  }

  ghost predicate Asleep(tb: Table, w: nat, left: int) {
    w < Used(tb) && w < |tb.slots| && tb.slots[w].status == Sleeping && tb.slots[w].sleep == left
  }

  lemma AsleepStep(tb: Table, op: Op, w: nat, left: int)
    requires TableInv(tb) && Allowed(tb, op) && Step(tb, op).Some? && Asleep(tb, w, left)
    ensures var tb' := Step(tb, op).value;
            if op != Tick then Asleep(tb', w, left)
            else if left > 1 then Asleep(tb', w, left - 1)
            else tb'.slots[w].status == Ready
  {
    hide Updated, Scan;
    StepKeeps(tb, op);
    if op != Tick {
      OtherSlots(tb, op, w);
    } else {
      UpdatedOne(tb.slots, SLOTS, w);
    }
  }

  /** The number of ticks that a sleep of `left` takes. */
  function Duration(left: int): int {
    if left < 1 then 1 else left
  }

  lemma {:induction false} AsleepRun(tb: Table, ops: seq<Op>, w: nat, left: nat)
    requires TableInv(tb) && Run(tb, ops).Some? && Asleep(tb, w, left) && Ticks(ops) < Duration(left)
    ensures Asleep(Run(tb, ops).value, w, left - Ticks(ops))
    decreases |ops|
  {
    hide TableInv, Step, Asleep;
    if ops != [] {
      var before := ops[..|ops| - 1];
      AsleepRun(tb, before, w, left);
      RunKeeps(tb, before);
      AsleepStep(Run(tb, before).value, ops[|ops| - 1], w, left - Ticks(before));
    }
  }

  /** Sleep is exact: whatever the other tasks do, the sleeper sleeps until the max(1, 18 n)-th tick, and is
      ready after it; 18 n is taken modulo 2^32. */
  lemma SleepExact(tb: Table, time: nat, ops: seq<Op>)
    requires TableInv(tb) && Allowed(tb, Op.Sleep(time)) && Step(tb, Op.Sleep(time)).Some?
    requires Run(Step(tb, Op.Sleep(time)).value, ops).Some?
    ensures var t := Run(Step(tb, Op.Sleep(time)).value, ops).value.slots;
            var left := time * 18 % 0x1_0000_0000;
            var last := if left <= 1 then 1 else left;
            && tb.current < |t|
            && (Ticks(ops) < last ==> t[tb.current].status == Sleeping)
            && (ops != [] && ops[|ops| - 1] == Tick && Ticks(ops) == last ==> t[tb.current].status == Ready)
  {
    hide Scan, Updated;
    var tb1 := Step(tb, Op.Sleep(time)).value;
    StepKeeps(tb, Op.Sleep(time));
    var left := time * 18 % WORD32;
    assert Asleep(tb1, tb.current, left);
    SleepRuns(tb1, ops, tb.current, left);
  }

  lemma SleepRuns(tb: Table, ops: seq<Op>, w: nat, left: nat)
    requires TableInv(tb) && Asleep(tb, w, left) && Run(tb, ops).Some?
    ensures var t := Run(tb, ops).value.slots;
            && w < |t|
            && (Ticks(ops) < Duration(left) ==> t[w].status == Sleeping)
            && (ops != [] && ops[|ops| - 1] == Tick && Ticks(ops) == Duration(left) ==> t[w].status == Ready)
  {
    hide Step;
    RunKeeps(tb, ops);
    if Ticks(ops) < Duration(left) {
      AsleepRun(tb, ops, w, left);
    } else if ops != [] && ops[|ops| - 1] == Tick && Ticks(ops) == Duration(left) {
      var before := ops[..|ops| - 1];
      RunKeeps(tb, before);
      AsleepRun(tb, before, w, left);
      AsleepStep(Run(tb, before).value, Tick, w, left - Ticks(before));
    }
  }

  // ---- The children list ----

  /** get_children lists exactly the children, each once, highest slot first. */
  lemma {:induction false} ChildrenSpec(ss: seq<Slot>, pid: nat, n: nat)
    requires n <= |ss|
    ensures forall i: nat :: i in Children(ss, pid, n) <==> i < n && IsChild(ss, i, pid)
    ensures Descending(Children(ss, pid, n))
    decreases n
  {
    if n > 0 {
      ChildrenSpec(ss, pid, n - 1);
      var rest := Children(ss, pid, n - 1);
      assert forall x :: 0 <= x < |rest| ==> rest[x] in rest;
      assert forall i: nat :: i in [n - 1] + rest <==> i == n - 1 || i in rest;
    }
  }

  ghost predicate Descending(list: seq<nat>) {
    forall x, y :: 0 <= x < y < |list| ==> list[x] > list[y]
  }

  /** The search goes along the list to the first slot that is a zombie or ended by the given time. */
  lemma {:induction false} SearchSpec(ss: seq<Slot>, list: seq<nat>, time: nat)
    requires forall x :: 0 <= x < |list| ==> list[x] < |ss|
    ensures match Search(ss, list, time)
            case None => forall x :: 0 <= x < |list| ==> ss[list[x]].status != Zombie && ss[list[x]].endTime > time
            case Some(z) => exists y :: 0 <= y < |list| && list[y] == z && (ss[z].status == Zombie || ss[z].endTime <= time)
                                        && forall x :: 0 <= x < y ==> ss[list[x]].status != Zombie && ss[list[x]].endTime > time
    decreases |list|
  {
    if list != [] {
      if ss[list[0]].status != Zombie && ss[list[0]].endTime > time {
        SearchSpec(ss, list[1..], time);
        var r := Search(ss, list[1..], time);
        if r.Some? {
          var y :| 0 <= y < |list[1..]| && list[1..][y] == r.value && (ss[r.value].status == Zombie || ss[r.value].endTime <= time)
                   && forall x :: 0 <= x < y ==> ss[list[1..][x]].status != Zombie && ss[list[1..][x]].endTime > time;
          assert list[y + 1] == r.value;
          forall x | 0 <= x < y + 1 ensures ss[list[x]].status != Zombie && ss[list[x]].endTime > time {
            assert x > 0 ==> list[x] == list[1..][x - 1];
          }
        } else {
          forall x | 0 <= x < |list| ensures ss[list[x]].status != Zombie && ss[list[x]].endTime > time {
            assert x > 0 ==> list[x] == list[1..][x - 1];
          }
        }
      } else {
        assert list[0] == Search(ss, list, time).value;
      }
    }
  }

  /** As live slots have end time 0, the search over the children stops at the first. */
  lemma SearchStopsAtHead(ss: seq<Slot>, list: seq<nat>, time: nat, used: int)
    requires SlotsOk(ss, used) && list != [] && list[0] < SLOTS
    ensures Search(ss, list, time) == Some(list[0])
  {
    assert SlotOk(ss, list[0], used);
  }

  /** A wait for any child ends in a pass of the tick exactly when the highest-slot child is a zombie. */
  lemma WaitAnyWakes(ss: seq<Slot>, w: nat, used: int)
    requires SlotsOk(ss, used) && w < used && w < SLOTS && ss[w].status == Waiting && ss[w].waitPid == ANY
    ensures var list := Children(ss, ss[w].pid, SLOTS);
            var t' := UpdateAt(ss, w)[w];
            && (t'.status == Ready <==> list != [] && list[0] < SLOTS && ss[list[0]].status == Zombie)
            && (t'.status == Ready ==> t'.waitPid == ss[list[0]].pid && t'.waitStatus == ss[list[0]].exitStatus)
            && (t'.status != Ready ==> UpdateAt(ss, w) == ss)
  {
    hide Search, Children;
    var list := Children(ss, ss[w].pid, SLOTS);
    ChildrenSpec(ss, ss[w].pid, SLOTS);
    assert ss[w := ss[w]] == ss;
    if list != [] {
      assert list[0] in list;
      SearchStopsAtHead(ss, list, ss[w].timeAtWait, used);
    } else {
      assert Search(ss, list, ss[w].timeAtWait) == None by { EmptySearch(ss, ss[w].timeAtWait); }
    }
  }

  lemma EmptySearch(ss: seq<Slot>, time: nat)
    ensures Search(ss, [], time) == None
  {
  }

  /** The slot with the pid is a zombie. */
  ghost predicate IsZombie(ss: seq<Slot>, pid: nat) {
    var z := FindPid(ss, pid, 0);
    z.Some? && ss[z.value].status == Zombie
  }

  lemma {:induction false} SamePids(ss: seq<Slot>, ss': seq<Slot>, pid: nat, i: nat)
    requires |ss| == |ss'| && forall j :: 0 <= j < |ss| ==> ss'[j].pid == ss[j].pid
    ensures FindPid(ss', pid, i) == FindPid(ss, pid, i)
    decreases |ss| - i
  {
    if i < |ss| && ss[i].pid != pid {
      SamePids(ss, ss', pid, i + 1);
    }
  }

  /** The passes of a tick make no zombie and unmake none. */
  lemma {:induction false} UpdatedZombies(ss: seq<Slot>, n: nat, j: nat)
    requires n <= |ss| && j < |ss|
    ensures var t, t' := ss[j], Updated(ss, n)[j];
            && t'.pid == t.pid && t'.exitStatus == t.exitStatus && (t'.status == Zombie <==> t.status == Zombie)
            && (j >= n && t.status != Zombie ==> t' == t)
    decreases n
  {
    hide UpdateAt;
    if n > 0 {
      UpdatedZombies(ss, n - 1, j);
      UpdateAtEffect(Updated(ss, n - 1), n - 1);
    }
  }

  lemma {:induction false} UpdatedAfter(ss: seq<Slot>, n: nat, w: nat)
    requires w < n <= |ss| && Updated(ss, w + 1)[w].status in {Ready, Waiting}
    ensures Updated(ss, w + 1)[w].status == Ready ==> Updated(ss, n)[w] == Updated(ss, w + 1)[w]
    ensures Updated(ss, w + 1)[w].status == Waiting ==> Updated(ss, n)[w] == Updated(ss, w + 1)[w]
    decreases n
  {
    hide UpdateAt;
    if n > w + 1 {
      UpdatedAfter(ss, n - 1, w);
      UpdateAtEffect(Updated(ss, n - 1), n - 1);
    }
  }

  /** A tick wakes a waiter on one pid exactly when that pid is a zombie, with the zombie's status. */
  lemma TickWakes(ss: seq<Slot>, w: nat)
    requires |ss| == SLOTS && w < SLOTS && ss[w].status == Waiting && ss[w].waitPid != 0xFFFF_FFFF
    ensures var t' := Updated(ss, SLOTS)[w];
            if IsZombie(ss, ss[w].waitPid)
            then t'.status == Ready && t'.waitPid == ss[w].waitPid && t'.waitStatus == ss[FindPid(ss, ss[w].waitPid, 0).value].exitStatus
            else t' == ss[w]
  {
    hide Search, Children, FindPid;
    var now := Updated(ss, w);
    forall j | 0 <= j < SLOTS ensures now[j].pid == ss[j].pid && (now[j].status == Zombie <==> ss[j].status == Zombie) && now[j].exitStatus == ss[j].exitStatus {
      UpdatedZombies(ss, w, j);
    }
    UpdatedZombies(ss, w, w);
    assert now[w] == ss[w];
    assert now[w := now[w]] == now;
    SamePids(ss, now, ss[w].waitPid, 0);
    assert Updated(ss, w + 1) == UpdateAt(now, w);
    UpdatedAfter(ss, SLOTS, w);
  }

  // ---- A tick and a wait for any child ----

  /** Slot v waits for the pid of the zombie i. */
  predicate Claims(ss: seq<Slot>, v: nat, i: nat) {
    && v < |ss| && i < |ss| && ss[v].status == Waiting && ss[v].waitPid != ANY
    && ss[v].waitPid == ss[i].pid && ss[i].status == Zombie
  }

  /** Some slot before n does. */
  ghost predicate Claimed(ss: seq<Slot>, n: nat, i: nat) {
    exists v :: 0 <= v < n && Claims(ss, v, i)
  }

  /** Slot i is a child of w that no slot before w claims. */
  ghost predicate Left(ss: seq<Slot>, w: nat, i: nat) {
    i < |ss| && ss[i].parent == Some(w) && !Claimed(ss, w, i)
  }

  ghost predicate HighestLeft(ss: seq<Slot>, w: nat, h: nat) {
    Left(ss, w, h) && forall i :: h < i < |ss| ==> !Left(ss, w, i)
  }

  /** Pids name slots. */
  lemma PidIsSlot(ss: seq<Slot>, i: nat, used: int)
    requires SlotsOk(ss, used) && i < SLOTS && i < used
    ensures FindPid(ss, ss[i].pid, 0) == Some(i)
  {
    hide FindPid;
    assert SlotOk(ss, i, used);
    var r := FindPid(ss, ss[i].pid, 0);
    if r.Some? {
      assert SlotOk(ss, r.value, used);
    }
  }

  /** The pass of a slot that waits for a pid disowns the zombie it claims and no other slot. */
  lemma PidPass(ss: seq<Slot>, v: nat, i: nat, used: int)
    requires SlotsOk(ss, used) && v < SLOTS && i < SLOTS && i < used && i != v && ss[v].status == Waiting && ss[v].waitPid != ANY
    ensures UpdateAt(ss, v)[i].parent == if Claims(ss, v, i) then None else ss[i].parent
  {
    hide FindPid, SlotOk;
    assert ss[v := ss[v]] == ss;
    if ss[v].waitPid == ss[i].pid {
      PidIsSlot(ss, i, used);
    }
  }

  /** The pass of a slot that waits for any child disowns no child of another. */
  lemma AnyPass(ss: seq<Slot>, v: nat, i: nat, w: nat, used: int)
    requires SlotsOk(ss, used) && v < SLOTS && v < used && i < SLOTS && i != v && w != v && ss[v].status == Waiting && ss[v].waitPid == ANY
    ensures UpdateAt(ss, v)[i].parent == Some(w) <==> ss[i].parent == Some(w)
  {
    hide Children, SlotOk;
    assert ss[v := ss[v]] == ss;
    var list := Children(ss, ss[v].pid, SLOTS);
    ChildrenSpec(ss, ss[v].pid, SLOTS);
    if list != [] {
      assert list[0] in list;
      SearchStopsAtHead(ss, list, ss[v].timeAtWait, used);
      ParentIs(ss, list[0], v, used);
    } else {
      EmptySearch(ss, ss[v].timeAtWait);
    }
  }

  /** One pass, seen from a child of a later slot w. */
  lemma PassParent(ss: seq<Slot>, v: nat, i: nat, w: nat, used: int)
    requires SlotsOk(ss, used) && v < w < SLOTS && w < used && i < SLOTS
    ensures UpdateAt(ss, v)[i].parent == Some(w) <==> ss[i].parent == Some(w) && !Claims(ss, v, i)
  {
    hide UpdateAt;
    assert SlotOk(ss, i, used);
    assert SlotOk(ss, v, used);
    UpdateAtEffect(ss, v);
    if ss[i].parent == Some(w) && ss[v].status == Waiting {
      if ss[v].waitPid == ANY {
        AnyPass(ss, v, i, w, used);
      } else {
        PidPass(ss, v, i, used);
      }
    }
  }

  /** What is left of the children of w after n passes, told from the table before the tick. */
  lemma {:induction false} ChildrenLeft(ss: seq<Slot>, n: nat, w: nat, i: nat, used: int)
    requires SlotsOk(ss, used) && n <= w < SLOTS && w < used && i < SLOTS
    ensures Updated(ss, n)[i].parent == Some(w) <==> ss[i].parent == Some(w) && !Claimed(ss, n, i)
    decreases n
  {
    hide UpdateAt, SlotOk;
    if n > 0 {
      ChildrenLeft(ss, n - 1, w, i, used);
      var now := Updated(ss, n - 1);
      UpdatedKeeps(ss, n - 1, used);
      PassParent(now, n - 1, i, w, used);
      UpdatedZombies(ss, n - 1, n - 1);
      UpdatedZombies(ss, n - 1, i);
      assert Claims(now, n - 1, i) <==> Claims(ss, n - 1, i);
      assert Claimed(ss, n, i) <==> Claimed(ss, n - 1, i) || Claims(ss, n - 1, i);
    }
  }

  /** The tick, with the children as they are when the loop comes to the waiter. */
  lemma WakesAtPass(ss: seq<Slot>, w: nat, used: int)
    requires SlotsOk(ss, used) && w < used && w < SLOTS && ss[w].status == Waiting && ss[w].waitPid == ANY
    ensures var list := Children(Updated(ss, w), ss[w].pid, SLOTS);
            var t' := Updated(ss, SLOTS)[w];
            if list != [] && list[0] < SLOTS && ss[list[0]].status == Zombie
            then t'.status == Ready && t'.waitPid == ss[list[0]].pid && t'.waitStatus == ss[list[0]].exitStatus
            else t' == ss[w]
  {
    hide Children, UpdateAt, SlotOk;
    var now := Updated(ss, w);
    UpdatedKeeps(ss, w, used);
    UpdatedZombies(ss, w, w);
    WaitAnyWakes(now, w, used);
    var list := Children(now, now[w].pid, SLOTS);
    if list != [] && list[0] < SLOTS {
      UpdatedZombies(ss, w, list[0]);
    }
    UpdatedAfter(ss, SLOTS, w);
  }

  /** The list that the loop finds starts with the highest child left. */
  lemma HeadIsHighest(ss: seq<Slot>, w: nat, used: int)
    requires SlotsOk(ss, used) && w < used && w < SLOTS
    ensures var list := Children(Updated(ss, w), ss[w].pid, SLOTS);
            && (list == [] ==> forall i :: 0 <= i < SLOTS ==> !Left(ss, w, i))
            && (list != [] ==> list[0] < SLOTS && HighestLeft(ss, w, list[0]))
  {
    hide Children, Updated, Claimed, Descending;
    var now := Updated(ss, w);
    var list := Children(now, ss[w].pid, SLOTS);
    UpdatedKeeps(ss, w, used);
    UpdatedZombies(ss, w, w);
    ChildrenSpec(now, ss[w].pid, SLOTS);
    forall i: nat | i < SLOTS ensures i in list <==> Left(ss, w, i) {
      ChildrenLeft(ss, w, w, i, used);
      if IsChild(now, i, now[w].pid) {
        ParentIs(now, i, w, used);
      }
    }
    if list != [] {
      assert list[0] in list;
      forall i | list[0] < i < SLOTS ensures !Left(ss, w, i) {
        if i in list {
          FirstIsHighest(list, i);
        }
      }
    }
  }

  /** A tick ends a wait for any child exactly when the highest child of the waiter is a zombie, leaving out those
      that an earlier slot claims by waiting for their pid; it then delivers that child. */
  lemma TickWakesAny(ss: seq<Slot>, w: nat, used: int)
    requires SlotsOk(ss, used) && w < used && w < SLOTS && ss[w].status == Waiting && ss[w].waitPid == 0xFFFF_FFFF
    ensures var t' := Updated(ss, SLOTS)[w];
            && (forall h: nat :: HighestLeft(ss, w, h) && ss[h].status == Zombie ==>
                  t'.status == Ready && t'.waitPid == ss[h].pid && t'.waitStatus == ss[h].exitStatus)
            && ((forall h: nat :: HighestLeft(ss, w, h) ==> ss[h].status != Zombie) ==> t' == ss[w])
  {
    hide Children, Updated, Claimed, SlotOk;
    WakesAtPass(ss, w, used);
    HeadIsHighest(ss, w, used);
  }

  // ---- A wait that goes on although a child is a zombie ----

  const MISSED: seq<Op> := [Fork, Fork, Op.Wait(ANY), Op.Exit(0)]

  /** Two children; the parent waits for any, and the first child exits while the second lives. */
  function MissedSlots(): (ss: seq<Slot>)
    ensures |ss| == SLOTS
  {
    Initial().slots
      [0 := EMPTY.(pid := 1, status := Waiting, waitPid := ANY)]
      [1 := EMPTY.(pid := 2, status := Zombie, parent := Some(0))]
      [2 := EMPTY.(pid := 3, status := Ready, parent := Some(0))]
  }

  lemma ForkFrom(tb: Table, f: nat)
    requires |tb.slots| == SLOTS && tb.current < SLOTS && f < SLOTS && tb.slots[f].status == Free
    requires forall j :: 0 <= j < f ==> tb.slots[j].status != Free
    ensures Step(tb, Fork) == Some(tb.(nextPid := tb.nextPid + 1,
      slots := tb.slots[f := tb.slots[f].(pid := tb.nextPid, status := Ready, parent := Some(tb.current), idle := tb.slots[tb.current].idle)]))
  {
  }

  lemma SwitchNext(tb: Table)
    requires |tb.slots| == SLOTS && tb.current + 1 < SLOTS && Runnable(tb.slots, tb.current + 1)
    ensures Switch(tb) == Some(tb.(current := tb.current + 1))
  {
    hide Scan;
    PosValue(tb.current + 1, 0);
    var d := ScanChoice(tb.slots, tb.current + 1, 0, None);
    assert NoneRunnable(tb.slots, tb.current + 1, 0, d) ==> d == 0;
  }

  lemma {:induction false} RunMore(tb: Table, ops: seq<Op>, op: Op)
    requires TableInv(tb) && Run(tb, ops).Some? && Allowed(Run(tb, ops).value, op)
    ensures TableInv(Run(tb, ops).value) && Run(tb, ops + [op]) == Step(Run(tb, ops).value, op)
  {
    RunKeeps(tb, ops);
    assert (ops + [op])[..|ops|] == ops;
  }

  /** The first child, and the second. */
  const FIRST: Slot := EMPTY.(pid := 2, status := Ready, parent := Some(0))
  const SECOND: Slot := EMPTY.(pid := 3, status := Ready, parent := Some(0))

  lemma TwoForks()
    ensures Run(Initial(), [Fork, Fork]) == Some(Table(Initial().slots[1 := FIRST][2 := SECOND], 4, 0, 0))
  {
    hide Run, Scan, FirstFree;
    assert [] + [Fork] == [Fork] && [Fork] + [Fork] == [Fork, Fork];
    var tb0 := Initial();
    InitialOk();
    RunNothing(tb0);
    RunMore(tb0, [], Fork);
    ForkFrom(tb0, 1);
    RunMore(tb0, [Fork], Fork);
    ForkFrom(Step(tb0, Fork).value, 2);
  }

  /** Four steps from the start: both forks, then the wait and the exit. */
  lemma MissedRun()
    ensures Run(Initial(), MISSED) == Some(Table(MissedSlots(), 4, 2, 0))
  {
    hide Run, Scan, FirstFree;
    assert [Fork, Fork] + [Op.Wait(ANY)] == [Fork, Fork, Op.Wait(ANY)] && [Fork, Fork, Op.Wait(ANY)] + [Op.Exit(0)] == MISSED;
    var tb0 := Initial();
    InitialOk();
    TwoForks();
    var tb2 := Run(tb0, [Fork, Fork]).value;
    RunMore(tb0, [Fork, Fork], Op.Wait(ANY));
    SwitchNext(SetCurrent(tb2, tb2.slots[0].(status := Waiting, waitPid := ANY, timeAtWait := tb2.tick)));
    var tb3 := Step(tb2, Op.Wait(ANY)).value;
    RunMore(tb0, [Fork, Fork, Op.Wait(ANY)], Op.Exit(0));
    SwitchNext(SetCurrent(tb3, tb3.slots[1].(exitStatus := 0, status := Zombie, endTime := tb3.tick)));
    assert Step(tb3, Op.Exit(0)).value.slots == MissedSlots();
  }

  lemma RunNothing(tb: Table)
    ensures Run(tb, []) == Some(tb)
  {
  }

  /** A wait for any child can go on although a child is a zombie: after those four steps of the initial table
      slot 1 is a zombie child of the waiting slot 0, and the next tick leaves slot 0 waiting. */
  lemma WaitAnyMisses()
    ensures Run(Initial(), MISSED).Some?
    ensures var ss := Run(Initial(), MISSED).value.slots;
            && |ss| == SLOTS && ss[0].status == Waiting && ss[0].waitPid == ANY
            && IsChild(ss, 1, ss[0].pid) && ss[1].status == Zombie && ss[1].exitStatus == 0
            && Updated(ss, SLOTS)[0] == ss[0]
  {
    hide Run, Updated;
    InitialOk();
    MissedRun();
    RunKeeps(Initial(), MISSED);
    var ss := MissedSlots();
    assert Left(ss, 0, 2);
    TickWakesAny(ss, 0, 3);
  }

  lemma FirstIsHighest(list: seq<nat>, i: nat)
    requires Descending(list) && i in list
    ensures list != [] && list[0] >= i
  {
    var x :| 0 <= x < |list| && list[x] == i;
    if x > 0 {
      assert list[0] > list[x];
    }
  }

  // ---- What kwaitpid returns ----

  /** Slot z answers the wait of slot w, begun with `pid` in a table whose slots were ss0: it is a zombie,
      w holds its pid and its status, and after a wait for any child it was a child of w. */
  ghost predicate Answer(ss0: seq<Slot>, ss: seq<Slot>, w: nat, pid: nat, z: nat) {
    && z < |ss| && w < |ss| && z < |ss0| && ss[w].status == Ready
    && ss[z].status == Zombie && ss[z].pid == ss[w].waitPid && ss[z].exitStatus == ss[w].waitStatus && ss[z].parent == None
    && (if pid == ANY then ss0[z].parent == Some(w) else ss[w].waitPid == pid)
  }

  /** Slot w still waits, and has had no new children since. */
  ghost predicate Unanswered(ss0: seq<Slot>, ss: seq<Slot>, w: nat, pid: nat) {
    && w < |ss| && |ss| == |ss0| && ss[w].status == Waiting && ss[w].waitPid == pid
    && forall z :: 0 <= z < |ss| && ss[z].parent == Some(w) ==> ss0[z].parent == Some(w)
  }

  /** The wait of slot w, so far. */
  ghost predicate InWait(ss0: seq<Slot>, ss: seq<Slot>, w: nat, pid: nat) {
    Unanswered(ss0, ss, w, pid) || exists z: nat :: Answer(ss0, ss, w, pid, z)
  }

  lemma OtherPass(ss0: seq<Slot>, ss: seq<Slot>, w: nat, pid: nat, i: nat)
    requires i < |ss| && i != w && InWait(ss0, ss, w, pid)
    ensures InWait(ss0, UpdateAt(ss, i), w, pid)
  {
    hide UpdateAt;
    UpdateAtEffect(ss, i);
    if !Unanswered(ss0, ss, w, pid) {
      var z: nat :| Answer(ss0, ss, w, pid, z);
      assert Answer(ss0, UpdateAt(ss, i), w, pid, z);
    }
  }

  lemma OwnPass(ss0: seq<Slot>, ss: seq<Slot>, w: nat, pid: nat, used: int)
    requires SlotsOk(ss, used) && w < SLOTS && Unanswered(ss0, ss, w, pid)
    ensures InWait(ss0, UpdateAt(ss, w), w, pid)
  {
    hide Search, Children, FindPid;
    assert SlotOk(ss, w, used);
    assert ss[w := ss[w]] == ss;
    if pid == ANY {
      WaitAnyWakes(ss, w, used);
      var list := Children(ss, ss[w].pid, SLOTS);
      if UpdateAt(ss, w)[w].status == Ready {
        ChildrenSpec(ss, ss[w].pid, SLOTS);
        assert list[0] in list;
        SearchStopsAtHead(ss, list, ss[w].timeAtWait, used);
        ParentIs(ss, list[0], w, used);
        assert Answer(ss0, UpdateAt(ss, w), w, pid, list[0]);
      }
    } else {
      var z := FindPid(ss, pid, 0);
      if z.Some? && ss[z.value].status == Zombie {
        assert Answer(ss0, UpdateAt(ss, w), w, pid, z.value);
      }
    }
  }

  /** Pids name slots, so the parent with w's pid is w. */
  lemma ParentIs(ss: seq<Slot>, z: nat, w: nat, used: int)
    requires SlotsOk(ss, used) && w < SLOTS && w < used && z < SLOTS && IsChild(ss, z, ss[w].pid)
    ensures ss[z].parent == Some(w)
  {
    assert SlotOk(ss, w, used);
    assert SlotOk(ss, z, used);
    assert SlotOk(ss, ss[z].parent.value, used);
  }

  lemma AnsweredPass(ss0: seq<Slot>, ss: seq<Slot>, w: nat, pid: nat)
    requires w < |ss| && !Unanswered(ss0, ss, w, pid) && InWait(ss0, ss, w, pid)
    ensures UpdateAt(ss, w) == ss
  {
    assert ss[w := ss[w]] == ss;
  }

  lemma {:induction false} WaitPasses(ss0: seq<Slot>, ss: seq<Slot>, w: nat, pid: nat, used: int, n: nat)
    requires SlotsOk(ss, used) && w < SLOTS && n <= SLOTS && InWait(ss0, ss, w, pid)
    ensures InWait(ss0, Updated(ss, n), w, pid)
    decreases n
  {
    hide UpdateAt, SlotOk, InWait;
    if n > 0 {
      WaitPasses(ss0, ss, w, pid, used, n - 1);
      UpdatedKeeps(ss, n - 1, used);
      var now := Updated(ss, n - 1);
      if n - 1 != w {
        OtherPass(ss0, now, w, pid, n - 1);
      } else if Unanswered(ss0, now, w, pid) {
        OwnPass(ss0, now, w, pid, used);
      } else {
        AnsweredPass(ss0, now, w, pid);
      }
    }
  }

  /** A step by another task. */
  lemma WaitStep(ss0: seq<Slot>, tb: Table, op: Op, w: nat, pid: nat)
    requires TableInv(tb) && Allowed(tb, op) && Step(tb, op).Some? && w < Used(tb) && w != tb.current
    requires InWait(ss0, tb.slots, w, pid) && |ss0| == SLOTS
    ensures InWait(ss0, Step(tb, op).value.slots, w, pid)
  {
    hide Updated, Scan, FirstFree;
    if op == Tick {
      assert SlotsOk(tb.slots, Used(tb));
      WaitPasses(ss0, tb.slots, w, pid, Used(tb), SLOTS);
    } else {
      var ss' := Step(tb, op).value.slots;
      OtherSlots(tb, op, w);
      if Unanswered(ss0, tb.slots, w, pid) {
        assert Unanswered(ss0, ss', w, pid);
      } else {
        var z: nat :| Answer(ss0, tb.slots, w, pid, z);
        assert SlotOk(tb.slots, z, Used(tb));
        OtherSlots(tb, op, z);
        assert Answer(ss0, ss', w, pid, z);
      }
    }
  }

  /** The waiter does not run in between. */
  ghost predicate NeverRuns(tb: Table, ops: seq<Op>, w: nat) {
    forall n :: 0 <= n < |ops| && Run(tb, ops[..n]).Some? ==> Run(tb, ops[..n]).value.current != w
  }

  lemma {:induction false} WaitRun(tb: Table, ops: seq<Op>, w: nat, pid: nat)
    requires TableInv(tb) && w < Used(tb) && InWait(tb.slots, tb.slots, w, pid) && NeverRuns(tb, ops, w)
    requires Run(tb, ops).Some?
    ensures InWait(tb.slots, Run(tb, ops).value.slots, w, pid)
    decreases |ops|
  {
    hide TableInv, Step, InWait;
    if ops != [] {
      var n := |ops| - 1;
      var before := ops[..n];
      forall m | 0 <= m < n && Run(tb, before[..m]).Some? ensures Run(tb, before[..m]).value.current != w {
        assert before[..m] == ops[..m];
      }
      WaitRun(tb, before, w, pid);
      RunKeeps(tb, before);
      TableSize(tb);
      WaitStep(tb.slots, Run(tb, before).value, ops[n], w, pid);
    }
  }

  lemma TableSize(tb: Table)
    requires TableInv(tb)
    ensures |tb.slots| == SLOTS
  {
  }

  /** Wait soundness: when kwaitpid returns, that is when the waiter is next current, the pid it returns is a
      zombie's and the status is the one that zombie exited with; a wait for any child returns a child of the
      waiter, which is disowned. */
  lemma WaitReturns(tb: Table, pid: nat, ops: seq<Op>)
    requires TableInv(tb) && Allowed(tb, Op.Wait(pid)) && Step(tb, Op.Wait(pid)).Some?
    requires var tb1 := Step(tb, Op.Wait(pid)).value;
             NeverRuns(tb1, ops, tb.current) && Run(tb1, ops).Some? && Run(tb1, ops).value.current == tb.current
    ensures var tb1 := Step(tb, Op.Wait(pid)).value;
            exists z: nat :: Answer(tb.slots, Run(tb1, ops).value.slots, tb.current, pid, z)
  {
    hide Updated, Scan, Run, Answer;
    var tb1 := Step(tb, Op.Wait(pid)).value;
    var w := tb.current;
    StepKeeps(tb, Op.Wait(pid));
    assert Unanswered(tb1.slots, tb1.slots, w, pid);
    WaitRun(tb1, ops, w, pid);
    RunKeeps(tb1, ops);
    var z: nat :| Answer(tb1.slots, Run(tb1, ops).value.slots, w, pid, z);
    SameParents(tb, pid, Run(tb1, ops).value.slots, z);
  }

  lemma SameParents(tb: Table, pid: nat, ss: seq<Slot>, z: nat)
    requires TableInv(tb) && Step(tb, Op.Wait(pid)).Some?
    requires Answer(Step(tb, Op.Wait(pid)).value.slots, ss, tb.current, pid, z)
    ensures Answer(tb.slots, ss, tb.current, pid, z)
  {
    hide Scan;
  }

  /** Whoever exits stays a zombie with the status it gave, and never runs again. */
  lemma ExitLasts(tb: Table, status: nat, ops: seq<Op>)
    requires TableInv(tb) && Allowed(tb, Op.Exit(status)) && Step(tb, Op.Exit(status)).Some?
    requires Run(Step(tb, Op.Exit(status)).value, ops).Some?
    ensures var tb' := Run(Step(tb, Op.Exit(status)).value, ops).value;
            && tb.current < |tb'.slots| && tb'.current != tb.current
            && tb'.slots[tb.current].status == Zombie && tb'.slots[tb.current].exitStatus == status
  {
    hide Run, Scan;
    StepKeeps(tb, Op.Exit(status));
    var tb1 := Step(tb, Op.Exit(status)).value;
    RunKeeps(tb1, ops);
    assert Lasts(tb1.slots[tb.current], Run(tb1, ops).value.slots[tb.current]);
  }

  // ---- The status is the one given to kexit ----

  /** Step n of the run from the initial table is an exit of slot z with the status. */
  ghost predicate Exited(ops: seq<Op>, n: nat, z: nat, status: nat) {
    n < |ops| && ops[n] == Op.Exit(status) && Run(Initial(), ops[..n]).Some? && Run(Initial(), ops[..n]).value.current == z
  }

  /** Only its own exit makes a slot a zombie. */
  lemma MadeZombie(tb: Table, op: Op, z: nat)
    requires TableInv(tb) && Allowed(tb, op) && Step(tb, op).Some? && z < SLOTS && tb.slots[z].status != Zombie
    ensures z < |Step(tb, op).value.slots|
    ensures Step(tb, op).value.slots[z].status == Zombie ==>
              op == Op.Exit(Step(tb, op).value.slots[z].exitStatus) && tb.current == z
  {
    hide Updated, Scan, FirstFree;
    if op == Tick {
      UpdatedZombies(tb.slots, SLOTS, z);
    }
  }

  /** Every zombie of every run exited in it, with the status it has. */
  lemma {:induction false} ZombieExited(ops: seq<Op>, z: nat) returns (n: nat)
    requires Run(Initial(), ops).Some? && z < |Run(Initial(), ops).value.slots| && Run(Initial(), ops).value.slots[z].status == Zombie
    ensures Exited(ops, n, z, Run(Initial(), ops).value.slots[z].exitStatus)
    decreases |ops|
  {
    hide TableInv, Step, Initial;
    InitialOk();
    RunKeeps(Initial(), ops);
    TableSize(Run(Initial(), ops).value);
    if ops == [] {
      NoZombieYet(z);
      assert false;
    } else {
      var m := |ops| - 1;
      var before := ops[..m];
      RunKeeps(Initial(), before);
      var tb := Run(Initial(), before).value;
      TableSize(tb);
      StepKeeps(tb, ops[m]);
      if tb.slots[z].status == Zombie {
        n := ZombieExited(before, z);
        assert before[..n] == ops[..n];
        ZombieKept(tb, Step(tb, ops[m]).value, z);
      } else {
        MadeZombie(tb, ops[m], z);
        n := m;
      }
    }
  }

  lemma NoZombieYet(z: nat)
    requires z < SLOTS
    ensures Run(Initial(), []) == Some(Initial()) && Initial().slots[z].status != Zombie
  {
  }

  lemma ZombieKept(tb: Table, tb': Table, z: nat)
    requires TableInv(tb) && Later(tb, tb') && z < SLOTS && tb.slots[z].status == Zombie
    ensures z < |tb'.slots| && tb'.slots[z].exitStatus == tb.slots[z].exitStatus
  {
    assert SlotOk(tb.slots, z, Used(tb));
    assert Lasts(tb.slots[z], tb'.slots[z]);
  }

  lemma {:induction false} RunConcat(tb: Table, a: seq<Op>, b: seq<Op>)
    requires Run(tb, a).Some?
    ensures Run(tb, a + b) == Run(Run(tb, a).value, b)
    decreases |b|
  {
    hide Step, Allowed;
    if b == [] {
      assert a + b == a;
    } else {
      var n := |b| - 1;
      RunConcat(tb, a, b[..n]);
      assert (a + b)[..|a| + n] == a + b[..n];
    }
  }

  /** From the initial table: the status that kwaitpid returns is the argument of the exit that the returned pid
      itself made in the run. */
  lemma StatusDelivered(ops1: seq<Op>, pid: nat, ops2: seq<Op>)
    requires Run(Initial(), ops1).Some? && Run(Initial(), ops1 + [Op.Wait(pid)]).Some?
    requires var tb, tb1 := Run(Initial(), ops1).value, Run(Initial(), ops1 + [Op.Wait(pid)]).value;
             NeverRuns(tb1, ops2, tb.current) && Run(tb1, ops2).Some? && Run(tb1, ops2).value.current == tb.current
    ensures var ops := ops1 + [Op.Wait(pid)] + ops2;
            && Run(Initial(), ops).Some?
            && var tb' := Run(Initial(), ops).value;
            && tb'.current < |tb'.slots|
            && exists n: nat, z: nat :: z < |tb'.slots| && tb'.slots[z].pid == tb'.slots[tb'.current].waitPid
                                        && Exited(ops, n, z, tb'.slots[tb'.current].waitStatus)
  {
    hide Run, Step, Initial, NeverRuns, TableInv, Exited, Allowed;
    var tb := Run(Initial(), ops1).value;
    var ops := ops1 + [Op.Wait(pid)] + ops2;
    InitialOk();
    RunKeeps(Initial(), ops1);
    TableSize(tb);
    LastStep(Initial(), ops1, Op.Wait(pid));
    RunConcat(Initial(), ops1 + [Op.Wait(pid)], ops2);
    WaitReturns(tb, pid, ops2);
    var ss := Run(Initial(), ops).value.slots;
    var z: nat :| Answer(tb.slots, ss, tb.current, pid, z);
    var n := ZombieExited(ops, z);
  }

  lemma LastStep(tb: Table, ops: seq<Op>, op: Op)
    requires TableInv(tb) && Run(tb, ops + [op]).Some?
    ensures Run(tb, ops).Some? && |Run(tb, ops).value.slots| == SLOTS && Run(tb, ops).value.current < SLOTS
    ensures Allowed(Run(tb, ops).value, op) && Step(Run(tb, ops).value, op) == Run(tb, ops + [op])
  {
    hide Step, Allowed;
    assert (ops + [op])[..|ops|] == ops;
  }

  /** A disowned zombie is never delivered by a wait for any child again: over every run it stays a disowned
      zombie, and such a wait delivers children only. */
  lemma DeliveredOnce(tb: Table, ops: seq<Op>, z: nat)
    requires TableInv(tb) && z < Used(tb) && tb.slots[z].status == Zombie && tb.slots[z].parent == None && Run(tb, ops).Some?
    ensures var ss := Run(tb, ops).value.slots;
            && z < |ss| && ss[z].status == Zombie && ss[z].exitStatus == tb.slots[z].exitStatus && ss[z].parent == None
            && forall w: nat :: w < |ss| ==> z !in Children(ss, ss[w].pid, SLOTS)
  {
    hide Run, Children;
    RunKeeps(tb, ops);
    var ss := Run(tb, ops).value.slots;
    assert Lasts(tb.slots[z], ss[z]);
    forall w: nat | w < |ss| ensures z !in Children(ss, ss[w].pid, SLOTS) {
      ChildrenSpec(ss, ss[w].pid, SLOTS);
    }
  }
}
