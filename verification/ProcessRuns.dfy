/**
 What every run of the process table keeps, and what waiting, sleeping and scheduling
 promise over whole runs.
 */
module ProcessRuns {
  import opened Options
  import opened Processes

  /** Slots in use. */
  function Used(tb: Table): int {
    tb.nextPid - 1
  }

  ghost predicate SlotOk(ss: seq<Slot>, i: int, used: int)
    requires 0 <= i < |ss|
  {
    if i < used then
      && ss[i].status != Free && ss[i].pid == i + 1
      && (ss[i].parent.Some? ==> ss[i].parent.value < i)
      && (ss[i].idle ==> ss[i].status == Ready)
      && (ss[i].status != Zombie ==> ss[i].endTime == 0)
    else
      ss[i].status == Free && ss[i].pid == 0 && ss[i].parent == None && !ss[i].idle && ss[i].endTime == 0
  }

  /** The slots in use are a prefix and slot i has pid i + 1; a parent comes before its child; the
      current slot is ready. */
  ghost predicate TableInv(tb: Table) {
    && |tb.slots| == SLOTS && 1 <= Used(tb) <= SLOTS
    && (forall i :: 0 <= i < SLOTS ==> SlotOk(tb.slots, i, Used(tb)))
    && tb.current < Used(tb) && tb.slots[tb.current].status == Ready
  }

  const EMPTY: Slot := Slot(0, Free, None, 0, 0, 0, 0, 0, 0, false)

  /** initialize_tasking */
  function Initial(): Table {
    Table(seq(SLOTS, i => if i == 0 then EMPTY.(pid := 1, status := Ready) else EMPTY), 2, 0, 0)
  }

  lemma InitialOk()
    ensures TableInv(Initial())
  {
  }

  // ---- The scheduler ----

  ghost predicate Runnable(ss: seq<Slot>, j: nat) {
    j < |ss| && !ss[j].idle && ss[j].status == Ready
  }

  /** None of the slots at distances i to n is ready without being flagged. */
  ghost predicate NoneRunnable(ss: seq<Slot>, start: nat, i: int, n: int) {
    forall k :: i <= k < n ==> !Runnable(ss, Pos(start, k))
  }

  /** The choice is the nearest unflagged ready slot, at distance d; a flagged slot only if there is none;
      and no choice at all only if there is no flagged slot either. */
  lemma {:induction false} ScanChoice(ss: seq<Slot>, start: nat, i: nat, idle: Option<nat>) returns (d: nat)
    requires |ss| == SLOTS && i <= SLOTS && (idle.Some? ==> idle.value < SLOTS && ss[idle.value].idle)
    ensures var r := Scan(ss, start, i, idle);
            && (r.None? ==> idle == None && NoneRunnable(ss, start, i, SLOTS) && forall k :: i <= k < SLOTS ==> !ss[Pos(start, k)].idle)
            && (r.Some? && ss[r.value].idle ==> NoneRunnable(ss, start, i, SLOTS))
            && (r.Some? && !ss[r.value].idle ==>
                  i <= d < SLOTS && r.value == Pos(start, d) && Runnable(ss, r.value) && NoneRunnable(ss, start, i, d))
    decreases SLOTS - i
  {
    d := i;
    if i < SLOTS {
      var j := Pos(start, i);
      if ss[j].idle {
        d := ScanChoice(ss, start, i + 1, Some(j));
      } else if ss[j].status != Ready {
        d := ScanChoice(ss, start, i + 1, idle);
      }
    }
  }

  /** Every slot is at some distance. */
  lemma Distance(start: nat, j: nat) returns (d: nat)
    requires j < SLOTS
    ensures d < SLOTS && Pos(start, d) == j
  {
    d := (j + SLOTS - start % SLOTS) % SLOTS;
  }

  /** switch_task never chooses a slot that is not ready, as long as flagged slots are ready. */
  lemma SwitchChooses(tb: Table)
    requires |tb.slots| == SLOTS && forall i :: 0 <= i < SLOTS && tb.slots[i].idle ==> tb.slots[i].status == Ready
    ensures Switch(tb).Some? ==>
              var j := Switch(tb).value.current;
              && j < SLOTS && tb.slots[j].status == Ready
              && (tb.slots[j].idle ==> forall i :: 0 <= i < SLOTS ==> !Runnable(tb.slots, i))
    ensures Switch(tb).None? ==> forall i :: 0 <= i < SLOTS ==> tb.slots[i].status != Ready
  {
    hide Scan, Pos;
    var start := tb.current + 1;
    var d := ScanChoice(tb.slots, start, 0, None);
    forall i | 0 <= i < SLOTS && NoneRunnable(tb.slots, start, 0, SLOTS) ensures !Runnable(tb.slots, i) {
      var e := Distance(start, i);
    }
    if Switch(tb).None? {
      forall i | 0 <= i < SLOTS ensures tb.slots[i].status != Ready {
        var e := Distance(start, i);
        assert !Runnable(tb.slots, Pos(start, e));
      }
    }
  }

  /** The slot at distance d is the flagged slot farthest from `start`. */
  ghost predicate LastFlagged(ss: seq<Slot>, start: nat, d: nat) {
    |ss| == SLOTS && d < SLOTS && ss[Pos(start, d)].idle && forall k :: d < k < SLOTS ==> !ss[Pos(start, k)].idle
  }

  /** And has blocked or exited. */
  ghost predicate LastFlaggedStopped(ss: seq<Slot>, start: nat, d: nat) {
    LastFlagged(ss, start, d) && ss[Pos(start, d)].status != Ready
  }

  ghost predicate FallbackStopped(ss: seq<Slot>, start: nat) {
    exists d :: LastFlaggedStopped(ss, start, d)
  }

  /** Past the last flagged slot the search keeps what it has. */
  lemma {:induction false} ScanKeeps(ss: seq<Slot>, start: nat, i: nat, idle: Option<nat>)
    requires |ss| == SLOTS && i <= SLOTS && (idle.Some? ==> idle.value < SLOTS) && NoneRunnable(ss, start, i, SLOTS)
    requires forall k :: i <= k < SLOTS ==> !ss[Pos(start, k)].idle
    ensures Scan(ss, start, i, idle) == idle
    decreases SLOTS - i
  {
    hide Pos;
    PosBound(start);
    if i < SLOTS {
      assert !Runnable(ss, Pos(start, i)) && !ss[Pos(start, i)].idle;
      ScanKeeps(ss, start, i + 1, idle);
    }
  }

  /** When nothing is runnable the search ends with the flagged slot met last. */
  lemma {:induction false} ScanFallback(ss: seq<Slot>, start: nat, i: nat, idle: Option<nat>, d: nat)
    requires |ss| == SLOTS && i <= d && (idle.Some? ==> idle.value < SLOTS)
    requires NoneRunnable(ss, start, i, SLOTS) && LastFlagged(ss, start, d)
    ensures Scan(ss, start, i, idle) == Some(Pos(start, d))
    decreases SLOTS - i
  {
    hide Pos;
    PosBound(start);
    var j := Pos(start, i);
    assert !Runnable(ss, j);
    if i == d {
      ScanKeeps(ss, start, i + 1, Some(j));
    } else {
      ScanFallback(ss, start, i + 1, if ss[j].idle then Some(j) else idle, d);
    }
  }

  lemma {:induction false} LastFlaggedExists(ss: seq<Slot>, start: nat, k: nat) returns (d: nat)
    requires |ss| == SLOTS && k < SLOTS && ss[Pos(start, k)].idle
    ensures k <= d && LastFlagged(ss, start, d)
    decreases SLOTS - k
  {
    if l :| k < l < SLOTS && ss[Pos(start, l)].idle {
      d := LastFlaggedExists(ss, start, l);
    } else {
      d := k;
    }
  }

  ghost predicate NoRunnable(ss: seq<Slot>) {
    forall i :: 0 <= i < |ss| ==> !Runnable(ss, i)
  }

  lemma RunnableSomewhere(ss: seq<Slot>, start: nat)
    requires |ss| == SLOTS
    ensures NoRunnable(ss) <==> NoneRunnable(ss, start, 0, SLOTS)
  {
    hide Pos;
    if NoneRunnable(ss, start, 0, SLOTS) {
      forall i | 0 <= i < |ss| ensures !Runnable(ss, i) {
        var e := Distance(start, i);
      }
    }
    PosBound(start);
  }

  lemma PosBound(start: nat)
    ensures forall k :: 0 <= k < SLOTS ==> Pos(start, k) < SLOTS
  {
  }

  /** Exactly when switch_task runs a slot that is not ready: nothing unflagged is ready, and the flagged slot
      farthest from the current one has blocked or exited. */
  lemma NotReadyChosen(tb: Table)
    requires |tb.slots| == SLOTS
    ensures Switch(tb).Some? && tb.slots[Switch(tb).value.current].status != Ready <==>
            NoRunnable(tb.slots) && FallbackStopped(tb.slots, tb.current + 1)
  {
    hide Scan, Pos;
    var ss, start := tb.slots, tb.current + 1;
    var d := ScanChoice(ss, start, 0, None);
    RunnableSomewhere(ss, start);
    PosBound(start);
    if NoRunnable(ss) {
      if k: nat :| 0 <= k < SLOTS && ss[Pos(start, k)].idle {
        var last := LastFlaggedExists(ss, start, k);
        ScanFallback(ss, start, 0, None, last);
        assert LastFlaggedStopped(ss, start, last) <==> ss[Pos(start, last)].status != Ready;
        forall e | LastFlagged(ss, start, e) ensures e == last {
        }
      } else {
        ScanKeeps(ss, start, 0, None);
      }
    }
  }

  /** It happens: if the first program is named bin/idle and sleeps, it goes on running asleep. */
  lemma IdleRunsAsleep()
    ensures var tb1 := Step(Initial(), Exec(true));
            && tb1.Some? && |tb1.value.slots| == SLOTS && tb1.value.current < SLOTS
            && var tb2 := Step(tb1.value, Sleep(1));
            && tb2.Some? && tb2.value.current == 0 && |tb2.value.slots| == SLOTS && tb2.value.slots[0].status == Sleeping
  {
    hide Scan, Pos;
    var tb1 := Step(Initial(), Exec(true)).value;
    var asleep := SetCurrent(tb1, tb1.slots[0].(sleep := 18, status := Sleeping));
    forall k | 0 <= k < SLOTS ensures Pos(1, k) == if k < 99 then k + 1 else 0 {
      PosValue(1, k);
    }
    assert LastFlagged(asleep.slots, 1, 99);
    ScanFallback(asleep.slots, 1, 0, None, 99);
  }

  // ---- Bounded waiting ----

  /** How far slot i is after slot cur, in the order of the search. */
  function Gap(cur: nat, i: nat): int {
    if i > cur then i - cur - 1 else i + SLOTS - cur - 1
  }

  /** While slot i is ready and unflagged, each switch chooses it or comes strictly nearer to it. */
  lemma SwitchApproaches(tb: Table, i: nat)
    requires |tb.slots| == SLOTS && tb.current < SLOTS && Runnable(tb.slots, i)
    ensures Switch(tb).Some?
    ensures var c := Switch(tb).value.current; c == i || Gap(c, i) < Gap(tb.current, i)
  {
    hide Scan, Pos, Gap;
    var d := ScanChoice(tb.slots, tb.current + 1, 0, None);
    GapIsDistance(tb.current, i);
    if d < Gap(tb.current, i) {
      GapShrinks(tb.current, i, d);
    }
  }

  lemma PosValue(start: nat, d: nat)
    requires start <= SLOTS && d < SLOTS
    ensures Pos(start, d) == if start + d < SLOTS then start + d else start + d - SLOTS
  {
  }

  lemma GapIsDistance(cur: nat, i: nat)
    requires cur < SLOTS && i < SLOTS
    ensures 0 <= Gap(cur, i) < SLOTS && Pos(cur + 1, Gap(cur, i)) == i
  {
    PosValue(cur + 1, Gap(cur, i));
  }

  lemma GapShrinks(cur: nat, i: nat, d: nat)
    requires cur < SLOTS && i < SLOTS && d < Gap(cur, i)
    ensures Gap(Pos(cur + 1, d), i) == Gap(cur, i) - d - 1
  {
    hide Pos;
    PosValue(cur + 1, d);
  }

  /** A run of switch_task calls: the table at each call, with anything done by others in between. */
  ghost predicate Switches(tbs: seq<Table>) {
    && (forall n :: 0 <= n < |tbs| ==> |tbs[n].slots| == SLOTS && tbs[n].current < SLOTS)
    && (forall n :: 0 <= n < |tbs| - 1 ==> Switch(tbs[n]).Some? && tbs[n + 1].current == Switch(tbs[n]).value.current)
  }

  lemma {:induction false} NotChosenNearer(tbs: seq<Table>, i: nat, n: nat)
    requires Switches(tbs) && n < |tbs| && forall m :: 0 <= m < |tbs| ==> Runnable(tbs[m].slots, i)
    requires forall m :: 0 <= m < n ==> Switch(tbs[m]).value.current != i
    ensures Gap(tbs[n].current, i) + n < SLOTS
  {
    if n > 0 {
      NotChosenNearer(tbs, i, n - 1);
      SwitchApproaches(tbs[n - 1], i);
    }
  }

  /** Bounded waiting: a slot that stays ready and unflagged is chosen within 100 calls of switch_task. */
  lemma BoundedWaiting(tbs: seq<Table>, i: nat)
    requires Switches(tbs) && |tbs| == SLOTS + 1 && forall m :: 0 <= m < |tbs| ==> Runnable(tbs[m].slots, i)
    ensures exists n :: 0 <= n < SLOTS && Switch(tbs[n]).value.current == i
  {
    if forall n :: 0 <= n < SLOTS ==> Switch(tbs[n]).value.current != i {
      NotChosenNearer(tbs, i, SLOTS);
    }
  }

  // ---- The invariant ----

  ghost predicate SlotsOk(ss: seq<Slot>, used: int) {
    |ss| == SLOTS && forall i :: 0 <= i < SLOTS ==> SlotOk(ss, i, used)
  }

  /** A slot never becomes free again, a zombie stays one with its status, and a parent is at most forgotten. */
  ghost predicate Lasts(t: Slot, t': Slot) {
    && t'.pid == t.pid && (t.status != Free ==> t'.status != Free)
    && (t.status == Zombie ==> t'.status == Zombie && t'.exitStatus == t.exitStatus)
    && (t'.parent == t.parent || t'.parent == None)
  }

  ghost predicate AllLast(ss: seq<Slot>, ss': seq<Slot>, used: int) {
    |ss'| == |ss| && forall i :: 0 <= i < used && i < |ss| ==> Lasts(ss[i], ss'[i])
  }

  /** A pass of the tick changes slot i, by sleeping or by waking up, and disowns at most one zombie. */
  lemma UpdateAtEffect(ss: seq<Slot>, i: nat)
    requires i < |ss|
    ensures var ss' := UpdateAt(ss, i);
            && |ss'| == |ss|
            && (forall j :: 0 <= j < |ss| && j != i ==>
                  ss'[j] == ss[j] || (ss'[j] == ss[j].(parent := None) && ss[j].status == Zombie))
            && (ss[i].status != Waiting ==> ss' == ss[i := Slept(ss[i])])
            && (ss[i].status == Waiting ==> ss'[i] == ss[i] || (ss'[i].status == Ready && ss'[i] == ss[i].(status := Ready, waitPid := ss'[i].waitPid, waitStatus := ss'[i].waitStatus)))
  {
    hide Search, Children, FindPid;
  }

  lemma UpdateAtKeeps(ss: seq<Slot>, i: nat, used: int)
    requires SlotsOk(ss, used) && i < SLOTS
    ensures SlotsOk(UpdateAt(ss, i), used) && AllLast(ss, UpdateAt(ss, i), used)
  {
    hide UpdateAt;
    UpdateAtEffect(ss, i);
    forall j | 0 <= j < SLOTS ensures SlotOk(UpdateAt(ss, i), j, used) && Lasts(ss[j], UpdateAt(ss, i)[j]) {
      assert SlotOk(ss, j, used);
    }
  }

  lemma AllLastTrans(ss: seq<Slot>, ss1: seq<Slot>, ss2: seq<Slot>, used: int, used1: int)
    requires AllLast(ss, ss1, used) && AllLast(ss1, ss2, used1) && used <= used1
    ensures AllLast(ss, ss2, used)
  {
    forall i | 0 <= i < used && i < |ss| ensures Lasts(ss[i], ss2[i]) {
      assert Lasts(ss[i], ss1[i]) && Lasts(ss1[i], ss2[i]);
    }
  }

  lemma {:induction false} UpdatedKeeps(ss: seq<Slot>, n: nat, used: int)
    requires SlotsOk(ss, used) && n <= SLOTS
    ensures SlotsOk(Updated(ss, n), used) && AllLast(ss, Updated(ss, n), used)
    decreases n
  {
    hide UpdateAt, SlotOk;
    if n > 0 {
      UpdatedKeeps(ss, n - 1, used);
      UpdateAtKeeps(Updated(ss, n - 1), n - 1, used);
      AllLastTrans(ss, Updated(ss, n - 1), Updated(ss, n), used, used);
    }
  }

  /** Replacing the current slot. */
  lemma SetCurrentKeeps(tb: Table, t: Slot)
    requires TableInv(tb) && t.status != Free && t.pid == tb.slots[tb.current].pid && t.parent == tb.slots[tb.current].parent
    requires (t.idle ==> t.status == Ready) && (t.status != Zombie ==> t.endTime == 0)
    ensures SlotsOk(SetCurrent(tb, t).slots, Used(tb)) && AllLast(tb.slots, SetCurrent(tb, t).slots, Used(tb))
  {
    var ss' := SetCurrent(tb, t).slots;
    forall j | 0 <= j < SLOTS ensures SlotOk(ss', j, Used(tb)) && Lasts(tb.slots[j], ss'[j]) {
      assert SlotOk(tb.slots, j, Used(tb));
    }
  }

  lemma SwitchKeeps(tb: Table)
    requires SlotsOk(tb.slots, Used(tb)) && 1 <= Used(tb) <= SLOTS && Switch(tb).Some?
    ensures TableInv(Switch(tb).value) && Switch(tb).value.slots == tb.slots && Used(Switch(tb).value) == Used(tb)
    ensures Switch(tb).value.tick == tb.tick
  {
    hide Scan;
    forall i | 0 <= i < SLOTS && tb.slots[i].idle ensures tb.slots[i].status == Ready {
      assert SlotOk(tb.slots, i, Used(tb));
    }
    SwitchChooses(tb);
    assert SlotOk(tb.slots, Switch(tb).value.current, Used(tb));
  }

  lemma ForkKeeps(tb: Table)
    requires TableInv(tb) && ForkStep(tb).Some?
    ensures TableInv(ForkStep(tb).value) && AllLast(tb.slots, ForkStep(tb).value.slots, Used(tb))
    ensures Used(ForkStep(tb).value) == Used(tb) + 1
    ensures ForkStep(tb).value.slots[Used(tb)].parent == Some(tb.current)
  {
    hide FirstFree;
    var f := FirstFree(tb.slots, 0).value;
    assert f == Used(tb) by {
      assert SlotOk(tb.slots, f, Used(tb));
      assert Used(tb) < SLOTS ==> SlotOk(tb.slots, Used(tb), Used(tb));
    }
    var tb' := ForkStep(tb).value;
    forall j | 0 <= j < SLOTS ensures SlotOk(tb'.slots, j, Used(tb')) {
      assert SlotOk(tb.slots, j, Used(tb));
      assert SlotOk(tb.slots, tb.current, Used(tb));
    }
  }

  /** tb' comes after tb: no slot lost, none changed but as Lasts says. */
  ghost predicate Later(tb: Table, tb': Table) {
    Used(tb) <= Used(tb') && tb.tick <= tb'.tick && AllLast(tb.slots, tb'.slots, Used(tb))
  }

  lemma StepKeeps(tb: Table, op: Op)
    requires TableInv(tb) && Allowed(tb, op) && Step(tb, op).Some?
    ensures TableInv(Step(tb, op).value) && Later(tb, Step(tb, op).value)
  {
    hide Switch, Updated, AllLast;
    var me := tb.slots[tb.current];
    assert SlotOk(tb.slots, tb.current, Used(tb));
    match op
    case Fork => ForkKeeps(tb);
    case Exec(idle) => SetCurrentKeeps(tb, me.(idle := idle));
    case Exit(status) =>
      SetCurrentKeeps(tb, me.(exitStatus := status, status := Zombie, endTime := tb.tick));
      SwitchKeeps(SetCurrent(tb, me.(exitStatus := status, status := Zombie, endTime := tb.tick)));
    case Sleep(time) =>
      SetCurrentKeeps(tb, me.(sleep := time * 18 % WORD32, status := Sleeping));
      SwitchKeeps(SetCurrent(tb, me.(sleep := time * 18 % WORD32, status := Sleeping)));
    case Wait(pid) =>
      SetCurrentKeeps(tb, me.(status := Waiting, waitPid := pid, timeAtWait := tb.tick));
      SwitchKeeps(SetCurrent(tb, me.(status := Waiting, waitPid := pid, timeAtWait := tb.tick)));
    case Tick =>
      UpdatedKeeps(tb.slots, SLOTS, Used(tb));
      SwitchKeeps(tb.(tick := tb.tick + 1, slots := Updated(tb.slots, SLOTS)));
  }

  // ---- Runs ----

  /** The states after each step; none once a step hangs or an idle program misbehaves. */
  function Run(tb: Table, ops: seq<Op>): Option<Table> {
    if ops == [] then Some(tb)
    else
      var tb1 :- Run(tb, ops[..|ops| - 1]);
      var op := ops[|ops| - 1];
      if |tb1.slots| == SLOTS && tb1.current < SLOTS && Allowed(tb1, op) then Step(tb1, op) else None
  }

  /** Over every run the table is in order, and what was so stays so. */
  lemma {:induction false} RunKeeps(tb: Table, ops: seq<Op>)
    requires TableInv(tb) && Run(tb, ops).Some?
    ensures TableInv(Run(tb, ops).value) && Later(tb, Run(tb, ops).value)
    decreases |ops|
  {
    hide TableInv, Step, Lasts;
    if ops == [] {
      LaterSelf(tb);
    } else {
      RunKeeps(tb, ops[..|ops| - 1]);
      var tb1 := Run(tb, ops[..|ops| - 1]).value;
      StepKeeps(tb1, ops[|ops| - 1]);
      AllLastTrans(tb.slots, tb1.slots, Run(tb, ops).value.slots, Used(tb), Used(tb1));
    }
  }

  lemma LaterSelf(tb: Table)
    ensures Later(tb, tb)
  {
  }
}
