/**
 The process table as the kernel holds it: an array of slots updated in place, with `next`
 links that get_children rewrites (sys/task.c, sys/scheduler.c and the system calls).
 Each method is tied to the step of the process table that it performs.
 */
module Scheduler {
  import opened Options
  import opened Processes
  import opened ProcessRuns
  import opened Waiting

  /** The slots reached from `head` along `next` are those of the list, and the chain ends. */
  ghost predicate Chain(next: seq<Option<nat>>, head: Option<nat>, list: seq<nat>)
    decreases |list|
  {
    if list == [] then head == None
    else head == Some(list[0]) && list[0] < |next| && Chain(next, next[list[0]], list[1..])
  }

  /** Rewriting the link of a slot outside the list leaves the chain. */
  lemma {:induction false} ChainKept(next: seq<Option<nat>>, head: Option<nat>, list: seq<nat>, i: nat, v: Option<nat>)
    requires Chain(next, head, list) && i < |next| && i !in list
    ensures Chain(next[i := v], head, list)
    decreases |list|
  {
    if list != [] {
      ChainKept(next, next[list[0]], list[1..], i, v);
    }
  }

  class ReadyQueue {
    const slots: array<Slot>
    const next: array<Option<nat>>
    var nextPid: nat
    var current: nat
    var tick: nat

    ghost predicate Valid()
      reads this, slots, next
    {
      slots.Length == SLOTS && next.Length == SLOTS && TableInv(Tb())
    }

    ghost function Tb(): Table
      reads this, slots
    {
      Table(slots[..], nextPid, current, tick)
    }

    /** initialize_tasking */
    constructor ()
      ensures Valid() && Tb() == Initial() && fresh(slots) && fresh(next)
    {
      slots := new Slot[SLOTS](i => if i == 0 then EMPTY.(pid := 1, status := Ready) else EMPTY);
      next := new Option<nat>[SLOTS](_ => None);
      nextPid, current, tick := 2, 0, 0;
      new;
      assert slots[..] == Initial().slots;
      InitialOk();
    }

    method GetNextReadyTask() returns (r: Option<nat>)
      requires slots.Length == SLOTS
      ensures r == Scan(slots[..], current + 1, 0, None)
    {
      var idle: Option<nat> := None;
      var i := 0;
      while i < SLOTS
        invariant i <= SLOTS && (idle.Some? ==> idle.value < SLOTS)
        invariant Scan(slots[..], current + 1, 0, None) == Scan(slots[..], current + 1, i, idle)
      {
        var j := (current + 1 + i) % SLOTS;
        if slots[j].idle {
          idle := Some(j);
        } else if slots[j].status == Ready {
          return Some(j);
        }
        i := i + 1;
      }
      return idle;
    }

    method GetNextFreeTask() returns (r: Option<nat>)
      ensures r == FirstFree(slots[..], 0)
    {
      var i := 0;
      while i < slots.Length
        invariant i <= slots.Length && FirstFree(slots[..], 0) == FirstFree(slots[..], i)
      {
        if slots[i].status == Free {
          return Some(i);
        }
        i := i + 1;
      }
      return None;
    }

    method GetTask(pid: nat) returns (r: Option<nat>)
      ensures r == FindPid(slots[..], pid, 0)
    {
      var i := 0;
      while i < slots.Length
        invariant i <= slots.Length && FindPid(slots[..], pid, 0) == FindPid(slots[..], pid, i)
      {
        if slots[i].pid == pid {
          return Some(i);
        }
        i := i + 1;
      }
      return None;
    }

    /** get_children: whatever links earlier calls left, the chain from the result is the list of the children. */
    method GetChildren(pid: nat) returns (head: Option<nat>)
      requires slots.Length == next.Length
      modifies next
      ensures Chain(next[..], head, Children(slots[..], pid, slots.Length))
    {
      head := None;
      var i := 0;
      while i < slots.Length
        invariant i <= slots.Length
        invariant Chain(next[..], head, Children(slots[..], pid, i))
      {
        if slots[i].parent.Some? && slots[i].parent.value < slots.Length && slots[slots[i].parent.value].pid == pid {
          ghost var list := Children(slots[..], pid, i);
          ChildrenSpec(slots[..], pid, i);
          ChainKept(next[..], head, list, i, head);
          ghost var next' := next[..][i := head];
          next[i] := head;
          assert next[..] == next';
          head := Some(i);
          assert ([i] + list)[1..] == list;
        }
        i := i + 1;
      }
    }

    /** The slot that waiting slot i looks at; the search along the links ends. */
    method FindWaited(i: nat) returns (w: Option<nat>)
      requires slots.Length == next.Length && i < slots.Length
      modifies next
      ensures w == WaitedFor(slots[..], i)
    {
      if slots[i].waitPid == ANY {
        w := GetChildren(slots[i].pid);
        ghost var list := Children(slots[..], slots[i].pid, slots.Length);
        while w.Some? && slots[w.value].status != Zombie && slots[w.value].endTime > slots[i].timeAtWait
          invariant w.Some? ==> w.value < slots.Length
          invariant Chain(next[..], w, list)
          invariant WaitedFor(slots[..], i) == Search(slots[..], list, slots[i].timeAtWait)
          decreases |list|
        {
          w := next[w.value];
          list := list[1..];
          assert list != [] ==> w == Some(list[0]);
        }
      } else {
        w := GetTask(slots[i].waitPid);
      }
    }

    method UpdateWaitingAndSleepingTasks()
      requires slots.Length == SLOTS && next.Length == SLOTS
      modifies slots, next
      ensures slots[..] == Updated(old(slots[..]), SLOTS)
    {
      ghost var ss := slots[..];
      var i := 0;
      while i < SLOTS
        invariant i <= SLOTS && slots[..] == Updated(ss, i)
      {
        ghost var now := slots[..];
        if slots[i].status == Sleeping {
          slots[i] := slots[i].(sleep := slots[i].sleep - 1);
          if slots[i].sleep <= 0 {
            slots[i] := slots[i].(sleep := 0, status := Ready);
          }
        }
        ghost var slept := slots[..];
        assert slept == now[i := Slept(now[i])];
        if slots[i].status == Waiting {
          var w := FindWaited(i);
          if w.Some? && w.value < SLOTS && slots[w.value].status == Zombie {
            slots[i] := slots[i].(waitPid := slots[w.value].pid, status := Ready, waitStatus := slots[w.value].exitStatus);
            slots[w.value] := slots[w.value].(parent := None);
            assert slots[..] == Deliver(slept, i, w.value);
          }
        }
        assert slots[..] == UpdateAt(now, i);
        i := i + 1;
      }
    }

    /** switch_task, as far as it chooses; false when the kernel spins for ever. */
    method SwitchTask() returns (ok: bool)
      requires slots.Length == SLOTS
      modifies this`current
      ensures ok == Switch(old(Tb())).Some?
      ensures ok ==> Some(Tb()) == Switch(old(Tb()))
    {
      hide Scan;
      var j := GetNextReadyTask();
      if j.None? {
        return false;
      }
      current := j.value;
      ok := true;
    }

    /** kfork, as far as the process table goes. */
    method Kfork() returns (ok: bool)
      requires Valid()
      modifies this`nextPid, slots
      ensures ok == Step(old(Tb()), Fork).Some?
      ensures ok ==> Valid() && Some(Tb()) == Step(old(Tb()), Fork)
    {
      ghost var tb := Tb();
      var f := GetNextFreeTask();
      if f.None? {
        return false;
      }
      slots[f.value] := slots[f.value].(pid := nextPid, status := Ready, parent := Some(current), idle := slots[current].idle);
      nextPid := nextPid + 1;
      assert Some(Tb()) == Step(tb, Fork);
      ForkKeeps(tb);
      ok := true;
    }

    /** Replace the record of the current task and give up the processor. */
    method Yield(t: Slot, ghost op: Op) returns (ok: bool)
      requires Valid() && (op.Exit? || op.Sleep? || op.Wait?)
      requires Step(Tb(), op) == Switch(SetCurrent(Tb(), t))
      modifies this`current, slots
      ensures ok == Step(old(Tb()), op).Some?
      ensures ok ==> Some(Tb()) == Step(old(Tb()), op)
      ensures ok && Allowed(old(Tb()), op) ==> Valid()
    {
      ghost var tb := Tb();
      slots[current] := t;
      assert slots[..] == SetCurrent(tb, t).slots;
      ok := SwitchTask();
      if ok && Allowed(tb, op) {
        StepKeeps(tb, op);
      }
    }

    method Kexit(status: nat) returns (ok: bool)
      requires Valid()
      modifies this`current, slots
      ensures ok == Step(old(Tb()), Op.Exit(status)).Some?
      ensures ok ==> Some(Tb()) == Step(old(Tb()), Op.Exit(status))
      ensures ok && Allowed(old(Tb()), Op.Exit(status)) ==> Valid()
    {
      ok := Yield(slots[current].(exitStatus := status, status := Zombie, endTime := tick), Op.Exit(status));
    }

    method Ksleep(time: nat) returns (ok: bool)
      requires Valid()
      modifies this`current, slots
      ensures ok == Step(old(Tb()), Op.Sleep(time)).Some?
      ensures ok ==> Some(Tb()) == Step(old(Tb()), Op.Sleep(time))
      ensures ok && Allowed(old(Tb()), Op.Sleep(time)) ==> Valid()
    {
      ok := Yield(slots[current].(sleep := time * 18 % WORD32, status := Sleeping), Op.Sleep(time));
    }

    /** kwaitpid up to the switch; what it returns later is in the waiter's slot. */
    method Kwaitpid(pid: nat) returns (ok: bool)
      requires Valid()
      modifies this`current, slots
      ensures ok == Step(old(Tb()), Op.Wait(pid)).Some?
      ensures ok ==> Some(Tb()) == Step(old(Tb()), Op.Wait(pid))
      ensures ok && Allowed(old(Tb()), Op.Wait(pid)) ==> Valid()
    {
      ok := Yield(slots[current].(status := Waiting, waitPid := pid, timeAtWait := tick), Op.Wait(pid));
    }

    /** timer_handler */
    method TimerHandler() returns (ok: bool)
      requires Valid()
      modifies this`current, this`tick, slots, next
      ensures ok == Step(old(Tb()), Tick).Some?
      ensures ok ==> Valid() && Some(Tb()) == Step(old(Tb()), Tick)
    {
      hide Scan, Updated, SlotOk;
      ghost var tb := Tb();
      tick := tick + 1;
      UpdateWaitingAndSleepingTasks();
      ok := SwitchTask();
      if ok {
        StepKeeps(tb, Tick);
      }
    }
  }
}
