/**
 The scheduler of one CPU over process objects and the linked run queue. Every
 operation does to the processes what the value model says, and keeps the queue
 holding exactly the ready tasks and the sleeper counter exact.
 */
module Scheduler {
  import opened Common
  import opened SchedModel
  import opened SchedLife
  import opened RunQueue

  function TaskOf(p: Process): Task
    reads p
  {
    Task(p.vruntime, p.state, p.priority, p.isIdle, p.sleepUntil)
  }

  ghost function TasksOf(procs: map<nat, Process>): map<nat, Task>
    reads procs.Values
  {
    map p | p in procs :: TaskOf(procs[p])
  }

  /** The table is keyed by pid and the queue links only processes of the table. */
  ghost predicate Filed(procs: map<nat, Process>, list: seq<Process>)
    reads procs.Values`onRq
  {
    && (forall p :: p in procs ==> procs[p].pid == p)
    && (forall q :: q in list ==> q.pid in procs && procs[q.pid] == q)
    && (forall p :: p in procs ==> (procs[p].onRq <==> procs[p] in list))
  }

  /** Apart from `out`, the queue holds exactly the ready tasks other than idle. */
  ghost predicate Exact(procs: map<nat, Process>, out: set<nat>)
    reads procs.Values
  {
    forall p :: p in procs && p !in out ==> (procs[p].onRq <==> Queued(TaskOf(procs[p])))
  }

  lemma ListInTable(procs: map<nat, Process>, list: seq<Process>)
    requires Filed(procs, list)
    ensures forall q :: q in list ==> q in procs.Values
  {
    forall q | q in list ensures q in procs.Values {
      assert procs[q.pid] == q;
    }
  }

  lemma ExactBut(procs: map<nat, Process>, p: nat)
    requires Exact(procs, {})
    ensures Exact(procs, {p})
  {
  }

  class Scheduler {
    const rq: RunQueue
    const idlePid: nat
    var procs: map<nat, Process>
    var current: nat
    var minVr: nat
    var sleepers: nat
    var nextPid: nat

    ghost function View(): Cpu
      reads this, procs.Values
    {
      Cpu(TasksOf(procs), current, minVr, idlePid, sleepers, nextPid)
    }

    ghost predicate Base()
      reads this`procs, rq, rq.list, procs.Values
    {
      rq.Valid() && Filed(procs, rq.list)
    }

    ghost predicate Valid()
      reads this, rq, rq.list, procs.Values
    {
      Base() && Exact(procs, {}) && Sane(View()) && IdleAwake(View())
    }

    /** Only idle, running. */
    constructor (pid: nat)
      ensures Valid() && View() == Cpu(map[pid := Task(0, Running, 0, true, 0)], pid, 0, pid, 0, pid + 1) && OneRunner(View())
    {
      hide Sane, IdleAwake, RunQueue.Valid;
      var idle := new Process(pid, true, 0, 0, Running);
      rq := new RunQueue();
      idlePid, procs, current, minVr, sleepers, nextPid := pid, map[pid := idle], pid, 0, 0, pid + 1;
      new;
      assert TasksOf(procs) == map[pid := Task(0, Running, 0, true, 0)];
      IdleOnly(pid);
    }

    /** The flat index: empty past its end. */
    method Index(pid: nat) returns (p: Process?)
      requires Valid()
      ensures p != null <==> Known(View(), pid)
      ensures p != null ==> pid in procs && p == procs[pid] && p in procs.Values
      ensures p != null ==> p.pid == pid && (p.onRq <==> Queued(TaskOf(p))) && View().tasks[pid] == TaskOf(p)
      ensures p != null && p.isIdle ==> !p.state.Sleeping? && !p.state.Blocked?
    {
      hide RunQueue.Valid, Sane;
      p := if pid < MAX_PROCS && pid in procs then procs[pid] else null;
    }

    /** Put a task that has just become ready on the queue. */
    method Enqueue(p: Process)
      requires Base() && Exact(procs, {p.pid}) && p.pid in procs && procs[p.pid] == p && Queued(TaskOf(p)) && !p.onRq
      modifies rq, procs.Values`rqNext, procs.Values`onRq
      ensures Base() && Exact(procs, {}) && View() == old(View())
    {
      hide RunQueue.Valid;
      ListInTable(procs, rq.list);
      rq.Push(p);
    }

    /** Change one task that is not on the queue. */
    method Alter(p: Process, vr: nat, state: State, until: nat)
      requires Base() && Exact(procs, {p.pid}) && p.pid in procs && procs[p.pid] == p && !p.onRq
      modifies p`vruntime, p`state, p`sleepUntil
      ensures Base() && Exact(procs, {p.pid}) && !p.onRq && TaskOf(p) == Task(vr, state, p.priority, p.isIdle, until)
      ensures View() == Put(old(View()), p.pid, TaskOf(p))
      ensures !Queued(TaskOf(p)) ==> Exact(procs, {})
    {
      hide RunQueue.Valid;
      p.vruntime, p.state, p.sleepUntil := vr, state, until;
    }

    /** Take the running task out of the running, wherever it is; the queue then lies only if it was queued. */
    method Wait(p: Process, state: State, until: nat)
      requires Base() && Exact(procs, {}) && p.pid in procs && procs[p.pid] == p && !state.Ready?
      modifies p`state, p`sleepUntil
      ensures Base() && (Exact(procs, {}) <==> !old(Queued(TaskOf(p))))
      ensures View() == Put(old(View()), p.pid, old(TaskOf(p)).(state := state, until := until))
    {
      hide RunQueue.Valid;
      p.state, p.sleepUntil := state, until;
      assert Exact(procs, {}) ==> (procs[p.pid].onRq <==> Queued(TaskOf(procs[p.pid])));
    }

    /** `yield_now` up to the switch: one slice is charged before the task queues again. */
    method Yield()
      requires Valid()
      modifies this, rq, procs.Values
      ensures Valid() && procs == old(procs) && View() == Next(old(View()), DoYield)
    {
      hide RunQueue.Valid, Slice, Sane, IdleAwake, Base, Exact, TasksOf;
      StepKeeps(View(), DoYield);
      var p := Index(current);
      if p != null && p.state.Running? && !p.isIdle {
        ExactBut(procs, p.pid);
        Alter(p, Max(p.vruntime, minVr) + Slice(p.priority), Ready, p.sleepUntil);
        Enqueue(p);
      }
    }

    /** `sleep` up to the switch: everything stays exact unless idle itself, or a task that is queued, goes to sleep. */
    method Sleep(until: nat)
      requires Valid()
      modifies this, rq, procs.Values
      ensures procs == old(procs) && View() == Next(old(View()), DoSleep(until))
      ensures Valid() <==> Enabled(old(View()), DoSleep(until))
    {
      hide RunQueue.Valid, Sane, IdleAwake, Base, Exact, TasksOf;
      WaitingBreaks(View(), DoSleep(until));
      var p := Index(current);
      if p != null {
        if !p.state.Sleeping? { sleepers := sleepers + 1; }
        Wait(p, Sleeping, until);
      }
    }

    /** `block_current` up to the switch. */
    method Block()
      requires Valid()
      modifies this, rq, procs.Values
      ensures procs == old(procs) && View() == Next(old(View()), DoBlock)
      ensures Valid() <==> Enabled(old(View()), DoBlock)
    {
      hide RunQueue.Valid, Sane, IdleAwake, Base, Exact, TasksOf;
      WaitingBreaks(View(), DoBlock);
      var p := Index(current);
      if p != null {
        Wait(p, Blocked, p.sleepUntil);
      }
    }

    /** `wakeup`. */
    method Wake(pid: nat)
      requires Valid()
      modifies this, rq, procs.Values
      ensures Valid() && procs == old(procs) && View() == Next(old(View()), DoWake(pid))
    {
      hide RunQueue.Valid, Sane, IdleAwake, Base, Exact, TasksOf;
      StepKeeps(View(), DoWake(pid));
      var p := Index(pid);
      if p != null && (p.state.Sleeping? || p.state.Blocked?) {
        if p.state.Sleeping? && sleepers > 0 { sleepers := sleepers - 1; }
        ExactBut(procs, p.pid);
        Alter(p, Max(p.vruntime, minVr), Ready, p.sleepUntil);
        Enqueue(p);
      }
    }

    /** `kill_with_code`: dead, and off the queue. */
    method Stop(pid: nat)
      requires Valid()
      modifies this, rq, procs.Values
      ensures Valid() && procs == old(procs) && View() == Next(old(View()), DoKill(pid))
      ensures if Known(old(View()), pid) then Killed(old(View()), View(), pid) else View() == old(View())
    {
      hide RunQueue.Valid, Sane, IdleAwake, Base, Exact, TasksOf;
      StepKeeps(View(), DoKill(pid));
      KillMeans(View(), pid);
      var p := Index(pid);
      if p != null {
        if p.state.Sleeping? && sleepers > 0 { sleepers := sleepers - 1; }
        Dequeue(p);
        Alter(p, p.vruntime, Dead, p.sleepUntil);
      }
    }

    /** Off the queue, if it was on it. */
    method Dequeue(p: Process)
      requires Base() && Exact(procs, {}) && p.pid in procs && procs[p.pid] == p
      modifies rq, procs.Values`rqNext, procs.Values`onRq
      ensures Base() && Exact(procs, {p.pid}) && View() == old(View()) && !p.onRq
    {
      hide RunQueue.Valid, Queued;
      ListInTable(procs, rq.list);
      var removed := rq.Remove(p.pid);
    }

    /** `add_process`. */
    method Start(pid: nat, prio: nat)
      requires Valid() && Enabled(View(), DoSpawn(pid, prio))
      modifies this, rq, procs.Values
      ensures Valid() && View() == Next(old(View()), DoSpawn(pid, prio))
      ensures forall p :: p in procs.Values ==> p in old(procs.Values) || fresh(p)
    {
      hide RunQueue.Valid, Sane, IdleAwake, Base, Exact;
      StepKeeps(View(), DoSpawn(pid, prio));
      var p := new Process(pid, false, prio, minVr, Ready);
      Register(p);
      nextPid := Max(nextPid, pid + 1);
      Enqueue(p);
    }

    method Register(p: Process)
      requires Base() && Exact(procs, {}) && p.pid !in procs && p !in procs.Values && !p.onRq
      modifies this`procs
      ensures Base() && procs == old(procs)[p.pid := p] && Exact(procs, {p.pid})
      ensures forall q :: q in procs.Values ==> q in old(procs.Values) || q == p
      ensures View() == Put(old(View()), p.pid, TaskOf(p))
    {
      hide RunQueue.Valid;
      ListInTable(procs, rq.list);
      procs := procs[p.pid := p];
    }

    /** Charge the running task for its slice and see whether it must give way. */
    method ChargeCurrent() returns (need: bool)
      requires Valid()
      modifies this, rq, procs.Values
      ensures Valid() && procs == old(procs) && (View(), need) == Charge(old(View()))
    {
      hide RunQueue.Valid, Slice, Sane, IdleAwake, Base, Exact, TasksOf, Pick, AnyQueued;
      ghost var c := View();
      ChargeKeeps(c);
      ChargeIdle(c);
      HeadIsPick();
      var p := Index(current);
      if p == null || !p.state.Running? {
        return true;
      }
      ExactBut(procs, p.pid);
      if p.isIdle {
        need := rq.HasNonIdle();
        AllNonIdle();
        if need {
          Alter(p, p.vruntime, Ready, p.sleepUntil);
        }
        return;
      }
      var peek := rq.PeekMinVr();
      var vr := p.vruntime + Slice(p.priority);
      need := peek >= 0 && vr > peek;
      Alter(p, vr, if need then Ready else Running, p.sleepUntil);
      if need {
        Enqueue(p);
      }
    }

    /** `wake_sleepers_isr`: the scan, skipped when the counter says nobody sleeps. */
    method WakeSleepers(tick: nat)
      requires Valid()
      modifies this, rq, procs.Values
      ensures Valid() && procs == old(procs) && View() == WakeBelow(old(View()), tick, ScanLimit(old(View())))
    {
      hide RunQueue.Valid, Base, Exact, TasksOf, WakeBelow, IdleAwake, Counted, Numbered, WakeOne;
      ghost var c := View();
      if sleepers == 0 {
        NoSleepersNoWake(c, tick, ScanLimit(c));
        return;
      }
      var max := if nextPid < MAX_PROCS then nextPid else MAX_PROCS;
      WakeBelowZero(c, tick);
      for i := 0 to max
        invariant Valid() && procs == old(procs) && View() == WakeBelow(c, tick, i)
      {
        WakeBelowNext(c, tick, i);
        WakeIfDue(i, tick);
      }
    }

    method WakeIfDue(i: nat, tick: nat)
      requires Valid() && i < MAX_PROCS
      modifies this, rq, procs.Values
      ensures Valid() && procs == old(procs) && View() == WakeOne(old(View()), i, tick)
    {
      hide RunQueue.Valid, Base, Exact, TasksOf, IdleAwake, Counted, Numbered;
      WakeOneKeeps(View(), i, tick);
      var p := Index(i);
      if p != null && p.state.Sleeping? && p.sleepUntil <= tick {
        SleeperCounted(View(), i);
        sleepers := sleepers - 1;
        ExactBut(procs, p.pid);
        Alter(p, Max(p.vruntime, minVr), Ready, p.sleepUntil);
        Enqueue(p);
      }
    }

    /** Hand the CPU over. */
    method DispatchNext()
      requires Valid()
      modifies this, rq, procs.Values
      ensures Valid() && procs == old(procs) && View() == Dispatch(old(View()))
    {
      hide RunQueue.Valid, Base, Exact, TasksOf, Sane, IdleAwake, Pick, AnyQueued, First;
      ghost var c := View();
      DispatchKeeps(c);
      var p := TakeFirst();
      if p == null {
        p := Index(idlePid);
        if p == null || p.state.Running? {
          return;
        }
        IdleIsIdle(c);
        ExactBut(procs, p.pid);
      }
      Alter(p, p.vruntime, Running, p.sleepUntil);
      minVr := Max(minVr, p.vruntime);
      current := p.pid;
    }

    /** The least ready task, off the queue. */
    method TakeFirst() returns (p: Process?)
      requires Valid()
      modifies rq, procs.Values`rqNext, procs.Values`onRq
      ensures View() == old(View()) && Base() && (p == null <==> !AnyQueued(View().tasks))
      ensures p == null ==> Valid()
      ensures p != null ==>
        && p.pid in procs && procs[p.pid] == p && !p.onRq && p.pid == Pick(View().tasks)
        && Exact(procs, {p.pid}) && p.pid in View().tasks && View().tasks[p.pid] == TaskOf(p)
    {
      hide RunQueue.Valid, Sane, IdleAwake, Pick, AnyQueued;
      HeadIsPick();
      ListInTable(procs, rq.list);
      assert rq.list != [] ==> procs[rq.list[0].pid] == rq.list[0];
      p := rq.PopMin();
    }

    /** `schedule_from_isr`. */
    method Schedule(tick: nat)
      requires Valid()
      modifies this, rq, procs.Values
      ensures Valid() && procs == old(procs) && View() == Next(old(View()), DoTick(tick))
    {
      hide RunQueue.Valid, Base, Exact, TasksOf, Sane, IdleAwake, Charge, WakeBelow, Dispatch, ScanLimit;
      var need := ChargeCurrent();
      WakeSleepers(tick);
      if need {
        DispatchNext();
      }
    }

    /** Any interleaving of spawns, ticks, yields, sleeps, blocks, wake-ups and kills. */
    method Run(steps: seq<Step>)
      requires Valid() && Runnable(View(), steps)
      modifies this, rq, procs.Values
      ensures Valid() && View() == After(old(View()), steps)
    {
      hide RunQueue.Valid, Base, Exact, TasksOf, Sane, IdleAwake, Next, Enabled;
      ghost var c := View();
      for n := 0 to |steps|
        invariant Valid() && View() == After(c, steps[..n])
        invariant forall p :: p in procs.Values ==> p in old(procs.Values) || fresh(p)
      {
        assert steps[..n + 1][..n] == steps[..n];
        Perform(steps[n]);
      }
      assert steps[..|steps|] == steps;
    }

    method Perform(s: Step)
      requires Valid() && Enabled(View(), s)
      modifies this, rq, procs.Values
      ensures Valid() && View() == Next(old(View()), s)
      ensures forall p :: p in procs.Values ==> p in old(procs.Values) || fresh(p)
    {
      hide RunQueue.Valid, Base, Exact, TasksOf, Sane, IdleAwake, Next;
      match s
      case DoSpawn(pid, prio) => Start(pid, prio);
      case DoTick(tick) => Schedule(tick);
      case DoYield => Yield();
      case DoSleep(until) => Sleep(until);
      case DoBlock => Block();
      case DoWake(pid) => Wake(pid);
      case DoKill(pid) => Stop(pid);
    }

    /** What validity says: the list is strictly sorted with the right ends and length, holds every ready
        task but idle and nothing else, and the sleeper counter is exact. */
    lemma QueueIsExact()
      requires Valid()
      ensures rq.len == |rq.list| && Sorted(rq.list) && Linked(rq.list)
      ensures rq.head == (if rq.list == [] then null else rq.list[0])
      ensures rq.tail == if rq.list == [] then null else rq.list[|rq.list| - 1]
      ensures forall q :: q in rq.list <==> q in procs.Values && q.state.Ready? && !q.isIdle
      ensures sleepers == |set p | p in procs && procs[p].state.Sleeping?|
    {
      hide IdleAwake, Sorted, Linked;
      forall q ensures q in rq.list <==> q in procs.Values && q.state.Ready? && !q.isIdle {
        if q in rq.list {
          assert procs[q.pid] == q;
        }
      }
      assert Sleepers(View().tasks) == set p | p in procs && procs[p].state.Sleeping?;
    }

    /** The head of the queue is the task the value model picks. */
    lemma HeadIsPick()
      requires Valid()
      ensures rq.Valid() && (rq.list == [] <==> !AnyQueued(View().tasks))
      ensures rq.list != [] ==> rq.list[0].pid == Pick(View().tasks) && View().tasks[rq.list[0].pid].vr == rq.list[0].vruntime
    {
      hide Sane, IdleAwake;
      var tasks := View().tasks;
      forall p | p in procs ensures Queued(tasks[p]) <==> procs[p] in rq.list {
      }
      if rq.list != [] {
        var h := rq.list[0];
        assert procs[h.pid] == h;
        forall q | q in tasks && Queued(tasks[q]) && q != h.pid ensures KeyLt(tasks[h.pid].vr, h.pid, tasks[q].vr, q) {
          assert procs[q] in rq.list;
          var j :| 0 <= j < |rq.list| && rq.list[j] == procs[q];
          assert Before(rq.list[0], rq.list[j]);
        }
        FirstUnique(tasks, h.pid);
      }
    }

    lemma AllNonIdle()
      requires Valid()
      ensures (exists q :: q in rq.list && !q.isIdle) <==> rq.list != []
    {
      hide Sane, IdleAwake, RunQueue.Valid;
      if rq.list != [] {
        var h := rq.list[0];
        assert h in rq.list && procs[h.pid] == h;
      }
    }
  }

  lemma IdleOnly(pid: nat)
    ensures var c := Cpu(map[pid := Task(0, Running, 0, true, 0)], pid, 0, pid, 0, pid + 1); Sane(c) && IdleAwake(c)
  {
    assert Sleepers(map[pid := Task(0, Running, 0, true, 0)]) == {};
  }

  lemma WakeBelowZero(c: Cpu, tick: nat)
    ensures WakeBelow(c, tick, 0) == c
  {
  }

  lemma WakeBelowNext(c: Cpu, tick: nat, n: nat)
    ensures WakeBelow(c, tick, n + 1) == WakeOne(WakeBelow(c, tick, n), n, tick)
  {
  }

  lemma WakeOneKeeps(c: Cpu, pid: nat, tick: nat)
    requires Sane(c) && IdleAwake(c)
    ensures Sane(WakeOne(c, pid, tick)) && IdleAwake(WakeOne(c, pid, tick))
  {
    WakeOneCounted(c, pid, tick);
    hide Counted;
  }

  lemma IdleIsIdle(c: Cpu)
    requires IdleAwake(c)
    ensures c.idlePid in c.tasks && c.tasks[c.idlePid].idle
  {
  }
}
