/**
 The one-CPU scheduler as values: tasks with their virtual runtimes, the steps
 that change them, and what those steps keep. The run queue does not appear:
 it is the set of ready tasks, and the next one to run is the least of them.
 */
module SchedModel {
  import opened Common

  datatype State = Ready | Running | Sleeping | Blocked | Dead

  datatype Task = Task(vr: nat, state: State, prio: nat, idle: bool, until: nat)

  /** `next` is one past the highest pid handed out. */
  datatype Cpu = Cpu(tasks: map<nat, Task>, current: nat, minVr: nat, idlePid: nat, sleepers: nat, next: nat)

  const TICK_SCALE := 1_000_000
  const MAX_PROCS := 4096

  const PRIO_WEIGHT: seq<nat> := [
    88761, 71755, 56483, 46273, 36291, 29154, 23254, 18705, 14949, 11916,
    9548, 7620, 6100, 4904, 3906, 3121, 2501, 1991, 1586, 1277
  ]

  function Weight(prio: nat): (w: nat)
    ensures 1277 <= w <= 88761
  {
    PRIO_WEIGHT[(if prio < 1 then 1 else if prio > 20 then 20 else prio) - 1]
  }

  /** Each step of priority is worth a little over a fifth to a little over a quarter of the share. */
  lemma WeightsFall(prio: nat)
    requires 1 <= prio < 20
    ensures 122 * Weight(prio + 1) <= 100 * Weight(prio) <= 128 * Weight(prio + 1)
  {
    WeightsFallHigh(prio);
    WeightsFallLow(prio);
  }

  lemma WeightsFallHigh(prio: nat)
    ensures 1 <= prio < 10 ==> 122 * Weight(prio + 1) <= 100 * Weight(prio) <= 128 * Weight(prio + 1)
  {
  }

  lemma WeightsFallLow(prio: nat)
    ensures 10 <= prio < 20 ==> 122 * Weight(prio + 1) <= 100 * Weight(prio) <= 128 * Weight(prio + 1)
  {
  }

  /** What one slice costs a task of this priority. */
  function Slice(prio: nat): (d: nat)
    ensures 11 <= d <= 783
  {
    SliceBounds(Weight(prio));
    TICK_SCALE / Weight(prio)
  }

  lemma SliceBounds(w: nat)
    requires 1277 <= w <= 88761
    ensures 11 <= TICK_SCALE / w <= 783
  {
  }

  // ---------------------------------------------------------------- who is next

  predicate Queued(t: Task) { t.state.Ready? && !t.idle }

  predicate KeyLt(vr: nat, pid: nat, vr': nat, pid': nat) { vr < vr' || (vr == vr' && pid < pid') }

  /** The least ready task by virtual runtime, then pid. */
  predicate First(tasks: map<nat, Task>, p: nat) {
    && p in tasks && Queued(tasks[p])
    && forall q :: q in tasks && Queued(tasks[q]) && q != p ==> KeyLt(tasks[p].vr, p, tasks[q].vr, q)
  }

  ghost predicate AnyQueued(tasks: map<nat, Task>) { exists q :: q in tasks && Queued(tasks[q]) }

  lemma {:induction false} FirstExists(tasks: map<nat, Task>, some: set<nat>) returns (p: nat)
    requires some != {} && forall q :: q in some ==> q in tasks && Queued(tasks[q])
    ensures p in some && forall q :: q in some && q != p ==> KeyLt(tasks[p].vr, p, tasks[q].vr, q)
    decreases some
  {
    var x :| x in some;
    if some == {x} {
      return x;
    }
    var y := FirstExists(tasks, some - {x});
    p := if KeyLt(tasks[x].vr, x, tasks[y].vr, y) then x else y;
  }

  ghost function Pick(tasks: map<nat, Task>): (p: nat)
    requires AnyQueued(tasks)
    ensures First(tasks, p)
  {
    assert exists p :: First(tasks, p) by {
      var q0 :| q0 in tasks && Queued(tasks[q0]);
      var some := set q | q in tasks && Queued(tasks[q]);
      assert q0 in some;
      var p := FirstExists(tasks, some);
      assert First(tasks, p);
    }
    var p :| First(tasks, p);
    p
  }

  lemma FirstUnique(tasks: map<nat, Task>, p: nat)
    requires First(tasks, p)
    ensures AnyQueued(tasks) && Pick(tasks) == p
  {
  }

  // ---------------------------------------------------------------- steps

  /** The index has room for pids below 4096 only. */
  predicate Known(c: Cpu, pid: nat) { pid < MAX_PROCS && pid in c.tasks }

  function Put(c: Cpu, pid: nat, t: Task): Cpu { c.(tasks := c.tasks[pid := t]) }


  function Spawn(c: Cpu, pid: nat, prio: nat): Cpu {
    Put(c, pid, Task(c.minVr, Ready, prio, false, 0)).(next := Max(c.next, pid + 1))
  }

  /** `yield_now` up to the context switch. */
  function YieldPart(c: Cpu): Cpu {
    if !Known(c, c.current) then c
    else
      var t := c.tasks[c.current];
      if t.state.Running? && !t.idle
      then Put(c, c.current, t.(vr := Max(t.vr, c.minVr) + Slice(t.prio), state := Ready))
      else c
  }

  function SleepPart(c: Cpu, until: nat): Cpu {
    if !Known(c, c.current) then c
    else
      var t := c.tasks[c.current];
      Put(c, c.current, t.(state := Sleeping, until := until)).(sleepers := if t.state.Sleeping? then c.sleepers else c.sleepers + 1)
  }

  function BlockPart(c: Cpu): Cpu {
    if !Known(c, c.current) then c else Put(c, c.current, c.tasks[c.current].(state := Blocked))
  }

  /** Ready again, and not behind the others. */
  function Woken(t: Task, minVr: nat): Task { t.(vr := Max(t.vr, minVr), state := Ready) }

  /** `t'` is `t` made ready, its runtime raised to the floor if it was below. */
  predicate Raised(t: Task, floor: nat, t': Task) {
    && t'.state == Ready && t'.vr == (if t.vr < floor then floor else t.vr)
    && t'.prio == t.prio && t'.idle == t.idle && t'.until == t.until
  }

  function Wakeup(c: Cpu, pid: nat): Cpu {
    if !Known(c, pid) || !(c.tasks[pid].state.Sleeping? || c.tasks[pid].state.Blocked?) then c
    else
      var t := c.tasks[pid];
      Put(c, pid, Woken(t, c.minVr)).(sleepers := if t.state.Sleeping? then Dec(c.sleepers) else c.sleepers)
  }

  function Kill(c: Cpu, pid: nat): Cpu {
    if !Known(c, pid) then c
    else
      var t := c.tasks[pid];
      Put(c, pid, t.(state := Dead)).(sleepers := if t.state.Sleeping? then Dec(c.sleepers) else c.sleepers)
  }

  predicate Due(c: Cpu, pid: nat, tick: nat) {
    pid in c.tasks && c.tasks[pid].state.Sleeping? && c.tasks[pid].until <= tick
  }

  function WakeOne(c: Cpu, pid: nat, tick: nat): Cpu {
    if !Due(c, pid, tick) then c
    else Put(c, pid, Woken(c.tasks[pid], c.minVr)).(sleepers := Dec(c.sleepers))
  }

  /** The sleepers below index `n` whose time has come, woken one by one. */
  function WakeBelow(c: Cpu, tick: nat, n: nat): Cpu {
    if n == 0 then c else WakeOne(WakeBelow(c, tick, n - 1), n - 1, tick)
  }

  function ScanLimit(c: Cpu): nat { if c.next < MAX_PROCS then c.next else MAX_PROCS }

  /** Charge the running task for the slice; the flag says whether it must give way. */
  ghost function Charge(c: Cpu): (Cpu, bool) {
    if !Known(c, c.current) then (c, true)
    else
      var t := c.tasks[c.current];
      if !t.state.Running? then (c, true)
      else if t.idle then
        if AnyQueued(c.tasks) then (Put(c, c.current, t.(state := Ready)), true) else (c, false)
      else
        var t' := t.(vr := t.vr + Slice(t.prio));
        if AnyQueued(c.tasks) && t'.vr > c.tasks[Pick(c.tasks)].vr
        then (Put(c, c.current, t'.(state := Ready)), true)
        else (Put(c, c.current, t'), false)
  }

  function SwitchTo(c: Cpu, pid: nat): Cpu
    requires pid in c.tasks
  {
    Put(c, pid, c.tasks[pid].(state := Running)).(current := pid, minVr := Max(c.minVr, c.tasks[pid].vr))
  }

  /** Hand the CPU to the least ready task, or to idle when there is none. */
  ghost function Dispatch(c: Cpu): Cpu {
    if AnyQueued(c.tasks) then SwitchTo(c, Pick(c.tasks))
    else if !Known(c, c.idlePid) || c.tasks[c.idlePid].state.Running? then c
    else SwitchTo(c, c.idlePid)
  }

  /** `schedule_from_isr`. */
  ghost function Schedule(c: Cpu, tick: nat): Cpu {
    var (c1, need) := Charge(c);
    var c2 := WakeBelow(c1, tick, ScanLimit(c1));
    if need then Dispatch(c2) else c2
  }

  // ---------------------------------------------------------------- sleepers

  function Sleepers(tasks: map<nat, Task>): set<nat> { set p | p in tasks && tasks[p].state.Sleeping? }

  ghost predicate Counted(c: Cpu) { c.sleepers == |Sleepers(c.tasks)| }

  /** Pids are below `next`. */
  ghost predicate Numbered(c: Cpu) { forall p :: p in c.tasks ==> p < c.next }

  lemma SleepersPutSet(tasks: map<nat, Task>, p: nat, t: Task)
    ensures t.state.Sleeping? ==> Sleepers(tasks[p := t]) == Sleepers(tasks) - {p} + {p}
    ensures !t.state.Sleeping? ==> Sleepers(tasks[p := t]) == Sleepers(tasks) - {p}
  {
  }

  lemma SleepersPut(tasks: map<nat, Task>, p: nat, t: Task)
    ensures |Sleepers(tasks[p := t])| ==
            |Sleepers(tasks)| + (if t.state.Sleeping? then 1 else 0) - (if p in Sleepers(tasks) then 1 else 0)
  {
    SleepersPutSet(tasks, p, t);
    hide Sleepers;
  }

  lemma WakeOneCounted(c: Cpu, pid: nat, tick: nat)
    requires Counted(c)
    ensures Counted(WakeOne(c, pid, tick))
  {
    if Due(c, pid, tick) {
      assert pid in Sleepers(c.tasks);
      SleepersPut(c.tasks, pid, WakeOne(c, pid, tick).tasks[pid]);
    }
  }

  /** Woken one by one or all at once: exactly the due ones below `n`, raised to the queue's floor. */
  lemma {:induction false} WakeBelowMeans(c: Cpu, tick: nat, n: nat)
    requires Counted(c)
    ensures var c' := WakeBelow(c, tick, n);
            && Counted(c') && c'.tasks.Keys == c.tasks.Keys
            && (forall p :: p in c.tasks ==>
                  if p < n && c.tasks[p].state == Sleeping && c.tasks[p].until <= tick
                  then Raised(c.tasks[p], c.minVr, c'.tasks[p])
                  else c'.tasks[p] == c.tasks[p])
            && c'.current == c.current && c'.minVr == c.minVr && c'.idlePid == c.idlePid && c'.next == c.next
  {
    if n > 0 {
      WakeBelowMeans(c, tick, n - 1);
      WakeOneCounted(WakeBelow(c, tick, n - 1), n - 1, tick);
    }
  }

  /** Skipping the scan when the counter is zero changes nothing. */
  lemma NoSleepersNoWake(c: Cpu, tick: nat, n: nat)
    requires Counted(c) && c.sleepers == 0
    ensures WakeBelow(c, tick, n) == c
  {
    WakeBelowMeans(c, tick, n);
    var c' := WakeBelow(c, tick, n);
    assert Sleepers(c.tasks) == {};
    assert forall p :: p in c.tasks && Due(c, p, tick) ==> p in Sleepers(c.tasks);
    assert c'.tasks == c.tasks;
    assert Sleepers(c'.tasks) == Sleepers(c.tasks);
  }

  // ---------------------------------------------------------------- every step

  /** The counter is exact and pids are below the range the wake-up scan takes. */
  ghost predicate Sane(c: Cpu) { Counted(c) && Numbered(c) }

  datatype Step =
    | DoSpawn(pid: nat, prio: nat) | DoTick(tick: nat) | DoYield | DoSleep(until: nat) | DoBlock
    | DoWake(pid: nat) | DoKill(pid: nat)

  ghost function Next(c: Cpu, s: Step): Cpu {
    match s
    case DoSpawn(pid, prio) => Spawn(c, pid, prio)
    case DoTick(tick) => Schedule(c, tick)
    case DoYield => YieldPart(c)
    case DoSleep(until) => SleepPart(c, until)
    case DoBlock => BlockPart(c)
    case DoWake(pid) => Wakeup(c, pid)
    case DoKill(pid) => Kill(c, pid)
  }

  /** Pids are new; sleep and block are called by a task that is executing, hence not queued, and never by idle. */
  predicate Enabled(c: Cpu, s: Step) {
    match s
    case DoSpawn(pid, _) => pid !in c.tasks
    case DoSleep(_) => MayWait(c)
    case DoBlock => MayWait(c) && (Known(c, c.current) ==> !c.tasks[c.current].state.Sleeping?)
    case _ => true
  }

  predicate MayWait(c: Cpu) {
    Known(c, c.current) ==> !c.tasks[c.current].idle && !c.tasks[c.current].state.Ready?
  }

  /** Replacing one task and moving the counter with it. */
  lemma PutKeeps(c: Cpu, p: nat, t: Task, c': Cpu)
    requires Sane(c) && p in c.tasks && c'.tasks == c.tasks[p := t] && c'.next == c.next
    requires c'.sleepers == c.sleepers + (if t.state.Sleeping? then 1 else 0) - (if c.tasks[p].state.Sleeping? then 1 else 0)
    ensures Sane(c')
  {
    SleepersPut(c.tasks, p, t);
    assert p in Sleepers(c.tasks) <==> c.tasks[p].state.Sleeping?;
  }

  lemma SleeperCounted(c: Cpu, p: nat)
    requires Counted(c) && p in c.tasks && c.tasks[p].state.Sleeping?
    ensures c.sleepers > 0
  {
    assert p in Sleepers(c.tasks);
  }

  lemma WakeupKeeps(c: Cpu, pid: nat)
    requires Sane(c)
    ensures Sane(Wakeup(c, pid)) && Sane(Kill(c, pid))
  {
    hide Counted, Numbered, Slice;
    if Known(c, pid) {
      if c.tasks[pid].state.Sleeping? { SleeperCounted(c, pid); }
      PutKeeps(c, pid, Kill(c, pid).tasks[pid], Kill(c, pid));
      if c.tasks[pid].state.Sleeping? || c.tasks[pid].state.Blocked? {
        PutKeeps(c, pid, Wakeup(c, pid).tasks[pid], Wakeup(c, pid));
      }
    }
  }

  lemma SpawnKeeps(c: Cpu, pid: nat, prio: nat)
    requires Sane(c) && pid !in c.tasks
    ensures Sane(Spawn(c, pid, prio))
  {
    SleepersPut(c.tasks, pid, Spawn(c, pid, prio).tasks[pid]);
  }

  lemma ChargeKeeps(c: Cpu)
    requires Sane(c)
    ensures Sane(Charge(c).0)
  {
    hide Counted, Numbered, Slice;
    if Known(c, c.current) && c.tasks[c.current].state.Running? {
      PutKeeps(c, c.current, Charge(c).0.tasks[c.current], Charge(c).0);
    }
  }

  lemma SwitchKeeps(c: Cpu, pid: nat)
    requires Sane(c) && pid in c.tasks && !c.tasks[pid].state.Sleeping?
    ensures Sane(SwitchTo(c, pid))
  {
    PutKeeps(c, pid, SwitchTo(c, pid).tasks[pid], SwitchTo(c, pid));
  }

  /** Whatever is interleaved, the sleeper counter stays exact as long as idle itself does not wait. */
  lemma StepKeeps(c: Cpu, s: Step)
    requires Sane(c) && Enabled(c, s) && IdleAwake(c)
    ensures Sane(Next(c, s)) && IdleAwake(Next(c, s))
  {
    match s {
      case DoSpawn(pid, prio) => SpawnKeeps(c, pid, prio);
      case DoTick(tick) => ScheduleKeeps(c, tick);
      case DoYield =>
        if YieldPart(c) != c { PutKeeps(c, c.current, YieldPart(c).tasks[c.current], YieldPart(c)); }
      case DoSleep(until) =>
        if Known(c, c.current) { PutKeeps(c, c.current, SleepPart(c, until).tasks[c.current], SleepPart(c, until)); }
      case DoBlock =>
        if Known(c, c.current) { PutKeeps(c, c.current, BlockPart(c).tasks[c.current], BlockPart(c)); }
      case DoWake(pid) => WakeupKeeps(c, pid);
      case DoKill(pid) => WakeupKeeps(c, pid);
    }
  }

  /** Waiting keeps idle awake exactly when it is not idle that waits; the counter misses a sleeper that blocks. */
  lemma WaitingBreaks(c: Cpu, s: Step)
    requires Sane(c) && IdleAwake(c) && (s.DoSleep? || s.DoBlock?)
    ensures IdleAwake(Next(c, s)) <==> (Known(c, c.current) ==> !c.tasks[c.current].idle)
    ensures Sane(Next(c, s)) <==> (s.DoBlock? && Known(c, c.current) ==> !c.tasks[c.current].state.Sleeping?)
  {
    var c' := Next(c, s);
    if Known(c, c.current) {
      SleepersPut(c.tasks, c.current, c'.tasks[c.current]);
      assert c.current in Sleepers(c.tasks) <==> c.tasks[c.current].state.Sleeping?;
    }
  }

  /** The fallback is an idle task, and idle tasks never wait. */
  ghost predicate IdleAwake(c: Cpu) {
    && c.idlePid in c.tasks && c.tasks[c.idlePid].idle
    && forall p :: p in c.tasks && c.tasks[p].idle ==> !c.tasks[p].state.Sleeping? && !c.tasks[p].state.Blocked?
  }

  lemma ScheduleKeeps(c: Cpu, tick: nat)
    requires Sane(c) && IdleAwake(c)
    ensures Sane(Schedule(c, tick)) && IdleAwake(Schedule(c, tick))
  {
    hide Counted, WakeBelow;
    var c1 := Charge(c).0;
    ChargeKeeps(c);
    var c2 := WakeBelow(c1, tick, ScanLimit(c1));
    WakeBelowMeans(c1, tick, ScanLimit(c1));
    hide Charge, Due;
    DispatchKeeps(c2);
  }

  lemma DispatchKeeps(c: Cpu)
    requires Sane(c) && IdleAwake(c)
    ensures Sane(Dispatch(c)) && IdleAwake(Dispatch(c))
  {
    hide Counted, Numbered;
    if AnyQueued(c.tasks) {
      SwitchKeeps(c, Pick(c.tasks));
    } else {
      SwitchKeeps(c, c.idlePid);
    }
  }

  ghost function After(c: Cpu, steps: seq<Step>): Cpu {
    if steps == [] then c else Next(After(c, steps[..|steps| - 1]), steps[|steps| - 1])
  }

  ghost predicate Runnable(c: Cpu, steps: seq<Step>) {
    forall n :: 0 <= n < |steps| ==> Enabled(After(c, steps[..n]), steps[n])
  }

  /** In every run, at every point, the counter is the number of sleeping tasks. */
  lemma {:induction false} SleeperCountExact(c: Cpu, steps: seq<Step>)
    requires Sane(c) && IdleAwake(c) && Runnable(c, steps)
    ensures Sane(After(c, steps)) && IdleAwake(After(c, steps))
    decreases |steps|
  {
    hide Sane, IdleAwake, Next, Enabled;
    if steps != [] {
      var n := |steps| - 1;
      assert forall k :: 0 <= k < n ==> steps[..n][..k] == steps[..k];
      SleeperCountExact(c, steps[..n]);
      StepKeeps(After(c, steps[..n]), steps[n]);
    }
  }
}
