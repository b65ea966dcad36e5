/**
 The life of a task: at most one task runs, a task that waits is left alone
 until its time or its wake-up comes, and a killed one never comes back.
 Everything is said in the fields of the tasks, over every run of the model.
 */
module SchedLife {
  import opened Common
  import opened SchedModel

  // ---------------------------------------------------------------- one task runs

  /** Among the tasks the index reaches, only the current one is running. */
  ghost predicate OneRunner(c: Cpu) { forall p :: Known(c, p) && c.tasks[p].state.Running? ==> p == c.current }

  lemma ChargeStops(c: Cpu)
    requires OneRunner(c)
    ensures OneRunner(Charge(c).0) && Charge(c).0.current == c.current
    ensures Charge(c).1 ==> forall p :: Known(Charge(c).0, p) ==> !Charge(c).0.tasks[p].state.Running?
  {
    hide Slice, Pick, AnyQueued;
  }

  lemma StepRunner(c: Cpu, s: Step)
    requires Sane(c) && Enabled(c, s) && OneRunner(c)
    ensures OneRunner(Next(c, s))
  {
    hide Slice, Counted, WakeBelow, Pick, AnyQueued;
    if s.DoTick? {
      ChargeStops(c);
      var c1 := Charge(c).0;
      ChargeKeeps(c);
      WakeBelowMeans(c1, s.tick, ScanLimit(c1));
      hide Charge, Due;
    }
  }

  /** In every state of every run at most one task is running, and it is the current one. */
  lemma {:induction false} OneRuns(c: Cpu, steps: seq<Step>)
    requires Sane(c) && IdleAwake(c) && OneRunner(c) && Runnable(c, steps)
    ensures OneRunner(After(c, steps))
    decreases |steps|
  {
    hide Sane, IdleAwake, OneRunner, Next, Enabled;
    if steps != [] {
      var n := |steps| - 1;
      assert forall k :: 0 <= k < n ==> steps[..n][..k] == steps[..k];
      OneRuns(c, steps[..n]);
      SleeperCountExact(c, steps[..n]);
      StepRunner(After(c, steps[..n]), steps[n]);
    }
  }

  // ---------------------------------------------------------------- a task that waits is left alone

  /** Asleep, blocked or dead, and not an idle task. */
  predicate Parked(c: Cpu, p: nat) {
    p in c.tasks && !c.tasks[p].idle && !c.tasks[p].state.Ready? && !c.tasks[p].state.Running?
  }

  /** What ends the wait of a parked task: its time, a wake-up, a kill, or a call of its own while it is still on the CPU. */
  predicate Disturbs(s: Step, p: nat, t: Task, current: nat) {
    match s
    case DoTick(tick) => t.state.Sleeping? && t.until <= tick
    case DoWake(q) => q == p && !t.state.Dead?
    case DoKill(q) => q == p && !t.state.Dead?
    case DoSleep(_) => current == p
    case DoBlock => current == p
    case _ => false
  }

  lemma ChargeParked(c: Cpu, p: nat)
    requires Parked(c, p)
    ensures p in Charge(c).0.tasks && Charge(c).0.tasks[p] == c.tasks[p]
    ensures c.current == p ==> Charge(c).1
    ensures Charge(c).0.current == c.current && Charge(c).0.idlePid == c.idlePid
  {
    hide Slice, Pick, AnyQueued;
  }

  lemma DispatchParked(c: Cpu, p: nat)
    requires Parked(c, p) && IdleAwake(c)
    ensures p in Dispatch(c).tasks && Dispatch(c).tasks[p] == c.tasks[p]
    ensures Dispatch(c).current != p || Dispatch(c).current == c.current
    ensures Known(c, c.idlePid) && !c.tasks[c.idlePid].state.Running? ==> Dispatch(c).current != p
  {
    hide Pick;
    if AnyQueued(c.tasks) {
      assert First(c.tasks, Pick(c.tasks));
    }
  }

  /** A step that does not end the wait leaves the task as it is; a tick takes it off the CPU. */
  lemma StepParked(c: Cpu, s: Step, p: nat)
    requires Sane(c) && IdleAwake(c) && OneRunner(c) && Enabled(c, s) && Parked(c, p) && !Disturbs(s, p, c.tasks[p], c.current)
    ensures Parked(Next(c, s), p) && Next(c, s).tasks[p] == c.tasks[p]
    ensures c.current != p || (s.DoTick? && Known(c, c.idlePid)) ==> Next(c, s).current != p
    ensures Next(c, s).idlePid == c.idlePid && (Known(c, c.idlePid) ==> Known(Next(c, s), c.idlePid))
  {
    if s.DoTick? {
      TickParked(c, s.tick, p);
    }
    hide Slice, Counted, Schedule, Pick, AnyQueued;
  }

  lemma TickParked(c: Cpu, tick: nat, p: nat)
    requires Sane(c) && IdleAwake(c) && OneRunner(c) && Parked(c, p) && !Disturbs(DoTick(tick), p, c.tasks[p], c.current)
    ensures Parked(Schedule(c, tick), p) && Schedule(c, tick).tasks[p] == c.tasks[p]
    ensures c.current != p || Known(c, c.idlePid) ==> Schedule(c, tick).current != p
    ensures Schedule(c, tick).idlePid == c.idlePid && (Known(c, c.idlePid) ==> Known(Schedule(c, tick), c.idlePid))
  {
    hide Counted, WakeBelow, Slice;
    var (c1, need) := Charge(c);
    ChargeStops(c);
    ChargeParked(c, p);
    ChargeKeeps(c);
    ChargeIdle(c);
    var c2 := WakeBelow(c1, tick, ScanLimit(c1));
    WakeBelowMeans(c1, tick, ScanLimit(c1));
    assert IdleAwake(c2);
    hide Charge;
    DispatchParked(c2, p);
  }

  lemma ChargeIdle(c: Cpu)
    requires IdleAwake(c)
    ensures IdleAwake(Charge(c).0) && (Known(c, c.idlePid) ==> Known(Charge(c).0, c.idlePid))
  {
    hide Slice, Pick, AnyQueued;
  }

  /** No step of the run ends the wait. */
  ghost predicate LeftAlone(c: Cpu, steps: seq<Step>, p: nat)
    requires p in c.tasks
  {
    forall n :: 0 <= n < |steps| ==> !Disturbs(steps[n], p, c.tasks[p], After(c, steps[..n]).current)
  }

  /** Over every run a waiting task keeps every field until its wait ends, and has left the CPU by the first tick. */
  lemma {:induction false} StaysParked(c: Cpu, steps: seq<Step>, p: nat)
    requires Sane(c) && IdleAwake(c) && OneRunner(c) && Known(c, c.idlePid) && Runnable(c, steps)
    requires Parked(c, p) && LeftAlone(c, steps, p)
    ensures Parked(After(c, steps), p) && After(c, steps).tasks[p] == c.tasks[p] && Known(After(c, steps), After(c, steps).idlePid)
    ensures c.current != p || (exists n :: 0 <= n < |steps| && steps[n].DoTick?) ==> After(c, steps).current != p
    decreases |steps|
  {
    hide Sane, IdleAwake, OneRunner, Next, Enabled, Disturbs, Known;
    if steps != [] {
      var n := |steps| - 1;
      assert forall k :: 0 <= k < n ==> steps[..n][..k] == steps[..k];
      StaysParked(c, steps[..n], p);
      SleeperCountExact(c, steps[..n]);
      OneRuns(c, steps[..n]);
      StepParked(After(c, steps[..n]), steps[n], p);
      if k :| 0 <= k < |steps| && steps[k].DoTick? {
        assert k < n ==> steps[..n][k].DoTick?;
      }
    }
  }

  // ---------------------------------------------------------------- kill, sleep, block and wake-up

  /** Every task but `p`, and the rest of the CPU apart from the sleeper counter, is as it was. */
  predicate OnlyTask(c: Cpu, c': Cpu, p: nat) {
    && p in c.tasks && c'.tasks.Keys == c.tasks.Keys && (forall q :: q in c.tasks && q != p ==> c'.tasks[q] == c.tasks[q])
    && c'.current == c.current && c'.minVr == c.minVr && c'.idlePid == c.idlePid && c'.next == c.next
  }

  /** The task calls neither sleep nor block itself, which it could while it is still on the CPU. */
  ghost predicate CallsNothing(c: Cpu, steps: seq<Step>, p: nat) {
    forall n :: 0 <= n < |steps| && (steps[n].DoSleep? || steps[n].DoBlock?) ==> After(c, steps[..n]).current != p
  }

  /** Nobody wakes or kills the task. */
  predicate NobodyCalls(steps: seq<Step>, p: nat) {
    forall n :: 0 <= n < |steps| ==> steps[n] != DoWake(p) && steps[n] != DoKill(p)
  }

  /** Dead, with every other field as it was. */
  predicate Killed(c: Cpu, c': Cpu, p: nat) {
    && OnlyTask(c, c', p) && c'.tasks[p].state == Dead && c'.tasks[p].vr == c.tasks[p].vr
    && c'.tasks[p].prio == c.tasks[p].prio && c'.tasks[p].idle == c.tasks[p].idle && c'.tasks[p].until == c.tasks[p].until
  }

  lemma KillMeans(c: Cpu, p: nat)
    ensures if Known(c, p) then Killed(c, Next(c, DoKill(p)), p) else Next(c, DoKill(p)) == c
  {
  }

  /** A killed task is dead at once, whatever it was doing; it never runs or queues again. */
  lemma KilledStaysDead(c: Cpu, p: nat, steps: seq<Step>)
    requires Sane(c) && IdleAwake(c) && OneRunner(c) && Known(c, c.idlePid)
    requires Known(c, p) && !c.tasks[p].idle
    requires var d := Next(c, DoKill(p)); Runnable(d, steps) && CallsNothing(d, steps, p)
    ensures Killed(c, Next(c, DoKill(p)), p)
    ensures var e := After(Next(c, DoKill(p)), steps);
            && p in e.tasks && e.tasks[p].state == Dead && !Queued(e.tasks[p])
            && ((exists n :: 0 <= n < |steps| && steps[n].DoTick?) ==> e.current != p)
  {
    hide Sane, IdleAwake, After, Runnable;
    var d := Next(c, DoKill(p));
    StepKeeps(c, DoKill(p));
    StepRunner(c, DoKill(p));
    StaysParked(d, steps, p);
  }

  /** A task that sleeps is asleep until the first tick at its time, and awake after that one. */
  lemma SleepsUntil(c: Cpu, until: nat, steps: seq<Step>, tick: nat)
    requires Sane(c) && IdleAwake(c) && OneRunner(c) && Known(c, c.idlePid) && Known(c, c.current) && Enabled(c, DoSleep(until))
    requires var d := Next(c, DoSleep(until)); Runnable(d, steps) && CallsNothing(d, steps, c.current)
    requires NobodyCalls(steps, c.current) && forall n :: 0 <= n < |steps| && steps[n].DoTick? ==> steps[n].tick < until
    ensures var d, p := Next(c, DoSleep(until)), c.current;
            && OnlyTask(c, d, p)
            && d.tasks[p].state == Sleeping && d.tasks[p].until == until && d.tasks[p].vr == c.tasks[p].vr
            && d.tasks[p].prio == c.tasks[p].prio && !d.tasks[p].idle
    ensures var d, p := Next(c, DoSleep(until)), c.current;
            var e := After(d, steps);
            && p in e.tasks && e.tasks[p] == d.tasks[p]
            && ((exists n :: 0 <= n < |steps| && steps[n].DoTick?) ==> e.current != p)
            && (tick >= until ==> var w := Next(e, DoTick(tick)); p in w.tasks && (w.tasks[p].state.Ready? || w.tasks[p].state.Running?))
  {
    hide Sane, IdleAwake, After, Runnable, Schedule;
    var d, p := Next(c, DoSleep(until)), c.current;
    StepKeeps(c, DoSleep(until));
    StepRunner(c, DoSleep(until));
    StaysParked(d, steps, p);
    SleeperCountExact(d, steps);
    if tick >= until {
      TickWakes(After(d, steps), tick, p);
    }
  }

  /** A task that blocks stays blocked until it is woken, and is ready then, not behind the others. */
  lemma BlocksUntilWoken(c: Cpu, steps: seq<Step>)
    requires Sane(c) && IdleAwake(c) && OneRunner(c) && Known(c, c.idlePid) && Known(c, c.current) && Enabled(c, DoBlock)
    requires var d := Next(c, DoBlock); Runnable(d, steps) && CallsNothing(d, steps, c.current) && NobodyCalls(steps, c.current)
    ensures var d, p := Next(c, DoBlock), c.current;
            && OnlyTask(c, d, p)
            && d.tasks[p].state == Blocked && d.tasks[p].until == c.tasks[p].until && d.tasks[p].vr == c.tasks[p].vr
            && d.tasks[p].prio == c.tasks[p].prio && !d.tasks[p].idle
    ensures var d, p := Next(c, DoBlock), c.current;
            var e := After(d, steps);
            && p in e.tasks && e.tasks[p] == d.tasks[p]
            && ((exists n :: 0 <= n < |steps| && steps[n].DoTick?) ==> e.current != p)
            && var w := Next(e, DoWake(p)); OnlyTask(e, w, p) && Raised(e.tasks[p], e.minVr, w.tasks[p])
  {
    hide Sane, IdleAwake, After, Runnable;
    var d, p := Next(c, DoBlock), c.current;
    StepKeeps(c, DoBlock);
    StepRunner(c, DoBlock);
    StaysParked(d, steps, p);
  }

  /** A wake-up reaches exactly the tasks that wait. */
  lemma WakeupMeans(c: Cpu, p: nat)
    ensures var c' := Next(c, DoWake(p));
            if Known(c, p) && (c.tasks[p].state.Sleeping? || c.tasks[p].state.Blocked?)
            then OnlyTask(c, c', p) && Raised(c.tasks[p], c.minVr, c'.tasks[p])
            else c' == c
  {
  }

  lemma TickWakes(c: Cpu, tick: nat, p: nat)
    requires Sane(c) && IdleAwake(c) && Known(c, p) && c.tasks[p].state.Sleeping? && c.tasks[p].until <= tick
    ensures var w := Next(c, DoTick(tick)); p in w.tasks && (w.tasks[p].state.Ready? || w.tasks[p].state.Running?)
  {
    hide Counted, WakeBelow, Slice;
    var c1 := Charge(c).0;
    ChargeKeeps(c);
    WakeBelowMeans(c1, tick, ScanLimit(c1));
  }

  // ---------------------------------------------------------------- the tick

  /** The current task runs, and no ready one comes before it. */
  predicate LeastRuns(c: Cpu) {
    && c.current in c.tasks && c.tasks[c.current].state == Running
    && forall q :: q in c.tasks && c.tasks[q].state == Ready && !c.tasks[q].idle ==>
         c.tasks[c.current].vr < c.tasks[q].vr || (c.tasks[c.current].vr == c.tasks[q].vr && c.current < q)
  }

  /** A running task pays for its slice, and gives way exactly when a ready one is then behind it in runtime. */
  lemma TickMeans(c: Cpu, tick: nat)
    requires Sane(c) && IdleAwake(c) && Known(c, c.current) && c.tasks[c.current].state == Running && !c.tasks[c.current].idle
    ensures var n, p := Next(c, DoTick(tick)), c.current;
            var v := c.tasks[p].vr + TICK_SCALE / Weight(c.tasks[p].prio);
            && n.tasks.Keys == c.tasks.Keys && n.tasks[p].vr == v && n.tasks[p].prio == c.tasks[p].prio && !n.tasks[p].idle
            && if exists q :: q in c.tasks && c.tasks[q].state == Ready && !c.tasks[q].idle && c.tasks[q].vr < v
               then n.current != p && n.tasks[p].state == Ready && LeastRuns(n) && n.minVr == Max(c.minVr, n.tasks[n.current].vr)
               else n.current == p && n.tasks[p].state == Running && n.minVr == c.minVr
  {
    hide Counted, WakeBelow, Weight, IdleAwake;
    var (c1, need) := Charge(c);
    ChargeKeeps(c);
    var c2 := WakeBelow(c1, tick, ScanLimit(c1));
    WakeBelowMeans(c1, tick, ScanLimit(c1));
    var p := c.current;
    var v := c.tasks[p].vr + Slice(c.tasks[p].prio);
    if q :| q in c.tasks && c.tasks[q].state == Ready && !c.tasks[q].idle && c.tasks[q].vr < v {
      assert Queued(c.tasks[q]);
      assert need;
      assert q in c2.tasks && Queued(c2.tasks[q]);
      assert First(c2.tasks, Pick(c2.tasks));
    } else {
      assert !need;
    }
  }

  /** When the current task is idle or waits, the tick hands the CPU to the least ready task, or else to idle. */
  lemma TickHandsOver(c: Cpu, tick: nat)
    requires Sane(c) && IdleAwake(c) && OneRunner(c) && Known(c, c.idlePid) && c.current in c.tasks
    requires c.current == c.idlePid || !c.tasks[c.current].state.Running?
    ensures var n := Next(c, DoTick(tick));
            && n.tasks.Keys == c.tasks.Keys && n.current in n.tasks && n.tasks[n.current].state == Running
            && ((exists q :: q in c.tasks && c.tasks[q].state == Ready && !c.tasks[q].idle) ==> LeastRuns(n) && !n.tasks[n.current].idle)
            && (n.tasks[n.current].idle ==> n.current == c.idlePid)
  {
    hide Counted, Numbered, WakeBelow, Charge, Dispatch, Slice, LeastRuns, AnyQueued;
    var (c1, need) := Charge(c);
    ChargeKeeps(c);
    ChargeStops(c);
    ChargeIdle(c);
    ChargeWaiting(c);
    var c2 := WakeBelow(c1, tick, ScanLimit(c1));
    WakeBelowMeans(c1, tick, ScanLimit(c1));
    if need {
      DispatchMeans(c2);
    }
    forall q | q in c.tasks && c.tasks[q].state == Ready && !c.tasks[q].idle ensures need && Queued(c2.tasks[q]) {
      AnyIntro(c.tasks, q);
    }
  }

  lemma AnyIntro(tasks: map<nat, Task>, q: nat)
    requires q in tasks && Queued(tasks[q])
    ensures AnyQueued(tasks)
  {
  }

  lemma ChargeWaiting(c: Cpu)
    requires IdleAwake(c) && Known(c, c.idlePid) && c.current in c.tasks && (c.current == c.idlePid || !c.tasks[c.current].state.Running?)
    ensures var (c1, need) := Charge(c);
            && c1.tasks.Keys == c.tasks.Keys && c1.idlePid == c.idlePid && c1.current == c.current && (AnyQueued(c.tasks) ==> need)
            && (forall q :: q in c.tasks && !c.tasks[q].idle ==> c1.tasks[q] == c.tasks[q])
            && (!need ==> c1 == c && c.current == c.idlePid && c.tasks[c.current].state == Running)
  {
    hide Slice, Pick, AnyQueued;
  }

  lemma DispatchMeans(c: Cpu)
    requires IdleAwake(c) && Known(c, c.idlePid) && forall p :: Known(c, p) ==> !c.tasks[p].state.Running?
    ensures var n := Dispatch(c);
            && n.tasks.Keys == c.tasks.Keys && n.current in n.tasks && n.tasks[n.current].state == Running
            && (forall q :: q in c.tasks && Queued(c.tasks[q]) ==> LeastRuns(n) && !n.tasks[n.current].idle)
            && (n.tasks[n.current].idle ==> n.current == c.idlePid)
  {
    if AnyQueued(c.tasks) {
      assert First(c.tasks, Pick(c.tasks));
    }
    hide Pick;
  }
}
