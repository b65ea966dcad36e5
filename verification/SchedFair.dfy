/**
 Fairness of the scheduler: with a fixed set of tasks that always want to run,
 virtual runtimes stay together, so service is shared by weight and nobody
 waits for ever.
 */
module SchedFair {
  import opened Common
  import opened SchedModel

  /** Every task but idle is running or ready, and the running one is `current`. */
  ghost predicate Busy(c: Cpu) {
    && c.sleepers == 0 && Counted(c) && Known(c, c.current)
    && c.tasks[c.current].state.Running? && !c.tasks[c.current].idle
    && forall p :: p in c.tasks && p != c.current && !c.tasks[p].idle ==> c.tasks[p].state.Ready? && p < MAX_PROCS
  }

  ghost predicate Competes(c: Cpu, p: nat) { p in c.tasks && !c.tasks[p].idle }

  ghost predicate Within(c: Cpu, d: nat) {
    forall p, q :: Competes(c, p) && Competes(c, q) ==> c.tasks[p].vr <= c.tasks[q].vr + d
  }

  /** One more slice would not carry the running task out of the band. */
  ghost predicate Headroom(c: Cpu, d: nat) {
    c.current in c.tasks && forall p :: Competes(c, p) ==> c.tasks[c.current].vr + Slice(c.tasks[c.current].prio) <= c.tasks[p].vr + d
  }

  /** Nobody is below the floor, a slice is at most `d`, and all are within `d` of each other. */
  ghost predicate Close(c: Cpu, d: nat) {
    && Busy(c) && Within(c, d)
    && (forall p :: Competes(c, p) ==> c.minVr <= c.tasks[p].vr && Slice(c.tasks[p].prio) <= d)
  }

  ghost predicate Together(c: Cpu, d: nat) { Close(c, d) && Headroom(c, d) }

  /** A timer tick, or a yield and the switch it ends in. */
  datatype Turn = Tick(tick: nat) | Yield(tick: nat)

  ghost function Take(c: Cpu, t: Turn): Cpu {
    match t
    case Tick(tick) => Schedule(c, tick)
    case Yield(tick) => Schedule(YieldPart(c), tick)
  }

  /** A turn charges the running task one slice and touches no other runtime. */
  ghost predicate Charged(c: Cpu, c': Cpu) {
    && c'.tasks.Keys == c.tasks.Keys
    && forall p :: p in c.tasks ==>
         && c'.tasks[p].idle == c.tasks[p].idle && c'.tasks[p].prio == c.tasks[p].prio
         && c'.tasks[p].vr == c.tasks[p].vr + if p == c.current then Slice(c.tasks[p].prio) else 0
  }

  /** The running task, charged and waiting with the others. */
  function Parked(c: Cpu): Cpu
    requires c.current in c.tasks
  {
    var t := c.tasks[c.current];
    Put(c, c.current, t.(vr := t.vr + Slice(t.prio), state := Ready))
  }

  lemma ParkedCounted(c: Cpu)
    requires Busy(c)
    ensures Counted(Parked(c)) && Parked(c).sleepers == 0
  {
    SleepersPut(c.tasks, c.current, Parked(c).tasks[c.current]);
  }

  /** Giving way: the least task runs next, and it is behind nobody. */
  lemma GivesWay(c: Cpu)
    requires Busy(c)
    ensures AnyQueued(Parked(c).tasks)
    ensures var c' := Dispatch(Parked(c));
            && Busy(c') && Charged(c, c')
            && (forall p :: Competes(c', p) ==> c'.tasks[c'.current].vr <= c'.tasks[p].vr)
            && c'.minVr == Max(c.minVr, c'.tasks[c'.current].vr)
  {
    var m := Parked(c);
    ParkedCounted(c);
    assert Queued(m.tasks[c.current]);
    var p := Pick(m.tasks);
    var c' := Dispatch(m);
    assert c' == SwitchTo(m, p);
    SleepersPut(m.tasks, p, c'.tasks[p]);
    assert !m.tasks[p].state.Sleeping? && p !in Sleepers(m.tasks);
    forall q | Competes(c', q) ensures c'.tasks[p].vr <= c'.tasks[q].vr {
      assert q != p ==> Queued(m.tasks[q]);
    }
  }

  /** Staying: charged and still behind nobody. */
  lemma StaysOn(c: Cpu, tick: nat)
    requires Busy(c) && !Charge(c).1
    ensures var c' := Schedule(c, tick);
            && Busy(c') && Charged(c, c') && c'.minVr == c.minVr && c'.current == c.current
            && (forall p :: Competes(c', p) ==> c'.tasks[c'.current].vr <= c'.tasks[p].vr)
  {
    var c1 := Charge(c).0;
    SleepersPut(c.tasks, c.current, c1.tasks[c.current]);
    assert c.current !in Sleepers(c.tasks);
    NoSleepersNoWake(c1, tick, ScanLimit(c1));
    forall p | Competes(c1, p) ensures c1.tasks[c1.current].vr <= c1.tasks[p].vr {
      if p != c.current {
        assert Queued(c.tasks[p]);
        assert First(c.tasks, Pick(c.tasks));
      }
    }
  }

  lemma TurnEffect(c: Cpu, t: Turn)
    requires Busy(c) && (forall p :: Competes(c, p) ==> c.minVr <= c.tasks[p].vr)
    ensures var c' := Take(c, t);
            && Busy(c') && Charged(c, c')
            && (forall p :: Competes(c', p) ==> c'.tasks[c'.current].vr <= c'.tasks[p].vr)
            && (c'.minVr == c.minVr || c'.minVr == Max(c.minVr, c'.tasks[c'.current].vr))
  {
    assert Competes(c, c.current);
    match t {
      case Tick(tick) =>
        if Charge(c).1 {
          assert Charge(c).0 == Parked(c);
          ParkedCounted(c);
          NoSleepersNoWake(Parked(c), tick, ScanLimit(Parked(c)));
          GivesWay(c);
        } else {
          StaysOn(c, tick);
        }
      case Yield(tick) =>
        assert YieldPart(c) == Parked(c);
        assert Charge(Parked(c)) == (Parked(c), true);
        ParkedCounted(c);
        NoSleepersNoWake(Parked(c), tick, ScanLimit(Parked(c)));
        GivesWay(c);
    }
  }

  lemma TurnKeeps(c: Cpu, t: Turn, d: nat)
    requires Together(c, d)
    ensures Together(Take(c, t), d) && Charged(c, Take(c, t))
  {
    hide Take, Busy, Slice;
    var c' := Take(c, t);
    TurnEffect(c, t);
    CurrentCompetes(c);
    CurrentCompetes(c');
    assert forall p :: Competes(c', p) <==> Competes(c, p);
  }

  /** From a close start the next turn keeps the band exactly when the running task has headroom. */
  lemma BandKeptIff(c: Cpu, t: Turn, d: nat)
    requires Close(c, d)
    ensures Within(Take(c, t), d) <==> Headroom(c, d)
  {
    hide Take, Busy, Slice;
    var c' := Take(c, t);
    TurnEffect(c, t);
    CurrentCompetes(c);
    assert forall p :: Competes(c', p) <==> Competes(c, p);
    if Within(c', d) {
      forall p | Competes(c, p) ensures c.tasks[c.current].vr + Slice(c.tasks[c.current].prio) <= c.tasks[p].vr + d {
        assert Slice(c.tasks[p].prio) <= d;
        assert Competes(c', p) && Competes(c', c.current);
      }
    }
  }

  /** A machine that has just started: only idle, running. */
  function Booted(): Cpu { Cpu(map[0 := Task(0, Running, 0, true, 0)], 0, 0, 0, 0, 1) }

  /** A second task arrives while the first, alone so far, is a slice ahead of the floor. */
  function LateArrival(): seq<Step> { [DoSpawn(1, 20), DoTick(0), DoTick(0), DoSpawn(2, 20)] }

  /** With only idle running and one task waiting, a tick hands the CPU over. */
  lemma HandsOver(c: Cpu)
    requires c == Cpu(map[0 := Task(0, Running, 0, true, 0), 1 := Task(0, Ready, 20, false, 0)], 0, 0, 0, 0, 2)
    ensures Schedule(c, 0) == Cpu(map[0 := Task(0, Ready, 0, true, 0), 1 := Task(0, Running, 20, false, 0)], 1, 0, 0, 0, 2)
  {
    FirstUnique(c.tasks, 1);
    var c1 := Charge(c).0;
    assert c1.tasks == map[0 := Task(0, Ready, 0, true, 0), 1 := Task(0, Ready, 20, false, 0)];
    assert Sleepers(c1.tasks) == {};
    NoSleepersNoWake(c1, 0, ScanLimit(c1));
    FirstUnique(c1.tasks, 1);
    assert Dispatch(c1).tasks == map[0 := Task(0, Ready, 0, true, 0), 1 := Task(0, Running, 20, false, 0)];
  }

  /** A task alone is charged and stays. */
  lemma RunsAlone(c: Cpu)
    requires c == Cpu(map[0 := Task(0, Ready, 0, true, 0), 1 := Task(0, Running, 20, false, 0)], 1, 0, 0, 0, 2)
    ensures Schedule(c, 0) == Cpu(map[0 := Task(0, Ready, 0, true, 0), 1 := Task(783, Running, 20, false, 0)], 1, 0, 0, 0, 2)
  {
    assert !AnyQueued(c.tasks);
    SliceOf20();
    var c1 := Charge(c).0;
    assert c1.tasks == map[0 := Task(0, Ready, 0, true, 0), 1 := Task(783, Running, 20, false, 0)];
    assert Sleepers(c1.tasks) == {};
    NoSleepersNoWake(c1, 0, ScanLimit(c1));
  }

  lemma SliceOf20()
    ensures Slice(20) == 783
  {
    assert Weight(20) == 1277;
  }

  lemma ArrivalState()
    ensures Runnable(Booted(), LateArrival())
    ensures After(Booted(), LateArrival()) ==
            Cpu(map[0 := Task(0, Ready, 0, true, 0), 1 := Task(783, Running, 20, false, 0), 2 := Task(0, Ready, 20, false, 0)],
                1, 0, 0, 0, 3)
  {
    hide Schedule;
    var c0, steps := Booted(), LateArrival();
    assert steps[..0] == [] && steps[..1][..0] == [] && steps[..2][..1] == steps[..1];
    assert steps[..3][..2] == steps[..2] && steps[..4][..3] == steps[..3] && steps[..4] == steps;
    var c1 := Next(c0, steps[0]);
    assert c1.tasks == map[0 := Task(0, Running, 0, true, 0), 1 := Task(0, Ready, 20, false, 0)];
    HandsOver(c1);
    var c2 := Next(c1, steps[1]);
    RunsAlone(c2);
    var c3 := Next(c2, steps[2]);
    assert After(c0, steps[..1]) == c1 && After(c0, steps[..2]) == c2 && After(c0, steps[..3]) == c3;
    assert Next(c3, steps[3]).tasks
           == map[0 := Task(0, Ready, 0, true, 0), 1 := Task(783, Running, 20, false, 0), 2 := Task(0, Ready, 20, false, 0)];
  }

  /** In a run from the start: two tasks one slice apart with the later one running, and a tick takes them two apart. */
  lemma BandLost()
    ensures Runnable(Booted(), LateArrival())
    ensures Close(After(Booted(), LateArrival()), 783)
    ensures !Within(Take(After(Booted(), LateArrival()), Tick(0)), 783)
  {
    hide After, Take;
    ArrivalState();
    var c := After(Booted(), LateArrival());
    SliceOf20();
    assert Sleepers(c.tasks) == {};
    assert Competes(c, 2);
    BandKeptIff(c, Tick(0), 783);
  }

  lemma CurrentCompetes(c: Cpu)
    requires Busy(c)
    ensures Competes(c, c.current)
  {
  }

  // ---------------------------------------------------------------- runs

  ghost predicate Turns(cs: seq<Cpu>, ts: seq<Turn>) {
    |cs| == |ts| + 1 && forall i :: 0 <= i < |ts| ==> cs[i + 1] == Take(cs[i], ts[i])
  }

  /** How many of the turns charged task `p`. */
  function Served(cs: seq<Cpu>, p: nat): nat {
    if |cs| <= 1 then 0
    else Served(cs[..|cs| - 1], p) + if cs[|cs| - 2].current == p then 1 else 0
  }

  /** However ticks and yields are mixed, runtimes never spread by more than one slice,
      and a task's runtime is what it was charged. */
  lemma {:induction false} RuntimesStayTogether(cs: seq<Cpu>, ts: seq<Turn>, d: nat)
    requires Turns(cs, ts) && Together(cs[0], d)
    ensures Together(cs[|ts|], d) && cs[|ts|].tasks.Keys == cs[0].tasks.Keys
    ensures forall p :: p in cs[0].tasks ==>
              && cs[|ts|].tasks[p].idle == cs[0].tasks[p].idle && cs[|ts|].tasks[p].prio == cs[0].tasks[p].prio
              && cs[|ts|].tasks[p].vr == cs[0].tasks[p].vr + Served(cs, p) * Slice(cs[0].tasks[p].prio)
    decreases |ts|
  {
    hide Together, Take, Slice;
    if ts != [] {
      var n := |ts| - 1;
      var cs0 := cs[..|ts|];
      assert cs0[n] == cs[n];
      RuntimesStayTogether(cs0, ts[..n], d);
      TurnKeeps(cs[n], ts[n], d);
      forall p | p in cs[0].tasks
        ensures cs[|ts|].tasks[p].idle == cs[0].tasks[p].idle && cs[|ts|].tasks[p].prio == cs[0].tasks[p].prio
        ensures cs[|ts|].tasks[p].vr == cs[0].tasks[p].vr + Served(cs, p) * Slice(cs[0].tasks[p].prio)
      {
        var w := Slice(cs[0].tasks[p].prio);
        assert Served(cs, p) == Served(cs0, p) + if cs[n].current == p then 1 else 0;
        TimesSucc(Served(cs0, p), w);
      }
    }
  }

  lemma TimesSucc(a: nat, w: nat)
    ensures (a + 1) * w == a * w + w
  {
  }

  /** Weighted service of any two tasks over any stretch of a run differs by at most two slices. */
  lemma ServiceIsFair(cs: seq<Cpu>, ts: seq<Turn>, d: nat, p: nat, q: nat)
    requires Turns(cs, ts) && Together(cs[0], d) && Competes(cs[0], p) && Competes(cs[0], q)
    ensures Served(cs, p) * Slice(cs[0].tasks[p].prio) <= Served(cs, q) * Slice(cs[0].tasks[q].prio) + 2 * d
  {
    RuntimesStayTogether(cs, ts, d);
    assert Competes(cs[|ts|], p) && Competes(cs[|ts|], q);
    hide Slice, Served, Take, Busy;
  }

  /** Twice the band always leaves headroom. */
  lemma CloseIsTogether(c: Cpu, d: nat)
    requires Close(c, d)
    ensures Together(c, 2 * d)
  {
    hide Busy, Slice;
    CurrentCompetes(c);
  }

  /** From a close start without headroom runtimes may spread to two slices, and no further. */
  lemma SpreadIsTwoSlices(cs: seq<Cpu>, ts: seq<Turn>, d: nat)
    requires Turns(cs, ts) && Close(cs[0], d)
    ensures Within(cs[|ts|], 2 * d)
    ensures forall p, q :: Competes(cs[0], p) && Competes(cs[0], q) ==>
              Served(cs, p) * Slice(cs[0].tasks[p].prio) <= Served(cs, q) * Slice(cs[0].tasks[q].prio) + 3 * d
  {
    hide Slice, Served, Take, Busy;
    CloseIsTogether(cs[0], d);
    RuntimesStayTogether(cs, ts, 2 * d);
    forall p, q | Competes(cs[0], p) && Competes(cs[0], q)
      ensures Served(cs, p) * Slice(cs[0].tasks[p].prio) <= Served(cs, q) * Slice(cs[0].tasks[q].prio) + 3 * d
    {
      assert Competes(cs[|ts|], p) && Competes(cs[|ts|], q);
    }
  }

  // ---------------------------------------------------------------- nobody starves

  /** The tasks charged, turn by turn. */
  function Order(cs: seq<Cpu>): seq<nat> { if |cs| <= 1 then [] else Order(cs[..|cs| - 1]) + [cs[|cs| - 2].current] }

  lemma {:induction false} OrderCounts(cs: seq<Cpu>, p: nat)
    requires |cs| >= 1
    ensures |Order(cs)| == |cs| - 1 && multiset(Order(cs))[p] == Served(cs, p)
    decreases |cs|
  {
    if |cs| > 1 {
      OrderCounts(cs[..|cs| - 1], p);
    }
  }

  function Without(s: seq<nat>, p: nat): seq<nat> {
    if s == [] then [] else Without(s[..|s| - 1], p) + if s[|s| - 1] == p then [] else [s[|s| - 1]]
  }

  lemma {:induction false} WithoutCounts(s: seq<nat>, p: nat)
    ensures |Without(s, p)| == |s| - multiset(s)[p]
    ensures forall q :: multiset(Without(s, p))[q] == if q == p then 0 else multiset(s)[q]
  {
    if s != [] {
      WithoutCounts(s[..|s| - 1], p);
      assert s == s[..|s| - 1] + [s[|s| - 1]];
    }
  }

  /** Leaving one out keeps the others and their counts. */
  lemma WithoutOne(s: seq<nat>, p: nat, who: set<nat>, b: nat)
    requires forall x :: x in s ==> x in who
    requires forall x :: x in who ==> multiset(s)[x] <= b
    ensures forall x :: x in Without(s, p) ==> x in who - {p}
    ensures forall x :: x in who - {p} ==> multiset(Without(s, p))[x] <= b
  {
    hide Without;
    var rest := Without(s, p);
    WithoutCounts(s, p);
    forall x | x in rest ensures x in who - {p} {
      assert x in multiset(rest);
      assert multiset(rest)[x] == if x == p then 0 else multiset(s)[x];
      assert x in multiset(s);
    }
    forall x | x in who - {p} ensures multiset(rest)[x] <= b {
      assert multiset(rest)[x] == multiset(s)[x];
    }
  }

  /** A sequence over `who` in which nobody appears more than `b` times is short. */
  lemma {:induction false} Pigeonhole(s: seq<nat>, who: set<nat>, b: nat)
    requires forall x :: x in s ==> x in who
    requires forall x :: x in who ==> multiset(s)[x] <= b
    ensures |s| <= |who| * b
    decreases who
  {
    hide Without;
    if s != [] {
      var p := s[0];
      WithoutCounts(s, p);
      WithoutOne(s, p, who, b);
      Pigeonhole(Without(s, p), who - {p}, b);
      TimesSucc(|who - {p}|, b);
    }
  }

  ghost function Rivals(c: Cpu, p: nat): set<nat> { set q | q in c.tasks && !c.tasks[q].idle && q != p }

  lemma AtMost(n: nat, w: nat, b: nat)
    requires n * w <= b && w >= 11
    ensures n <= b / 11
  {
    assert n * 11 <= n * w;
  }

  /** A task left out of every turn of a run: the others can have been charged only so often. */
  lemma UnservedBound(cs: seq<Cpu>, ts: seq<Turn>, d: nat, p: nat, q: nat)
    requires Turns(cs, ts) && Together(cs[0], d) && Competes(cs[0], p) && Served(cs, p) == 0 && Competes(cs[0], q)
    ensures Served(cs, q) <= 2 * d / 11
  {
    hide Together, Take, Served;
    ServiceIsFair(cs, ts, d, q, p);
    AtMost(Served(cs, q), Slice(cs[0].tasks[q].prio), 2 * d);
  }

  lemma {:induction false} OrderCompetes(cs: seq<Cpu>, ts: seq<Turn>, d: nat, x: nat)
    requires Turns(cs, ts) && Together(cs[0], d) && x in Order(cs)
    ensures Competes(cs[0], x)
    decreases |ts|
  {
    hide Take, Served;
    assert ts != [];
    var n := |ts| - 1;
    RuntimesStayTogether(cs[..|ts|], ts[..n], d);
    if x == cs[n].current {
      CurrentCompetes(cs[n]);
    } else {
      OrderCompetes(cs[..|ts|], ts[..n], d, x);
    }
  }

  /** No task starves: in any stretch of more than (n - 1) * 2d / 11 turns every task is charged. */
  lemma NobodyStarves(cs: seq<Cpu>, ts: seq<Turn>, d: nat, p: nat)
    requires Turns(cs, ts) && Together(cs[0], d) && Competes(cs[0], p)
    requires |ts| > |Rivals(cs[0], p)| * (2 * d / 11)
    ensures Served(cs, p) > 0
  {
    hide Take, Served, Together, Order, Turns;
    TurnsLength(cs, ts);
    if Served(cs, p) == 0 {
      var who, b := Rivals(cs[0], p), 2 * d / 11;
      OrderCounts(cs, p);
      forall x | x in Order(cs) ensures x in who {
        OrderCompetes(cs, ts, d, x);
        OrderCounts(cs, x);
        assert x in multiset(Order(cs));
      }
      forall x | x in who ensures multiset(Order(cs))[x] <= b {
        OrderCounts(cs, x);
        UnservedBound(cs, ts, d, p, x);
      }
      Pigeonhole(Order(cs), who, b);
    }
  }

  lemma TurnsLength(cs: seq<Cpu>, ts: seq<Turn>)
    requires Turns(cs, ts)
    ensures |cs| == |ts| + 1
  {
  }
}
