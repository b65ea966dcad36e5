/**
 The run queue: a singly linked list threaded through the processes, with head,
 tail and length, changed in place by push, pop and remove.
 */
module RunQueue {
  import opened SchedModel

  class Process {
    const pid: nat
    const isIdle: bool
    var vruntime: nat
    var state: State
    var priority: nat
    var sleepUntil: nat
    var rqNext: Process?
    var onRq: bool

    constructor (pid: nat, isIdle: bool, priority: nat, vruntime: nat, state: State)
      ensures this.pid == pid && this.isIdle == isIdle && this.priority == priority
      ensures this.vruntime == vruntime && this.state == state && sleepUntil == 0 && rqNext == null && !onRq
    {
      this.pid, this.isIdle, this.priority, this.vruntime := pid, isIdle, priority, vruntime;
      this.state, sleepUntil, rqNext, onRq := state, 0, null, false;
    }
  }

  predicate Before(p: Process, q: Process)
    reads p`vruntime, q`vruntime
  {
    KeyLt(p.vruntime, p.pid, q.vruntime, q.pid)
  }

  ghost predicate Sorted(ps: seq<Process>)
    reads ps`vruntime
  {
    forall i, j :: 0 <= i < j < |ps| ==> Before(ps[i], ps[j])
  }

  ghost predicate Linked(ps: seq<Process>)
    reads ps`rqNext
  {
    forall i :: 0 <= i < |ps| ==> ps[i].rqNext == Successor(ps, i)
  }

  lemma Distinct(ps: seq<Process>, i: nat)
    requires Sorted(ps) && i < |ps|
    ensures forall j :: 0 <= j < |ps| && j != i ==> ps[j] != ps[i]
  {
    forall j | 0 <= j < |ps| && j != i ensures ps[j] != ps[i] {
      assert if i < j then Before(ps[i], ps[j]) else Before(ps[j], ps[i]);
    }
  }

  /** A place that is right for its neighbours is right for the list. */
  lemma SplitSorted(ps: seq<Process>, i: nat, p: Process)
    requires Sorted(ps) && i <= |ps|
    requires i > 0 ==> Before(ps[i - 1], p)
    requires i < |ps| ==> Before(p, ps[i])
    ensures Sorted(ps[..i] + [p] + ps[i..])
  {
    forall j | 0 <= j < i ensures Before(ps[j], p) {
      assert j < i - 1 ==> Before(ps[j], ps[i - 1]);
    }
    forall j | i <= j < |ps| ensures Before(p, ps[j]) {
      assert i < j ==> Before(ps[i], ps[j]);
    }
  }

  lemma Comparable(p: Process, q: Process)
    requires p.pid != q.pid
    ensures Before(p, q) || Before(q, p)
  {
  }

  function Successor(ps: seq<Process>, i: nat): Process? { if i + 1 < |ps| then ps[i + 1] else null }

  lemma NextOf(ps: seq<Process>, i: nat)
    requires Linked(ps) && i < |ps|
    ensures ps[i].rqNext == Successor(ps, i)
  {
  }

  /** Two stores put `p` behind the `i`-th process. */
  lemma Spliced(ps: seq<Process>, i: nat, p: Process)
    requires i < |ps| && ps[i].rqNext == p && p.rqNext == Successor(ps, i)
    requires forall j :: 0 <= j < |ps| && j != i ==> ps[j].rqNext == Successor(ps, j)
    ensures Linked(ps[..i + 1] + [p] + ps[i + 1..])
  {
    var ps' := ps[..i + 1] + [p] + ps[i + 1..];
    forall j | 0 <= j < |ps'| ensures ps'[j].rqNext == Successor(ps', j) {
      if j < i {
        assert ps'[j] == ps[j];
      } else if j > i + 1 {
        assert ps'[j] == ps[j - 1];
      }
    }
  }

  lemma LinkedFront(ps: seq<Process>, p: Process)
    requires Linked(ps) && ps != [] && p.rqNext == ps[0]
    ensures Linked([p] + ps)
  {
    var ps' := [p] + ps;
    forall j | 0 <= j < |ps'| ensures ps'[j].rqNext == Successor(ps', j) {
      if j > 0 {
        assert ps'[j] == ps[j - 1] && Successor(ps', j) == Successor(ps, j - 1);
      }
    }
  }

  lemma SpliceEnds(ps: seq<Process>, i: nat, p: Process)
    requires i < |ps|
    ensures var ps' := ps[..i + 1] + [p] + ps[i + 1..];
            && |ps'| == |ps| + 1 && ps'[0] == ps[0] && ps'[|ps|] == (if i + 1 == |ps| then p else ps[|ps| - 1])
            && forall q :: q in ps' <==> q in ps || q == p
  {
    assert ps == ps[..i + 1] + ps[i + 1..];
  }

  /** Three stores take the `i`-th process out. */
  lemma Unspliced(ps: seq<Process>, i: nat)
    requires i < |ps| && (i > 0 ==> ps[i - 1].rqNext == Successor(ps, i))
    requires forall j :: 0 <= j < |ps| && j != i && j != i - 1 ==> ps[j].rqNext == Successor(ps, j)
    ensures Linked(ps[..i] + ps[i + 1..])
  {
    var ps' := ps[..i] + ps[i + 1..];
    forall j | 0 <= j < |ps'| ensures ps'[j].rqNext == Successor(ps', j) {
      if j < i {
        assert ps'[j] == ps[j];
      } else {
        assert ps'[j] == ps[j + 1];
      }
    }
  }

  lemma UnspliceEnds(ps: seq<Process>, i: nat)
    requires Sorted(ps) && i < |ps|
    ensures var ps' := ps[..i] + ps[i + 1..];
            && |ps'| == |ps| - 1 && Sorted(ps')
            && (ps' != [] ==> ps'[0] == ps[if i == 0 then 1 else 0] && ps'[|ps'| - 1] == ps[if i == |ps'| then i - 1 else |ps'|])
            && forall q :: q in ps' <==> q in ps && q != ps[i]
  {
    var ps' := ps[..i] + ps[i + 1..];
    Distinct(ps, i);
    assert ps == ps[..i] + [ps[i]] + ps[i + 1..];
    forall q | q in ps && q != ps[i] ensures q in ps' {
      var j :| 0 <= j < |ps| && ps[j] == q;
      assert ps'[if j < i then j else j - 1] == q;
    }
    forall a, b | 0 <= a < b < |ps'| ensures Before(ps'[a], ps'[b]) {
      assert ps'[a] == ps[if a < i then a else a + 1] && ps'[b] == ps[if b < i then b else b + 1];
    }
  }

  class RunQueue {
    var head: Process?
    var tail: Process?
    var len: nat
    /** The processes on the list, head first. */
    ghost var list: seq<Process>

    ghost predicate Valid()
      reads this, list`vruntime, list`rqNext, list`onRq
    {
      && len == |list|
      && head == (if list == [] then null else list[0])
      && tail == (if list == [] then null else list[|list| - 1])
      && Linked(list) && Sorted(list)
      && forall p :: p in list ==> p.onRq
    }

    constructor ()
      ensures Valid() && list == [] && fresh(this)
    {
      head, tail, len, list := null, null, 0, [];
    }

    /** The walk of a push: the last process that stays in front of `p`. */
    method FindPlace(p: Process) returns (curr: Process, ghost i: nat)
      requires Valid() && list != [] && Before(list[0], p) && forall q :: q in list ==> q.pid != p.pid
      ensures i < |list| && curr == list[i] && Before(curr, p)
      ensures i + 1 < |list| ==> Before(p, list[i + 1])
    {
      hide Sorted, Before;
      curr, i := head, 0;
      while true
        invariant 0 <= i < |list| && curr == list[i] && Before(curr, p)
        decreases |list| - i
      {
        var next := curr.rqNext;
        assert next == Successor(list, i);
        if next == null || Before(p, next) {
          return;
        }
        Comparable(p, next);
        curr, i := next, i + 1;
      }
    }

    /** The link stores of a push behind `curr`, the `i`-th process. */
    method Attach(curr: Process, ghost i: nat, p: Process)
      requires Valid() && i < |list| && curr == list[i] && p !in list && p.rqNext == null
      modifies this`tail, p`rqNext, curr`rqNext
      ensures Linked(list[..i + 1] + [p] + list[i + 1..])
      ensures tail == if i + 1 == |list| then p else old(tail)
    {
      hide Sorted, Before, Linked;
      Distinct(list, i);
      forall j | 0 <= j < |list| ensures list[j].rqNext == Successor(list, j) { NextOf(list, j); }
      assert curr.rqNext == Successor(list, i);
      if curr.rqNext == null {
        tail := p;
      } else {
        p.rqNext := curr.rqNext;
      }
      curr.rqNext := p;
      Spliced(list, i, p);
    }

    method LinkBehind(curr: Process, ghost i: nat, p: Process)
      requires Valid() && i < |list| && curr == list[i] && p !in list && p.onRq && p.rqNext == null
      requires Before(curr, p) && (i + 1 < |list| ==> Before(p, list[i + 1]))
      modifies this, p`rqNext, curr`rqNext
      ensures Valid() && |list| == |old(list)| + 1 && forall q :: q in list <==> q in old(list) || q == p
    {
      hide Sorted, Before, Linked;
      SplitSorted(list, i + 1, p);
      SpliceEnds(list, i, p);
      Attach(curr, i, p);
      list := list[..i + 1] + [p] + list[i + 1..];
      len := len + 1;
    }

    /** `rq_push_sorted`: in order by (vruntime, pid); a process already linked stays where it is. */
    method Push(p: Process)
      requires Valid() && (p.onRq <==> p in list)
      requires forall q :: q in list && q != p ==> q.pid != p.pid
      modifies this, p`rqNext, p`onRq, list`rqNext
      ensures Valid() && p.onRq && |list| == |old(list)| + if old(p.onRq) then 0 else 1
      ensures forall q :: q in list <==> q in old(list) || q == p
    {
      hide Sorted, Before, Linked;
      if p.onRq {
        return;
      }
      p.rqNext := null;
      p.onRq := true;
      if head == null {
        SingleList(p);
        head, tail, len, list := p, p, 1, [p];
      } else if Before(p, head) {
        PushFront(p);
      } else {
        Comparable(p, head);
        if Before(tail, p) {
          SplitSorted(list, |list|, p);
          LinkBehind(tail, |list| - 1, p);
        } else {
          var curr, i := FindPlace(p);
          LinkBehind(curr, i, p);
        }
      }
    }

    method PushFront(p: Process)
      requires Valid() && list != [] && p !in list && p.onRq && Before(p, list[0])
      modifies this, p`rqNext
      ensures Valid() && list == [p] + old(list)
    {
      hide Sorted, Before, Linked;
      SplitSorted(list, 0, p);
      assert list[..0] + [p] + list[0..] == [p] + list;
      p.rqNext := head;
      LinkedFront(list, p);
      head, list := p, [p] + list;
      len := len + 1;
    }

    /** The link stores that take `curr`, the `i`-th process, off the list. */
    method Bypass(prev: Process?, curr: Process, ghost i: nat)
      requires Valid() && i < |list| && curr == list[i] && prev == if i == 0 then null else list[i - 1]
      modifies this`head, list`rqNext
      ensures Linked(list[..i] + list[i + 1..])
      ensures head == if i > 0 then list[0] else Successor(list, 0)
    {
      hide Sorted, Before, Linked;
      Distinct(list, i);
      forall j | 0 <= j < |list| ensures list[j].rqNext == Successor(list, j) { NextOf(list, j); }
      assert curr.rqNext == Successor(list, i);
      if prev == null {
        head := curr.rqNext;
      } else {
        Distinct(list, i - 1);
        prev.rqNext := curr.rqNext;
      }
      curr.rqNext := null;
      Unspliced(list, i);
    }

    method Unlink(prev: Process?, curr: Process, ghost i: nat)
      requires Valid() && i < |list| && curr == list[i] && prev == if i == 0 then null else list[i - 1]
      modifies this, list`rqNext, curr`onRq
      ensures Valid() && list == old(list)[..i] + old(list)[i + 1..] && !curr.onRq
      ensures |list| == |old(list)| - 1 && forall q :: q in list <==> q in old(list) && q != curr
    {
      hide Sorted, Before, Linked;
      UnspliceEnds(list, i);
      Distinct(list, i);
      Bypass(prev, curr, i);
      if tail == curr { tail := prev; }
      curr.onRq := false;
      list := list[..i] + list[i + 1..];
      len := len - 1;
    }

    /** `rq_pop_min`: the least process that is not idle. */
    method PopMin() returns (r: Process?)
      requires Valid()
      modifies this, list`rqNext, list`onRq
      ensures Valid()
      ensures r == null ==> list == old(list) && (forall q :: q in list ==> q.isIdle)
      ensures r != null ==> r in old(list) && !r.isIdle && !r.onRq && |list| == |old(list)| - 1
      ensures r != null ==> forall q :: q in list <==> q in old(list) && q != r
      ensures r != null ==> forall q :: q in list && !q.isIdle ==> Before(r, q)
      ensures old(list) != [] && !old(list)[0].isIdle ==> r == old(list)[0]
      ensures forall q :: q in list ==> q.onRq
    {
      hide Linked;
      var prev: Process? := null;
      var curr := head;
      ghost var i := 0;
      while curr != null
        invariant 0 <= i <= |list| && curr == (if i < |list| then list[i] else null)
        invariant prev == if i == 0 then null else list[i - 1]
        invariant forall j :: 0 <= j < i ==> list[j].isIdle
        invariant Valid() && list == old(list)
        decreases |list| - i
      {
        if !curr.isIdle {
          Unlink(prev, curr, i);
          return curr;
        }
        NextOf(list, i);
        prev, curr, i := curr, curr.rqNext, i + 1;
      }
      return null;
    }

    method PeekMinVr() returns (r: int)
      requires Valid()
      ensures r == if list == [] then -1 else list[0].vruntime
    {
      r := if head == null then -1 else head.vruntime;
    }

    method HasNonIdle() returns (r: bool)
      requires Valid()
      ensures r <==> exists q :: q in list && !q.isIdle
    {
      var curr := head;
      ghost var i := 0;
      while curr != null
        invariant 0 <= i <= |list| && curr == (if i < |list| then list[i] else null)
        invariant forall j :: 0 <= j < i ==> list[j].isIdle
        decreases |list| - i
      {
        if !curr.isIdle {
          return true;
        }
        NextOf(list, i);
        curr, i := curr.rqNext, i + 1;
      }
      return false;
    }

    /** `rq_remove`: the process with this pid, if it is on the list. */
    method Remove(pid: nat) returns (r: bool)
      requires Valid() && forall p, q :: p in list && q in list && p != q ==> p.pid != q.pid
      modifies this, list`rqNext, list`onRq
      ensures Valid() && (r <==> exists q :: q in old(list) && q.pid == pid)
      ensures forall q :: q in list <==> q in old(list) && q.pid != pid
      ensures forall q :: q in old(list) && q.pid == pid ==> !q.onRq
      ensures |list| == |old(list)| - (if r then 1 else 0) && forall q :: q in list ==> q.onRq
    {
      hide Linked, Sorted;
      if head == null {
        return false;
      }
      if head.pid == pid {
        Unlink(null, head, 0);
        return true;
      }
      var curr := head;
      ghost var i := 0;
      while true
        invariant 0 <= i < |list| && curr == list[i]
        invariant forall j :: 0 <= j <= i ==> list[j].pid != pid
        invariant Valid() && list == old(list)
        decreases |list| - i
      {
        NextOf(list, i);
        var next := curr.rqNext;
        if next == null {
          return false;
        }
        if next.pid == pid {
          Unlink(curr, next, i + 1);
          return true;
        }
        curr, i := next, i + 1;
      }
    }
  }

  lemma SingleList(p: Process)
    ensures Sorted([p]) && (p.rqNext == null ==> Linked([p]))
  {
  }
}
