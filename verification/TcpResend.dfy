/**
 What a retransmission puts on the wire, in terms of the sender's stream, and
 when one round trip without loss after it gets the oldest segment acknowledged.
 */
module TcpResend {
  import opened Common
  import opened SeqArith
  import opened TcpModel
  import opened TcpSystem

  predicate IsResend(a: LocalStep) { a.Timeout? || a.FastRetransmit? }

  /** The timer runs out for the sixth time in a row. */
  predicate GivesUp(e: Endpoint, a: LocalStep)
    requires e.local.call.Some?
  {
    a.Timeout? && e.local.call.value.oldestRetries >= MAX_RETRIES
  }

  /** Where the oldest segment in flight lies in the stream of `e`, counted from its first byte. */
  function OldestAt(e: Endpoint): nat
    requires e.local.call.Some? && e.local.call.value.inflight != []
  {
    e.callAt + e.local.call.value.inflight[0].off
  }

  function OldestLen(e: Endpoint): nat
    requires e.local.call.Some? && e.local.call.value.inflight != []
  {
    e.local.call.value.inflight[0].len
  }

  /** A data segment with the bytes `at` to `at + len` of the stream of `e`, and what `e` has accepted from `f`. */
  predicate Carries(p: Stamped, e: Endpoint, f: Endpoint, at: nat, len: nat) {
    && 0 < len && at + len <= |e.sent|
    && p.seg.seqNo == Wrap(e.isn + 1 + at) && p.seg.payload == e.sent[at..at + len]
    && !p.seg.fin && !p.seg.syn && !p.seg.rst && p.seg.ack && p.seg.ackNo == Wrap(RecvPos(f, e))
    && p.seg.window == RX_BUF - |e.local.sock.rx|
    && p.seqPos == e.isn + 1 + at && p.ackPos == RecvPos(f, e)
  }

  /** In flight are the bytes from the oldest segment on, in order. */
  lemma {:induction false} OldestFirst(base: int, w: seq<InFlight>, nextOff: nat, i: nat)
    requires WindowInv(base, w, nextOff) && i < |w|
    ensures w[0].off <= w[i].off
    decreases i
  {
    hide Wrap;
    if i > 0 {
      OldestFirst(base, w, nextOff, i - 1);
      assert w[i - 1].off + w[i - 1].len == EndOf(w, nextOff, i - 1);
    }
  }

  /** The segment a retransmission sends, by its fields. */
  function Again(l: Local): Segment
    requires LocalWf(l) && l.call.Some? && l.call.value.inflight != []
  {
    var w := l.call.value.inflight[0];
    Segment(w.seqNo, l.sock.ackNo, false, false, false, true, RX_BUF - |l.sock.rx|, 0, l.call.value.data[w.off..w.off + w.len])
  }

  lemma LocalResend(l: Local, a: LocalStep)
    requires LocalEnabled(l, a) && IsResend(a)
    ensures var (l', out) := LocalApply(l, a);
            if a.Timeout? && l.call.value.oldestRetries >= MAX_RETRIES
            then out == [] && l'.sock.state.Closed? && l'.call.None?
            else out == [Again(l)] && l'.call.Some? && l'.sock == l.sock.(rtt := l'.sock.rtt)
                 && |l'.call.value.inflight| == |l.call.value.inflight|
                 && l'.call.value.inflight[0].seqNo == l.call.value.inflight[0].seqNo
                 && l'.call.value.inflight[0].len == l.call.value.inflight[0].len
                 && l'.call.value.inflight[0].off == l.call.value.inflight[0].off
  {
    hide Wrap, WrappingGe;
  }

  /** The same with the positions it is sent at. */
  function Resent(e: Endpoint, f: Endpoint): Stamped
    requires LocalWf(e.local) && e.local.call.Some? && e.local.call.value.inflight != []
  {
    Stamped(Again(e.local), Base(e) + e.local.call.value.inflight[0].off, RecvPos(f, e))
  }

  lemma ActResend(e: Endpoint, f: Endpoint, a: LocalStep)
    requires LocalEnabled(e.local, a) && IsResend(a)
    ensures var (e', out) := Act1(e, f, a);
            && e' == e.(local := LocalApply(e.local, a).0)
            && (GivesUp(e, a) ==> out == {}) && (!GivesUp(e, a) ==> out == {Resent(e, f)})
  {
    hide LocalApply, LocalEnabled, Again;
    HasOldest(e.local, a);
    LocalResend(e.local, a);
    StampOne(Again(e.local), OutPos(e, a), RecvPos(f, e));
  }

  lemma ResentCarries(strict: bool, e: Endpoint, f: Endpoint)
    requires SideInv(strict, e, f) && !e.listening && e.local.call.Some? && e.local.call.value.inflight != []
    ensures Carries(Resent(e, f), e, f, OldestAt(e), OldestLen(e))
  {
    hide Wrap, WrappingGe;
    var c := e.local.call.value;
    CallFacts(strict, e, f);
    UpAck(strict, e, f);
    WindowSpan(Base(e), c.inflight, c.nextOff, 0);
    var at, len := OldestAt(e), OldestLen(e);
    var said := e.sent[e.callAt..];
    assert e.sent[at..at + len] == said[c.inflight[0].off..c.inflight[0].off + len];
    assert c.data[..c.nextOff][c.inflight[0].off..c.inflight[0].off + len] == c.data[c.inflight[0].off..c.inflight[0].off + len];
    hide SideInv;
  }

  lemma UpAck(strict: bool, e: Endpoint, f: Endpoint)
    requires SideInv(strict, e, f) && e.local.call.Some?
    ensures e.local.sock.ackNo == Wrap(RecvPos(f, e))
  {
    hide Wrap, CallInv, LocalWf;
  }

  lemma InOrder(strict: bool, e: Endpoint, f: Endpoint)
    requires SideInv(strict, e, f) && !e.listening && e.local.call.Some? && e.local.call.value.inflight != []
    ensures forall i :: 0 <= i < |e.local.call.value.inflight| ==> OldestAt(e) <= e.callAt + e.local.call.value.inflight[i].off
  {
    var c := e.local.call.value;
    CallFacts(strict, e, f);
    forall i | 0 <= i < |c.inflight| ensures c.inflight[0].off <= c.inflight[i].off {
      OldestFirst(Base(e), c.inflight, c.nextOff, i);
    }
    hide SideInv, CallInv;
  }

  function Wire(y: Sys, who: Side): set<Stamped> { if who.Client? then y.fromClient else y.fromServer }

  /**
   In every state of every run, a retransmission that does not give up puts exactly one segment on the wire:
   the bytes of the sender's stream at the oldest segment in flight, under their own number. Giving up sends
   nothing and closes the socket.
   */
  lemma ResendsOldest(strict: bool, tr: seq<Sys>, labels: seq<Label>, i: nat)
    requires IsRun(strict, tr, labels) && i < |labels| && labels[i].step.Act? && IsResend(labels[i].step.act)
    ensures var who, e, f := labels[i].who, Mine(tr[i], labels[i].who), Peer(tr[i], labels[i].who);
            && e.local.call.Some? && e.local.call.value.inflight != []
            && (forall k :: 0 <= k < |e.local.call.value.inflight| ==> OldestAt(e) <= e.callAt + e.local.call.value.inflight[k].off)
            && if GivesUp(e, labels[i].step.act)
               then Wire(tr[i + 1], who) == Wire(tr[i], who)
                    && Mine(tr[i + 1], who).local.sock.state.Closed? && Mine(tr[i + 1], who).local.call.None?
               else exists p :: Carries(p, e, f, OldestAt(e), OldestLen(e)) && Wire(tr[i + 1], who) == Wire(tr[i], who) + {p}
  {
    hide SideInv, LocalApply, Carries, LocalEnabled;
    var who, a := labels[i].who, labels[i].step.act;
    var e, f := Mine(tr[i], who), Peer(tr[i], who);
    RunInv(strict, tr, labels, i);
    assert SysEnabled(strict, tr[i], labels[i]) && tr[i + 1] == SysApply(tr[i], labels[i]);
    assert SideInv(strict, e, f);
    HasOldest(e.local, a);
    InOrder(strict, e, f);
    LocalResend(e.local, a);
    ActResend(e, f, a);
    ResentCarries(strict, e, f);
    hide Again, OldestAt, OldestLen;
    if !GivesUp(e, a) {
      assert Wire(tr[i + 1], who) == Wire(tr[i], who) + {Resent(e, f)};
    }
  }

  lemma HasOldest(l: Local, a: LocalStep)
    requires LocalEnabled(l, a) && IsResend(a)
    ensures LocalWf(l) && l.call.Some? && l.call.value.inflight != []
  {
  }

  // ---------------------------------------------------------------- one round trip

  /** How much of a segment is taken: all that fits, if it is the next one. */
  function Taken(s: Sock, g: Segment): nat
    requires |s.rx| <= RX_BUF
  {
    if g.seqNo == s.ackNo then Min(|g.payload|, RX_BUF - |s.rx|) else 0
  }

  /** An acknowledgement of everything `e` has accepted. */
  predicate Acknowledges(q: Stamped, e: Endpoint, f: Endpoint) {
    && q.seg.ack && q.seg.ackNo == e.local.sock.ackNo && q.seg.payload == [] && !q.seg.rst && !q.seg.syn && !q.seg.fin
    && q.seqPos == SendPos(e) && q.ackPos == RecvPos(f, e)
  }

  /** An endpoint that still takes data answers any data with one acknowledgement of where it then stands. */
  lemma Answers(e: Endpoint, f: Endpoint, p: Stamped) returns (q: Stamped)
    requires LocalWf(e.local) && Flowing(e.local.sock.state)
    requires p.seg.payload != [] && !p.seg.rst && !p.seg.syn && !p.seg.fin
    ensures var (e', out) := Receive1(e, f, p);
            && e'.drained == e.drained && e'.gotFin == e.gotFin && e'.isn == e.isn
            && e'.local.sock.rx == e.local.sock.rx + p.seg.payload[..Taken(e.local.sock, p.seg)]
            && e'.local.sock.ackNo == Wrap(e.local.sock.ackNo + Taken(e.local.sock, p.seg))
            && out == {q} && Acknowledges(q, e', f)
  {
    hide WrappingGe;
    var (e', out) := Receive1(e, f, p);
    var g := Plain(e'.local.sock, false);
    q := Stamped(g, SendPos(e'), RecvPos(f, e'));
    assert Recv(e.local.sock, p.seg).1 == [g];
    StampOne(g, SendPos(e'), RecvPos(f, e'));
  }

  /** Receiving an acknowledgement, and nothing else, moves the acknowledged number if it is not behind. */
  lemma TakesAnswer(e: Endpoint, f: Endpoint, q: Stamped)
    requires LocalWf(e.local) && (Flowing(e.local.sock.state) || e.local.sock.state.CloseWait?)
    requires q.seg.ack && q.seg.payload == [] && !q.seg.rst && !q.seg.syn && !q.seg.fin
    ensures var e' := Receive1(e, f, q).0;
            && e'.local.call == e.local.call && LocalWf(e'.local)
            && e'.local.sock.peerAcked == if WrappingGe(q.seg.ackNo, e.local.sock.peerAcked) then q.seg.ackNo else e.local.sock.peerAcked
  {
    hide WrappingGe, Wrap;
  }

  /**
   The oldest segment is sent again, arrives, and the answer arrives. Then it is acknowledged if and only if the peer had
   it already, or was waiting for just this segment and has room for all of it.
   */
  lemma RoundTripHealsIff(e: Endpoint, f: Endpoint, a: LocalStep) returns (p: Stamped, q: Stamped)
    requires SideInv(true, e, f) && SideInv(true, f, e) && !e.listening
    requires LocalEnabled(e.local, a) && IsResend(a) && !GivesUp(e, a)
    requires SendPos(e) - e.peerAckedPos < M31
    requires Flowing(f.local.sock.state) && (Flowing(e.local.sock.state) || e.local.sock.state.CloseWait?)
    requires -M32 < e.isn + 1 + OldestAt(e) - RecvPos(e, f) < M32
    ensures Act1(e, f, a).1 == {p} && Carries(p, e, f, OldestAt(e), OldestLen(e))
    ensures var e1 := Act1(e, f, a).0;
            var (f1, out) := Receive1(f, e1, p);
            && out == {q} && LocalWf(e1.local)
            && var e2 := Receive1(e1, f1, q).0;
               && e2.local.call.Some?
               && var at, end, stands := e.isn + 1 + OldestAt(e), e.isn + 1 + OldestAt(e) + OldestLen(e), RecvPos(e, f);
                  (FrontAcked(e2.local.sock, e2.local.call.value) <==>
                     stands >= end || (stands == at && RX_BUF - |f.local.sock.rx| >= OldestLen(e)))
  {
    hide SideInv, LocalApply, LocalEnabled, Wrap, WrappingGe, Again, Receive1;
    HasOldest(e.local, a);
    LocalResend(e.local, a);
    ActResend(e, f, a);
    ResentCarries(true, e, f);
    p := Resent(e, f);
    var e1 := Act1(e, f, a).0;
    SideInvWf(true, f, e);
    q := Answers(f, e1, p);
    var f1 := Receive1(f, e1, p).0;
    var e2 := Receive1(e1, f1, q).0;
    TakesAnswer(e1, f1, q);
    Positions(e, f);
    var w := e.local.call.value.inflight[0];
    var at, end, stands := e.isn + 1 + OldestAt(e), e.isn + 1 + OldestAt(e) + OldestLen(e), RecvPos(e, f);
    var taken := Taken(f.local.sock, p.seg);
    WrapInjective(at, stands);
    WrapAdd(stands, taken);
    WrapAdd(at, w.len);
    assert f1.local.sock.ackNo == Wrap(stands + taken);
    WrappingGeExact(stands + taken, e.peerAckedPos);
    WrappingGeExact(stands + taken, end);
  }

  lemma Positions(e: Endpoint, f: Endpoint)
    requires SideInv(true, e, f) && SideInv(true, f, e) && !e.listening && Flowing(f.local.sock.state)
    requires e.local.call.Some? && e.local.call.value.inflight != []
    ensures f.local.sock.ackNo == Wrap(RecvPos(e, f)) && e.local.sock.peerAcked == Wrap(e.peerAckedPos)
    ensures e.peerAckedPos <= RecvPos(e, f) <= SendPos(e) && e.isn + 1 + OldestAt(e) + OldestLen(e) <= SendPos(e)
    ensures SendPos(e) <= e.isn + 1 + OldestAt(e) + WINDOW
    ensures e.local.call.value.inflight[0].seqNo == Wrap(e.isn + 1 + OldestAt(e)) && OldestLen(e) > 0
  {
    hide Wrap, WrappingGe;
    var c := e.local.call.value;
    CallFacts(true, e, f);
    WindowSpan(Base(e), c.inflight, c.nextOff, 0);
    AckedWithinSent(true, e, f);
  }
}
