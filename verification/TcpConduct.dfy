/**
 How the sender behaves over whole calls: what it puts on the wire next and how
 much the peer's window allows, when it closes, which segments it takes
 round-trip samples from, and when the timer gives up.
 */
module TcpConduct {
  import opened Common
  import opened SeqArith
  import opened TcpModel
  import opened TcpSystem
  import opened TcpResend

  // ---------------------------------------------------------------- the next segment

  lemma LocalFill(l: Local, now: nat)
    requires LocalEnabled(l, FillOne(now))
    ensures var (l', out) := LocalApply(l, FillOne(now));
            var c := l.call.value;
            var len := Min(c.mss, |c.data| - c.nextOff);
            && c.nextOff + len <= |c.data|
            && out == [Segment(l.sock.seqNo, l.sock.ackNo, false, false, false, true, RX_BUF - |l.sock.rx|, 0, c.data[c.nextOff..c.nextOff + len])]
            && l'.call == Some(c.(inflight := c.inflight + [InFlight(c.nextOff, len, l.sock.seqNo, now, false)], nextOff := c.nextOff + len))
            && l'.sock == l.sock.(seqNo := Wrap(l.sock.seqNo + len))
  {
    hide Wrap;
  }

  /** The bytes the next segment takes. */
  function NextBytes(c: SendCall): seq<byte>
    requires c.nextOff <= |c.data|
  {
    c.data[c.nextOff..c.nextOff + Min(c.mss, |c.data| - c.nextOff)]
  }

  lemma ActFill(e: Endpoint, f: Endpoint, now: nat) returns (p: Stamped)
    requires LocalEnabled(e.local, FillOne(now)) && e.local.call.value.nextOff <= |e.local.call.value.data|
    ensures var (e', out) := Act1(e, f, FillOne(now));
            && out == {p} && p.seqPos == SendPos(e) && p.ackPos == RecvPos(f, e)
            && p.seg == Segment(e.local.sock.seqNo, e.local.sock.ackNo, false, false, false, true, RX_BUF - |e.local.sock.rx|, 0, NextBytes(e.local.call.value))
            && e'.sent == e.sent + NextBytes(e.local.call.value) && e'.isn == e.isn && e'.finned == e.finned && e'.callAt == e.callAt
            && e'.peerAckedPos == e.peerAckedPos && e'.drained == e.drained && e'.gotFin == e.gotFin && e'.local.sock.rx == e.local.sock.rx
            && e'.local.call.Some? && |e'.local.call.value.inflight| == |e.local.call.value.inflight| + 1
  {
    hide Wrap, WrappingGe, LocalApply, LocalEnabled;
    LocalFill(e.local, now);
    var out := LocalApply(e.local, FillOne(now)).1;
    p := Stamped(out[0], SendPos(e), RecvPos(f, e));
    StampOne(out[0], SendPos(e), RecvPos(f, e));
  }

  lemma FillBounds(l: Local, now: nat)
    requires LocalEnabled(l, FillOne(now))
    ensures l.call.Some?
    ensures var c := l.call.value;
            && c.nextOff < |c.data| && |c.inflight| < SND_WND_SEGS
            && (c.inflight != [] ==> (l.sock.seqNo - l.sock.peerAcked) % M32 + c.mss <= l.sock.sndWnd)
  {
  }

  /** One more segment: the next bytes of the data, behind everything sent so far. */
  lemma FillOf(strict: bool, e: Endpoint, f: Endpoint, now: nat) returns (p: Stamped)
    requires SideInv(strict, e, f) && !e.listening && LocalEnabled(e.local, FillOne(now))
    ensures var e' := Act1(e, f, FillOne(now)).0;
            var c, len := e.local.call.value, |e'.sent| - |e.sent|;
            && Act1(e, f, FillOne(now)).1 == {p} && e.sent <= e'.sent && 0 < len <= c.mss <= MAX_SEG && Carries(p, e', f, |e.sent|, len)
            && e'.local.call.Some? && |e'.local.call.value.inflight| == |c.inflight| + 1 <= SND_WND_SEGS
            && c.nextOff + len <= |c.data| && e.callAt <= |e.sent| && e'.sent[e.callAt..] == c.data[..c.nextOff + len]
            && SendPos(e') == SendPos(e) + len && e'.peerAckedPos == e.peerAckedPos
  {
    hide Wrap, WrappingGe, SideInv, LocalApply, LocalEnabled, Act1, WindowInv;
    FillBounds(e.local, now);
    CallFacts(strict, e, f);
    UpAck(strict, e, f);
    p := ActFill(e, f, now);
    var c := e.local.call.value;
    var e' := Act1(e, f, FillOne(now)).0;
    MoreSaid(e.sent, e.callAt, c);
    assert e'.sent[|e.sent|..|e'.sent|] == NextBytes(c);
  }

  lemma MoreSaid(sent: seq<byte>, at: nat, c: SendCall)
    requires at <= |sent| && c.nextOff < |c.data| && c.mss > 0 && sent[at..] == c.data[..c.nextOff]
    ensures var more := NextBytes(c);
            && 0 < |more| <= c.mss && c.nextOff + |more| <= |c.data|
            && (sent + more)[at..] == c.data[..c.nextOff + |more|] && (sent + more)[|sent|..] == more
  {
    var more := NextBytes(c);
    assert (sent + more)[at..] == sent[at..] + more;
    assert c.data[..c.nextOff] + more == c.data[..c.nextOff + |more|];
  }

  /**
   In every state of every run, the next segment carries the next bytes of the call behind everything sent before, in one
   piece no longer than the peer takes; at most eight are in flight, and unless it is the only one, the peer's window
   has room for it on top of everything unacknowledged.
   */
  lemma FillsNext(strict: bool, tr: seq<Sys>, labels: seq<Label>, i: nat)
    requires IsRun(strict, tr, labels) && i < |labels| && labels[i].step.Act? && labels[i].step.act.FillOne?
    ensures var who, e, e', f := labels[i].who, Mine(tr[i], labels[i].who), Mine(tr[i + 1], labels[i].who), Peer(tr[i], labels[i].who);
            && e.local.call.Some? && e'.local.call.Some? && e.sent <= e'.sent
            && var c, len := e.local.call.value, |e'.sent| - |e.sent|;
               && 0 < len <= c.mss <= MAX_SEG && |e'.local.call.value.inflight| <= SND_WND_SEGS
               && (exists p :: Wire(tr[i + 1], who) == Wire(tr[i], who) + {p} && Carries(p, e', f, |e.sent|, len))
               && c.nextOff + len <= |c.data| && e.callAt <= |e.sent| && e'.sent[e.callAt..] == c.data[..c.nextOff + len]
               && (strict && c.inflight != [] && SendPos(e) - e.peerAckedPos < M32 ==>
                     SendPos(e') - e'.peerAckedPos <= e.local.sock.sndWnd)
  {
    hide SideInv, LocalApply, Carries, LocalEnabled, Act1, Wrap;
    var who, now := labels[i].who, labels[i].step.act.fillNow;
    var e, f := Mine(tr[i], who), Peer(tr[i], who);
    RunInv(strict, tr, labels, i);
    assert SysEnabled(strict, tr[i], labels[i]) && tr[i + 1] == SysApply(tr[i], labels[i]);
    assert SideInv(strict, e, f) && SideInv(strict, f, e);
    FillBounds(e.local, now);
    var p := FillOf(strict, e, f, now);
    assert Wire(tr[i + 1], who) == Wire(tr[i], who) + {p};
    if strict && e.local.call.value.inflight != [] && SendPos(e) - e.peerAckedPos < M32 {
      Outstanding(e, f);
    }
  }

  /** What the code computes from the two numbers is the bytes not acknowledged. */
  lemma Outstanding(e: Endpoint, f: Endpoint)
    requires SideInv(true, e, f) && SideInv(true, f, e) && !e.listening && e.local.call.Some? && SendPos(e) - e.peerAckedPos < M32
    ensures (e.local.sock.seqNo - e.local.sock.peerAcked) % M32 == SendPos(e) - e.peerAckedPos
  {
    hide WrappingGe, CallInv;
    AckedWithinSent(true, e, f);
    WrapDistance(SendPos(e), e.peerAckedPos);
  }

  // ---------------------------------------------------------------- closing

  /** A FIN right behind everything `e` has sent. */
  predicate EndsStream(p: Stamped, e: Endpoint, f: Endpoint) {
    && p.seg.fin && p.seg.payload == [] && !p.seg.syn && !p.seg.rst && p.seg.ack && p.seg.ackNo == e.local.sock.ackNo
    && p.seg.seqNo == Wrap(e.isn + 1 + |e.sent|) && p.seqPos == e.isn + 1 + |e.sent| && p.ackPos == RecvPos(f, e)
  }

  lemma CloseOf(strict: bool, e: Endpoint, f: Endpoint) returns (p: Stamped)
    requires SideInv(strict, e, f) && !e.listening && LocalEnabled(e.local, CloseBegin)
    ensures Act1(e, f, CloseBegin).1 == {p} && EndsStream(p, e, f) && Act1(e, f, CloseBegin).0.finned
    ensures Act1(e, f, CloseBegin).0.sent == e.sent
  {
    hide Wrap, WrappingGe, CallInv;
    p := Stamped(Plain(e.local.sock, true), SendPos(e), RecvPos(f, e));
    assert LocalApply(e.local, CloseBegin).1 == [Plain(e.local.sock, true)];
    StampOne(Plain(e.local.sock, true), SendPos(e), RecvPos(f, e));
  }

  /** In every run, closing puts exactly one FIN on the wire, right behind the last byte. */
  lemma ClosesWithFin(strict: bool, tr: seq<Sys>, labels: seq<Label>, i: nat)
    requires IsRun(strict, tr, labels) && i < |labels| && labels[i].step == Act(CloseBegin)
    ensures var who, e, e', f := labels[i].who, Mine(tr[i], labels[i].who), Mine(tr[i + 1], labels[i].who), Peer(tr[i], labels[i].who);
            && e'.sent == e.sent && e'.finned
            && exists p :: Wire(tr[i + 1], who) == Wire(tr[i], who) + {p} && EndsStream(p, e, f)
  {
    hide SideInv, LocalApply, LocalEnabled, Act1, Wrap, EndsStream;
    var who := labels[i].who;
    var e, f := Mine(tr[i], who), Peer(tr[i], who);
    RunInv(strict, tr, labels, i);
    assert SysEnabled(strict, tr[i], labels[i]) && tr[i + 1] == SysApply(tr[i], labels[i]);
    assert SideInv(strict, e, f);
    var p := CloseOf(strict, e, f);
    assert Wire(tr[i + 1], who) == Wire(tr[i], who) + {p};
  }

  /** A peer that has everything takes the FIN for the end of the stream, and acknowledges it. */
  lemma FinEnds(e: Endpoint, f: Endpoint, p: Stamped) returns (q: Stamped)
    requires SideInv(false, f, e) && Flowing(f.local.sock.state) && EndsStream(p, e, f) && |Got(f)| == |e.sent|
    ensures LocalWf(f.local)
    ensures var (f', out) := Receive1(f, e, p);
            && f'.gotFin && f'.local.sock.peerClosed && Got(f') == Got(f)
            && f'.local.sock.state == (if f.local.sock.state.Established? then CloseWait else Closed)
            && f'.local.sock.ackNo == Wrap(e.isn + 1 + |e.sent| + 1)
            && out == {q} && Acknowledges(q, f', e)
  {
    hide WrappingGe, CallInv;
    var (s', out) := Recv(f.local.sock, p.seg);
    var f' := Receive1(f, e, p).0;
    WrapAdd(e.isn + 1 + |e.sent|, 1);
    var g := Plain(f'.local.sock, false);
    q := Stamped(g, SendPos(f'), RecvPos(e, f'));
    assert out == [g];
    StampOne(g, SendPos(f'), RecvPos(e, f'));
  }

  // ---------------------------------------------------------------- the states

  /** A FIN is taken at the number expected next. On a segment with data that is so only when none of the data fits:
      otherwise the data moves the number and the FIN is left for another segment. */
  predicate FinTaken(s: Sock, g: Segment) { g.fin && g.seqNo == s.ackNo && (g.payload == [] || |s.rx| == RX_BUF) }

  /** Section 3.3.2 of RFC 9293, as far as this socket has it. */
  function NextState(s: Sock, g: Segment): TcpState {
    if g.rst then Closed
    else match s.state
      case SynSent => if g.syn && g.ack then Established else SynSent
      case SynReceived => if g.ack && g.ackNo == s.seqNo then (if FinTaken(s, g) then CloseWait else Established) else SynReceived
      case Established => if FinTaken(s, g) then CloseWait else Established
      case FinWait1 => if FinTaken(s, g) then Closed else FinWait1
      case FinWait2 => if FinTaken(s, g) then Closed else FinWait2
      case CloseWait => CloseWait
      case LastAck => if g.ack then Closed else LastAck
      case Closed => Closed
  }

  /** Whether the segment is the last the peer sends. */
  predicate PeerEnds(s: Sock, g: Segment) {
    g.rst || (FinTaken(s, g) && (Flowing(s.state) || (s.state.SynReceived? && g.ack && g.ackNo == s.seqNo)))
  }

  lemma FlowingStates(s: Sock, g: Segment)
    requires |s.rx| <= RX_BUF && Flowing(s.state)
    ensures var s' := FlowingPart(s, g).0;
            && s'.state == (if FinTaken(s, g) then (if s.state.Established? then CloseWait else Closed) else s.state)
            && (s'.peerClosed <==> (s.peerClosed || FinTaken(s, g)))
            && s'.sndWnd == s.sndWnd && s'.peerMss == s.peerMss
  {
    hide WrappingGe;
    if g.payload != [] && g.seqNo == s.ackNo && |s.rx| < RX_BUF {
      Moved(s.ackNo, Min(|g.payload|, RX_BUF - |s.rx|));
    }
  }

  lemma Moved(n: u32, k: nat)
    requires 0 < k <= RX_BUF
    ensures Wrap(n + k) != n && Wrap(n) == n
  {
  }

  lemma DispatchStates(s: Sock, g: Segment)
    requires |s.rx| <= RX_BUF && !g.rst
    ensures var s' := Dispatch(s, g).0;
            && s'.state == NextState(s, g) && (s'.peerClosed <==> (s.peerClosed || PeerEnds(s, g)))
            && s'.sndWnd == (if g.ack then g.window else s.sndWnd) && s'.peerMss == s.peerMss
  {
    hide WrappingGe, Wrap, FlowingPart, Plain;
    var s1 := if g.ack then s.(sndWnd := g.window) else s;
    if Flowing(s.state) { FlowingStates(s1, g); }
    if s.state.SynReceived? && g.ack && g.ackNo == s.seqNo { FlowingStates(s1.(peerAcked := g.ackNo, state := Established), g); }
  }

  /** The state after any segment in any state, with the window and segment size the peer announces. */
  lemma StateDiagram(s: Sock, g: Segment)
    requires |s.rx| <= RX_BUF
    ensures var s' := Recv(s, g).0;
            && s'.state == NextState(s, g) && (s'.peerClosed <==> (s.peerClosed || PeerEnds(s, g)))
            && s'.sndWnd == (if g.ack && !g.rst then g.window else s.sndWnd)
            && s'.peerMss == (if g.syn && !g.rst then g.synMss else s.peerMss)
            && (g.rst ==> s'.rx == s.rx && s'.ackNo == s.ackNo && s'.seqNo == s.seqNo && Recv(s, g).1 == [])
  {
    hide Dispatch;
    if !g.rst { DispatchStates(if g.syn then s.(peerMss := g.synMss) else s, g); }
  }

  // ---------------------------------------------------------------- samples

  /** How often a data segment with number `q` went out. */
  function TimesSent(out: seq<Segment>, q: u32): nat {
    if out == [] then 0
    else
      var g := out[|out| - 1];
      TimesSent(out[..|out| - 1], q) + if g.payload != [] && g.seqNo == q then 1 else 0
  }

  /** The call as its own steps keep it; its numbers are all different while it is shorter than the number space. */
  ghost predicate CallShape(l: Local) {
    l.call.Some? ==>
      var c := l.call.value;
      && |c.data| < M32 && c.nextOff <= |c.data| && 0 < c.mss <= MAX_SEG && WindowInv(c.baseSeq, c.inflight, c.nextOff)
      && l.sock.seqNo == Wrap(c.baseSeq + c.nextOff) && !l.sock.state.SynSent?
  }

  function NumberAt(base: u32, k: int): u32 { Wrap(base + k) }

  /** Only bytes before `nextOff` went out, and a segment in flight is marked when it went out more than once. */
  ghost predicate Tallied(l: Local, out: seq<Segment>) {
    l.call.Some? ==>
      var c := l.call.value;
      && (forall k :: c.nextOff <= k < |c.data| ==> TimesSent(out, NumberAt(c.baseSeq, k)) == 0)
      && forall i :: 0 <= i < |c.inflight| ==>
           TimesSent(out, c.inflight[i].seqNo) >= 1 && (c.inflight[i].resent <==> TimesSent(out, c.inflight[i].seqNo) > 1)
  }

  /** Different places in a call have different numbers. */
  lemma Numbers(base: u32, x: int, y: int)
    requires 0 <= x < M32 && 0 <= y < M32
    ensures NumberAt(base, x) == NumberAt(base, y) <==> x == y
  {
    WrapInjective(base + x, base + y);
  }

  lemma {:induction false} OffsetsRise(base: int, w: seq<InFlight>, nextOff: nat, i: nat, j: nat)
    requires WindowInv(base, w, nextOff) && i < j < |w|
    ensures w[i].off < w[j].off < nextOff
    decreases j - i
  {
    hide Wrap;
    assert w[i].off + w[i].len == EndOf(w, nextOff, i);
    if i + 1 < j { OffsetsRise(base, w, nextOff, i + 1, j); }
    WindowSpan(base, w, nextOff, j);
  }

  lemma FillShape(l: Local, now: nat)
    requires CallShape(l) && LocalEnabled(l, FillOne(now))
    ensures CallShape(LocalApply(l, FillOne(now)).0)
  {
    hide Wrap, WindowInv;
    LocalFill(l, now);
    FillBounds(l, now);
    var c := l.call.value;
    var len := Min(c.mss, |c.data| - c.nextOff);
    WrapAdd(c.baseSeq + c.nextOff, len);
    FillWindowInv(c.baseSeq, c.inflight, c.nextOff, InFlight(c.nextOff, len, l.sock.seqNo, now, false));
  }

  lemma FillTallied(l: Local, now: nat, out: seq<Segment>)
    requires CallShape(l) && Tallied(l, out) && LocalEnabled(l, FillOne(now))
    ensures var (l', o) := LocalApply(l, FillOne(now)); Tallied(l', out + o)
  {
    hide Wrap, WindowInv, LocalApply, LocalEnabled, TimesSent;
    LocalFill(l, now);
    FillBounds(l, now);
    var (l', o) := LocalApply(l, FillOne(now));
    var c, c' := l.call.value, l'.call.value;
    forall q: u32 ensures TimesSent(out + o, q) == TimesSent(out, q) + if q == l.sock.seqNo then 1 else 0 {
      OneMore(out, o[0], q);
    }
    forall k | c'.nextOff <= k < |c'.data| ensures TimesSent(out + o, NumberAt(c.baseSeq, k)) == 0 {
      Numbers(c.baseSeq, k, c.nextOff);
    }
    forall i | 0 <= i < |c.inflight| ensures c.inflight[i].seqNo != l.sock.seqNo {
      NumberOf(c, i);
      Numbers(c.baseSeq, c.inflight[i].off, c.nextOff);
    }
  }

  lemma OneMore(out: seq<Segment>, g: Segment, q: u32)
    requires g.payload != []
    ensures TimesSent(out + [g], q) == TimesSent(out, q) + if q == g.seqNo then 1 else 0
  {
    assert (out + [g])[..|out|] == out;
  }

  lemma NumberOf(c: SendCall, i: nat)
    requires WindowInv(c.baseSeq, c.inflight, c.nextOff) && i < |c.inflight|
    ensures c.inflight[i].seqNo == Wrap(c.baseSeq + c.inflight[i].off) && c.inflight[i].off < c.nextOff
  {
    hide Wrap;
    WindowSpan(c.baseSeq, c.inflight, c.nextOff, i);
  }

  lemma ResendShape(l: Local, a: LocalStep)
    requires CallShape(l) && LocalEnabled(l, a) && IsResend(a)
    ensures CallShape(LocalApply(l, a).0)
  {
    hide Wrap;
    ResentWindowInv(l.call.value.baseSeq, l.call.value.inflight, l.call.value.nextOff, if a.Timeout? then a.rtoNow else a.fastNow);
    hide WindowInv;
  }

  /** What a retransmission that goes on does to the window. */
  lemma ResendWindow(l: Local, a: LocalStep)
    requires LocalEnabled(l, a) && IsResend(a) && LocalApply(l, a).0.call.Some?
    ensures var c, c' := l.call.value, LocalApply(l, a).0.call.value;
            && c.inflight != [] && c'.baseSeq == c.baseSeq && c'.data == c.data && c'.nextOff == c.nextOff
            && c'.inflight == c.inflight[0 := c.inflight[0].(resent := true, sentTs := if a.Timeout? then a.rtoNow else a.fastNow)]
  {
    hide Wrap;
  }

  lemma ResendTallied(l: Local, a: LocalStep, out: seq<Segment>)
    requires CallShape(l) && Tallied(l, out) && LocalEnabled(l, a) && IsResend(a)
    ensures var (l', o) := LocalApply(l, a); Tallied(l', out + o)
  {
    hide Wrap, WindowInv, LocalApply, LocalEnabled, TimesSent, Again;
    HasOldest(l, a);
    LocalResend(l, a);
    var (l', o) := LocalApply(l, a);
    if l'.call.Some? {
      ResendWindow(l, a);
      var c, c' := l.call.value, l'.call.value;
      AgainIs(l);
      NumberOf(c, 0);
      forall q: u32 ensures TimesSent(out + o, q) == TimesSent(out, q) + if q == c.inflight[0].seqNo then 1 else 0 {
        OneMore(out, o[0], q);
      }
      forall k | c.nextOff <= k < |c.data| ensures TimesSent(out + o, NumberAt(c.baseSeq, k)) == 0 {
        Numbers(c.baseSeq, k, c.inflight[0].off);
      }
      forall i | 0 < i < |c.inflight| ensures c.inflight[i].seqNo != c.inflight[0].seqNo {
        NumberOf(c, i);
        OffsetsRise(c.baseSeq, c.inflight, c.nextOff, 0, i);
        Numbers(c.baseSeq, c.inflight[i].off, c.inflight[0].off);
      }
    }
  }

  lemma AgainIs(l: Local)
    requires LocalWf(l) && CallShape(l) && l.call.Some? && l.call.value.inflight != []
    ensures Again(l).payload != [] && Again(l).seqNo == l.call.value.inflight[0].seqNo
  {
    hide Wrap;
  }

  /** Steps that put no data on the wire and leave the window, or take its front away, or end the call. */
  lemma QuietSteps(l: Local, a: LocalStep)
    requires LocalEnabled(l, a) && !a.Begin? && !a.FillOne? && !IsResend(a) && (l.call.Some? ==> !l.sock.state.SynSent?)
    ensures var (l', o) := LocalApply(l, a);
            && (forall i :: 0 <= i < |o| ==> o[i].payload == [])
            && (l'.call.Some? ==>
                  && l.call.Some? && l'.sock.seqNo == l.sock.seqNo && !l'.sock.state.SynSent?
                  && var c, c' := l.call.value, l'.call.value;
                     && c'.data == c.data && c'.mss == c.mss && c'.baseSeq == c.baseSeq && c'.nextOff == c.nextOff
                     && c'.inflight == (if a.ReleaseOne? then c.inflight[1..] else c.inflight)
                     && (a.ReleaseOne? ==> c.inflight != []))
  {
    hide Wrap, WrappingGe, UpdateRtt;
  }

  lemma {:induction false} NoData(out: seq<Segment>, o: seq<Segment>, q: u32)
    requires forall i :: 0 <= i < |o| ==> o[i].payload == []
    ensures TimesSent(out + o, q) == TimesSent(out, q)
    decreases |o|
  {
    if o == [] {
      assert out + o == out;
    } else {
      assert (out + o)[..|out + o| - 1] == out + o[..|o| - 1];
      NoData(out, o[..|o| - 1], q);
    }
  }

  lemma QuietTallied(l: Local, a: LocalStep, out: seq<Segment>)
    requires CallShape(l) && Tallied(l, out) && LocalEnabled(l, a) && !a.Begin? && !a.FillOne? && !IsResend(a)
    ensures var (l', o) := LocalApply(l, a); CallShape(l') && Tallied(l', out + o)
  {
    hide Wrap, WindowInv, LocalApply, LocalEnabled, TimesSent, NumberAt;
    QuietSteps(l, a);
    var (l', o) := LocalApply(l, a);
    forall q: u32 ensures TimesSent(out + o, q) == TimesSent(out, q) { NoData(out, o, q); }
    if l'.call.Some? && a.ReleaseOne? {
      var c := l.call.value;
      PopWindowInv(c.baseSeq, c.inflight, c.nextOff);
    }
  }

  lemma StepTallied(l: Local, a: LocalStep, out: seq<Segment>)
    requires CallShape(l) && Tallied(l, out) && LocalEnabled(l, a) && !a.Begin?
    ensures var (l', o) := LocalApply(l, a); CallShape(l') && Tallied(l', out + o)
  {
    hide CallShape, Tallied, LocalApply, LocalEnabled;
    if a.FillOne? {
      FillShape(l, a.fillNow);
      FillTallied(l, a.fillNow, out);
    } else if IsResend(a) {
      ResendShape(l, a);
      ResendTallied(l, a, out);
    } else {
      QuietTallied(l, a, out);
    }
  }

  /** Over any steps of a call, a segment in flight is marked as resent exactly when its bytes went out more than once. */
  lemma {:induction false} MarkedWhenResent(s: Sock, data: seq<byte>, steps: seq<LocalStep>, l: Local, out: seq<Segment>)
    requires LocalRun(Local(s, Some(NewCall(s, data))), steps, l, out) && !s.state.SynSent? && |data| < M32
    requires forall k :: 0 <= k < |steps| ==> !steps[k].Begin?
    ensures CallShape(l) && Tallied(l, out)
    decreases |steps|
  {
    if steps == [] {
      assert CallShape(l);
    } else {
      hide LocalApply, LocalEnabled, CallShape, Tallied;
      var m := |steps| - 1;
      var mid: Local, o: seq<Segment> :|
        LocalRun(Local(s, Some(NewCall(s, data))), steps[..m], mid, o) && LocalEnabled(mid, steps[m])
        && (l, out) == (LocalApply(mid, steps[m]).0, o + LocalApply(mid, steps[m]).1);
      MarkedWhenResent(s, data, steps[..m], mid, o);
      StepTallied(mid, steps[m], o);
    }
  }

  /**
   Karn's rule over any steps of a call: releasing a segment takes a round-trip sample, the time since it was sent, if and
   only if it went out just once.
   */
  lemma SamplesOnce(s: Sock, data: seq<byte>, steps: seq<LocalStep>, l: Local, out: seq<Segment>, now: nat)
    requires LocalRun(Local(s, Some(NewCall(s, data))), steps, l, out) && !s.state.SynSent? && |data| < M32
    requires (forall k :: 0 <= k < |steps| ==> !steps[k].Begin?) && LocalEnabled(l, ReleaseOne(now))
    ensures l.call.Some? && l.call.value.inflight != []
    ensures var front, l' := l.call.value.inflight[0], LocalApply(l, ReleaseOne(now)).0;
            && TimesSent(out, front.seqNo) >= 1
            && (TimesSent(out, front.seqNo) == 1 && now >= front.sentTs ==>
                  l'.sock.rtt == UpdateRtt(l.sock.rtt, Min(now - front.sentTs, U32_MAX)))
            && (TimesSent(out, front.seqNo) > 1 ==> l'.sock.rtt == l.sock.rtt)
  {
    hide LocalRun, UpdateRtt, TimesSent, Wrap, WrappingGe;
    MarkedWhenResent(s, data, steps, l, out);
    hide CallShape;
  }

  // ---------------------------------------------------------------- the timer

  /** The timer runs out exactly when the timeout has passed since the oldest segment was last sent. */
  lemma TimerIff(l: Local, now: nat)
    requires LocalWf(l) && l.call.Some? && l.call.value.inflight != [] && now >= l.call.value.inflight[0].sentTs
    ensures LocalEnabled(l, Timeout(now)) <==> now - l.call.value.inflight[0].sentTs >= l.sock.rtt.rto
  {
  }

  /** Timeouts since the window last moved. */
  function TimeoutsInARow(steps: seq<LocalStep>): nat {
    if steps == [] then 0
    else
      var rest := TimeoutsInARow(steps[..|steps| - 1]);
      match steps[|steps| - 1]
      case Timeout(_) => rest + 1
      case CountAcks(progressed, _) => if progressed then 0 else rest
      case _ => rest
  }

  lemma StepRetries(l: Local, a: LocalStep)
    requires LocalEnabled(l, a) && !a.Begin? && (l.call.Some? ==> l.call.value.oldestRetries <= MAX_RETRIES)
    ensures var l' := LocalApply(l, a).0;
            l'.call.Some? ==>
              && l.call.Some? && l'.call.value.oldestRetries <= MAX_RETRIES
              && l'.call.value.oldestRetries ==
                 match a
                 case Timeout(_) => l.call.value.oldestRetries + 1
                 case CountAcks(progressed, _) => if progressed then 0 else l.call.value.oldestRetries
                 case _ => l.call.value.oldestRetries
  {
    hide Wrap, WrappingGe, UpdateRtt, Recv, DataSegment;
  }

  lemma {:induction false} RetriesCounted(s: Sock, data: seq<byte>, steps: seq<LocalStep>, l: Local, out: seq<Segment>)
    requires LocalRun(Local(s, Some(NewCall(s, data))), steps, l, out) && forall k :: 0 <= k < |steps| ==> !steps[k].Begin?
    ensures l.call.Some? ==> l.call.value.oldestRetries == TimeoutsInARow(steps) <= MAX_RETRIES
    decreases |steps|
  {
    hide LocalApply, LocalEnabled;
    if steps != [] {
      var m := |steps| - 1;
      var mid: Local, o: seq<Segment> :|
        LocalRun(Local(s, Some(NewCall(s, data))), steps[..m], mid, o) && LocalEnabled(mid, steps[m])
        && (l, out) == (LocalApply(mid, steps[m]).0, o + LocalApply(mid, steps[m]).1);
      RetriesCounted(s, data, steps[..m], mid, o);
      StepRetries(mid, steps[m]);
    }
  }

  /** Over any steps of a call, a timeout sends again, backing off by doubling, until it is the sixth in a row without
      progress; that one closes the socket and ends the call. */
  lemma GivesUpAtSixth(s: Sock, data: seq<byte>, steps: seq<LocalStep>, l: Local, out: seq<Segment>, now: nat)
    requires LocalRun(Local(s, Some(NewCall(s, data))), steps, l, out) && forall k :: 0 <= k < |steps| ==> !steps[k].Begin?
    requires LocalEnabled(l, Timeout(now))
    ensures TimeoutsInARow(steps) <= 5
    ensures var (l', o) := LocalApply(l, Timeout(now));
            if TimeoutsInARow(steps) == 5
            then l'.call.None? && l'.sock.state.Closed? && o == []
            else l'.call.Some? && |o| == 1 && l'.sock.rtt.rto == Min(2 * l.sock.rtt.rto, 15000) && l'.sock.state == l.sock.state
  {
    hide LocalRun, TimeoutsInARow, Wrap, DataSegment;
    RetriesCounted(s, data, steps, l, out);
  }

  /** Three answers in a row that acknowledge nothing new, and no fewer, have the oldest segment sent again at once. */
  lemma ThirdDuplicate(l: Local, now: nat)
    requires LocalWf(l) && l.call.Some? && l.call.value.inflight != [] && l.call.value.dupAcks == 0
    requires l.sock.peerAcked == l.call.value.lastAckSeen
    ensures var l1 := After(l, [CountAcks(false, true)]);
            var l2 := After(l1, [CountAcks(false, true)]);
            var l3 := After(l2, [CountAcks(false, true)]);
            && !LocalEnabled(l, FastRetransmit(now)) && !LocalEnabled(l1, FastRetransmit(now)) && !LocalEnabled(l2, FastRetransmit(now))
            && LocalEnabled(l3, FastRetransmit(now)) && !LocalEnabled(After(l3, [FastRetransmit(now)]), FastRetransmit(now))
            && After(l2, [CountAcks(true, true)]).call.Some? && After(l2, [CountAcks(true, true)]).call.value.dupAcks == 0
  {
    hide After;
    var l1 := LocalApply(l, CountAcks(false, true)).0;
    LastStep(l, CountAcks(false, true));
    var l2 := LocalApply(l1, CountAcks(false, true)).0;
    LastStep(l1, CountAcks(false, true));
    var l3 := LocalApply(l2, CountAcks(false, true)).0;
    LastStep(l2, CountAcks(false, true));
    LastStep(l2, CountAcks(true, true));
    LastStep(l3, FastRetransmit(now));
    hide DataSegment;
  }
}
