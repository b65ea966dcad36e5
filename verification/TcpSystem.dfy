/**
 Two endpoints running the socket of TcpModel over a network that may lose,
 duplicate and reorder segments. A segment, once sent, may be delivered any
 number of times, at any later moment, or never.

 Every stream position is an unbounded integer here; the wire only carries it
 modulo 2^32. `Stamped` remembers the positions a segment was sent with, which
 the receiver never sees.
 */
module TcpSystem {
  import opened Common
  import opened SeqArith
  import opened TcpModel

  const WINDOW: int := 11200   // SND_WND_SEGS * MAX_SEG

  datatype Stamped = Stamped(seg: Segment, seqPos: int, ackPos: int)

  /**
   `sent` is every byte ever put on the wire, `drained` every byte the
   application has taken out of the receive buffer; `callAt` is the stream
   offset at which the current send call started.
   */
  datatype Endpoint = Endpoint(
    local: Local, isn: u32, listening: bool,
    sent: seq<byte>, finned: bool,
    up: bool, drained: seq<byte>, gotFin: bool,
    peerAckedPos: int, callAt: nat)

  datatype Side = Client | Server
  datatype Sys = Sys(client: Endpoint, server: Endpoint, fromClient: set<Stamped>, fromServer: set<Stamped>)

  datatype Step =
    | Act(act: LocalStep)          // any local step except receiving
    | Receive(pkt: Stamped)        // some segment the peer has sent
    | Reset(rst: Segment)          // a reset, from anywhere
    | Accept(syn: Stamped)         // a listening side answers a SYN

  function B2I(b: bool): int { if b then 1 else 0 }

  /** Everything accepted from the peer, in order. */
  function Got(e: Endpoint): seq<byte> { e.drained + e.local.sock.rx }

  function SendPos(e: Endpoint): int { e.isn + 1 + |e.sent| + B2I(e.finned) }

  /** How far `e` has accepted the stream of `f`. */
  function RecvPos(f: Endpoint, e: Endpoint): int { f.isn + 1 + |Got(e)| + B2I(e.gotFin) }

  function Stamp(segs: seq<Segment>, seqPos: int, ackPos: int): set<Stamped> {
    set g | g in segs :: Stamped(g, seqPos, ackPos)
  }

  lemma StampOne(g: Segment, seqPos: int, ackPos: int)
    ensures Stamp([g], seqPos, ackPos) == {Stamped(g, seqPos, ackPos)}
  {
  }

  /**
   The data is less than a number space away from the receiver. In strict runs the
   acknowledgement is also within half a number space of the last one.
   */
  predicate Fresh(strict: bool, e: Endpoint, f: Endpoint, p: Stamped) {
    && -M32 < p.seqPos - RecvPos(f, e) < M32
    && (strict && p.seg.ack ==> -M31 <= p.ackPos - e.peerAckedPos < M31)
  }

  /** With another window on top, no more than 2^31 bytes would be unacknowledged. */
  predicate RoomToSend(e: Endpoint) {
    SendPos(e) - e.peerAckedPos <= M31 - WINDOW
  }

  /** The front of the window ends no more than 2^31 past the last acknowledgement. */
  predicate Near(e: Endpoint) {
    e.local.call.Some? && e.local.call.value.inflight != [] ==>
      var w := e.local.call.value.inflight[0]; Base(e) + w.off + w.len - e.peerAckedPos <= M31
  }

  predicate Enabled(strict: bool, e: Endpoint, f: Endpoint, netF: set<Stamped>, st: Step) {
    match st
    case Act(a) =>
      !e.listening && !a.Deliver? && LocalEnabled(e.local, a) && (strict && a.ReleaseOne? ==> Near(e))
    case Receive(p) => !e.listening && p in netF && LocalWf(e.local) && Fresh(strict, e, f, p)
    case Reset(g) => !e.listening && g.rst && LocalWf(e.local)
    case Accept(p) => e.listening && p in netF && p.seg.syn && !p.seg.ack
  }

  /** The position stamped on what a local step transmits. */
  function OutPos(e: Endpoint, a: LocalStep): int
    requires LocalEnabled(e.local, a)
  {
    match a
    case FastRetransmit(_) => Base(e) + e.local.call.value.inflight[0].off
    case Timeout(_) => Base(e) + e.local.call.value.inflight[0].off
    case _ => SendPos(e)
  }

  function Act1(e: Endpoint, f: Endpoint, a: LocalStep): (Endpoint, set<Stamped>)
    requires LocalEnabled(e.local, a)
  {
    var (l', out) := LocalApply(e.local, a);
    var e' := e.(local := l');
    var e'' := match a
      case Begin(_) => e'.(callAt := |e.sent|)
      case FillOne(_) => e'.(sent := e.sent + out[0].payload)
      case Drain(n) => e'.(drained := e.drained + e.local.sock.rx[..n])
      case CloseBegin => e'.(finned := true)
      case _ => e';
    (e'', Stamp(out, OutPos(e, a), RecvPos(f, e)))
  }

  function Receive1(e: Endpoint, f: Endpoint, p: Stamped): (Endpoint, set<Stamped>)
    requires LocalWf(e.local)
  {
    var s, g := e.local.sock, p.seg;
    var (s', out) := Recv(s, g);
    var e' := e.(
      local := e.local.(sock := s'),
      up := e.up || (s.state.SynSent? && s'.state.Established?),
      gotFin := e.gotFin || (s'.peerClosed && !s.peerClosed && !g.rst),
      peerAckedPos := if s'.peerAcked != s.peerAcked && !s.state.SynSent? then p.ackPos else e.peerAckedPos);
    (e', Stamp(out, SendPos(e'), RecvPos(f, e')))
  }

  function Accept1(e: Endpoint, f: Endpoint, p: Stamped): (Endpoint, set<Stamped>) {
    var s := Sock(SynReceived, Wrap(e.isn + 1), Wrap(p.seg.seqNo + 1), [], false, 0, 8192,
                  p.seg.synMss, Rtt(0, 0, INIT_RTO));
    var synAck := Segment(e.isn, s.ackNo, false, true, false, true, RX_BUF, 1460, []);
    (e.(local := Local(s, None), listening := false, up := true), {Stamped(synAck, e.isn, f.isn + 1)})
  }

  function Apply(e: Endpoint, f: Endpoint, netF: set<Stamped>, st: Step): (Endpoint, set<Stamped>)
    requires Enabled(false, e, f, netF, st)
  {
    match st
    case Act(a) => Act1(e, f, a)
    case Receive(p) => Receive1(e, f, p)
    case Reset(g) => (e.(local := e.local.(sock := Recv(e.local.sock, g).0)), {})
    case Accept(p) => Accept1(e, f, p)
  }

  // ---------------------------------------------------------------- the invariant

  predicate PktOk(p: Stamped, e: Endpoint, f: Endpoint) {
    var g := p.seg;
    && !g.rst
    && g.seqNo == Wrap(p.seqPos) && p.seqPos <= SendPos(e)
    && (g.payload != [] ==>
          var k := p.seqPos - e.isn - 1;
          !g.fin && 0 <= k && k + |g.payload| <= |e.sent| && g.payload == e.sent[k..k + |g.payload|])
    && (g.fin ==> g.payload == [] && e.finned && p.seqPos == e.isn + 1 + |e.sent|)
    && (g.ack ==> e.up && g.ackNo == Wrap(p.ackPos) && f.isn + 1 <= p.ackPos <= RecvPos(f, e))
    && (g.syn ==> p.seqPos == e.isn && g.payload == [] && !g.fin && (g.ack ==> p.ackPos == f.isn + 1))
  }

  function Off0(c: SendCall): nat {
    if c.inflight == [] then c.nextOff else c.inflight[0].off
  }

  /** Where segment `i` of a window must end. */
  function EndOf(w: seq<InFlight>, nextOff: nat, i: nat): nat
    requires i < |w|
  {
    if i + 1 < |w| then w[i + 1].off else nextOff
  }

  /** `base` is the stream position of the first byte of the call. */
  predicate WindowInv(base: int, w: seq<InFlight>, nextOff: nat) {
    && |w| <= SND_WND_SEGS
    && forall i :: 0 <= i < |w| ==>
         0 < w[i].len <= MAX_SEG && w[i].seqNo == Wrap(base + w[i].off) && w[i].off + w[i].len == EndOf(w, nextOff, i)
  }

  predicate CallInv(strict: bool, base: int, said: seq<byte>, acked: int, c: SendCall) {
    && c.nextOff <= |c.data| && said == c.data[..c.nextOff]
    && c.baseSeq == Wrap(base)
    && 0 < c.mss <= MAX_SEG
    && WindowInv(base, c.inflight, c.nextOff)
    && (strict ==> Off0(c) == 0 || base + Off0(c) <= acked)
  }

  /** Stream position of the first byte of the call in progress. */
  function Base(e: Endpoint): int { e.isn + 1 + e.callAt }

  predicate Over(st: TcpState) { st.CloseWait? || st.LastAck? || st.Closed? }

  predicate SideInv(strict: bool, e: Endpoint, f: Endpoint) {
    var s, call := e.local.sock, e.local.call;
    && LocalWf(e.local)
    && (e.listening ==>
          && s.state.Closed? && !e.up && call.None? && e.sent == [] && !e.finned
          && !s.peerClosed && e.peerAckedPos == e.isn + 1)
    && (!e.listening ==> s.seqNo == Wrap(SendPos(e)))
    && (e.up ==> s.ackNo == Wrap(RecvPos(f, e)))
    && (!e.up ==> Got(e) == [] && !e.gotFin && (s.state.SynSent? || s.state.Closed?))
    && Got(e) <= f.sent
    && (e.gotFin ==> f.finned && Got(e) == f.sent)
    && (e.gotFin || s.peerClosed ==> Over(s.state))
    && (s.state.SynSent? || s.state.SynReceived? ==>
          e.sent == [] && !e.finned && call.None? && e.peerAckedPos == e.isn + 1)
    && (s.state.SynSent? ==> !e.up)
    && (strict ==>
          && (Flowing(s.state) || s.state.CloseWait? ==> s.peerAcked == Wrap(e.peerAckedPos))
          && e.isn + 1 <= e.peerAckedPos <= RecvPos(e, f))
    && (e.finned ==> !s.state.Established? && !s.state.CloseWait? && call.None?)
    && (call.Some? ==>
          && e.up && !e.finned && (strict ==> s.peerAcked == Wrap(e.peerAckedPos)) && e.callAt <= |e.sent|
          && CallInv(strict, Base(e), e.sent[e.callAt..], e.peerAckedPos, call.value))
  }

  ghost predicate Inv(strict: bool, e: Endpoint, f: Endpoint, netE: set<Stamped>, netF: set<Stamped>) {
    && SideInv(strict, e, f) && SideInv(strict, f, e)
    && (forall p :: p in netE ==> PktOk(p, e, f))
    && (forall p :: p in netF ==> PktOk(p, f, e))
  }

  // ---------------------------------------------------------------- growth

  /** What a step of `e` never takes back. */
  predicate Grows(strict: bool, e: Endpoint, e': Endpoint) {
    && e'.isn == e.isn && e.sent <= e'.sent && (strict ==> e.peerAckedPos <= e'.peerAckedPos)
    && (e.finned ==> e'.finned && e'.sent == e.sent)
    && (e.up ==> e'.up)
    && Got(e) <= Got(e') && (e.gotFin ==> e'.gotFin)
  }

  lemma GrowsKeepsPeer(strict: bool, e: Endpoint, e': Endpoint, f: Endpoint)
    requires Grows(strict, e, e') && SideInv(strict, f, e)
    ensures SideInv(strict, f, e')
  {
    hide Wrap, LocalWf, CallInv;
    assert RecvPos(e', f) == RecvPos(e, f);
    assert RecvPos(f, e) <= RecvPos(f, e');
  }

  lemma GrowsKeepsPkt(strict: bool, p: Stamped, e: Endpoint, e': Endpoint, f: Endpoint)
    requires Grows(strict, e, e') && PktOk(p, e, f)
    ensures PktOk(p, e', f)
  {
    hide Wrap;
    assert SendPos(e) <= SendPos(e');
    if p.seg.payload != [] {
      var k := p.seqPos - e.isn - 1;
      assert e'.sent[..|e.sent|] == e.sent;
      assert e'.sent[k..k + |p.seg.payload|] == e.sent[k..k + |p.seg.payload|];
    }
  }

  lemma AckedWithinSent(strict: bool, e: Endpoint, f: Endpoint)
    requires SideInv(strict, e, f) && SideInv(strict, f, e)
    ensures RecvPos(e, f) <= SendPos(e) && (strict ==> e.peerAckedPos <= RecvPos(e, f))
  {
    hide Wrap, LocalWf, CallInv;
  }

  // ---------------------------------------------------------------- receiving

  function WithSock(e: Endpoint, s: Sock): Endpoint { e.(local := e.local.(sock := s)) }

  function AckStep(e: Endpoint, p: Stamped): Endpoint {
    WithSock(e, AckPart(e.local.sock, p.seg)).(
      peerAckedPos := if AckPart(e.local.sock, p.seg).peerAcked != e.local.sock.peerAcked then p.ackPos else e.peerAckedPos)
  }

  function DataStep(e: Endpoint, p: Stamped): Endpoint
    requires LocalWf(e.local)
  {
    WithSock(e, DataPart(e.local.sock, p.seg))
  }

  function FinStep(e: Endpoint, p: Stamped): Endpoint {
    WithSock(e, FinPart(e.local.sock, p.seg)).(gotFin := e.gotFin || TakesFin(e.local.sock, p.seg))
  }

  /** An acknowledgement moves the acknowledged position forward, and only to where the peer is. */
  lemma AckStepKeeps(strict: bool, e: Endpoint, f: Endpoint, p: Stamped)
    requires SideInv(strict, e, f) && PktOk(p, f, e) && Fresh(strict, e, f, p)
    ensures SideInv(strict, AckStep(e, p), f) && Grows(strict, e, AckStep(e, p))
    ensures RecvPos(f, AckStep(e, p)) == RecvPos(f, e)
  {
    var s, e' := e.local.sock, AckStep(e, p);
    if TakesAck(s, p.seg) {
      if strict {
        WrappingGeExact(p.ackPos, e.peerAckedPos);
        assert p.ackPos >= e.peerAckedPos;
      }
      hide Wrap, WrappingGe, WindowInv;
      assert Got(e') == Got(e);
    }
  }

  /** Bytes are taken only at the position the stream has reached, so they continue it. */
  lemma DataStepKeeps(strict: bool, e: Endpoint, f: Endpoint, p: Stamped)
    requires SideInv(strict, e, f) && PktOk(p, f, e) && Fresh(strict, e, f, p)
    requires Flowing(e.local.sock.state)
    ensures SideInv(strict, DataStep(e, p), f) && Grows(strict, e, DataStep(e, p))
    ensures p.seg.fin ==> DataStep(e, p) == e
  {
    hide Wrap, WrappingGe, CallInv;
    var s, g, e' := e.local.sock, p.seg, DataStep(e, p);
    if g.payload != [] && g.seqNo == s.ackNo {
      WrapInjective(p.seqPos, RecvPos(f, e));
      var copy := Min(|g.payload|, RX_BUF - |s.rx|);
      WrapAdd(RecvPos(f, e), copy);
      Continues(e.drained, s.rx, g.payload, copy, f.sent);
      assert RecvPos(f, e') == RecvPos(f, e) + copy;
    }
  }

  /** The next bytes of a stream, appended to a prefix of it, give a longer prefix. */
  lemma Continues(drained: seq<byte>, rx: seq<byte>, payload: seq<byte>, copy: nat, stream: seq<byte>)
    requires drained + rx <= stream && copy <= |payload|
    requires var k := |drained + rx|; k + |payload| <= |stream| && payload == stream[k..k + |payload|]
    ensures drained + rx <= drained + (rx + payload[..copy]) <= stream
    ensures |drained + (rx + payload[..copy])| == |drained + rx| + copy
  {
    var k := |drained + rx|;
    assert stream[..k] == drained + rx;
    assert drained + (rx + payload[..copy]) == stream[..k + copy];
  }

  lemma FinStepKeeps(strict: bool, e: Endpoint, f: Endpoint, p: Stamped)
    requires SideInv(strict, e, f) && PktOk(p, f, e)
    requires Flowing(e.local.sock.state)
    requires p.seg.fin ==> Fresh(strict, e, f, p)
    ensures SideInv(strict, FinStep(e, p), f) && Grows(strict, e, FinStep(e, p))
    ensures FinStep(e, p).gotFin ==
            (e.gotFin || (FinPart(e.local.sock, p.seg).peerClosed && !e.local.sock.peerClosed))
  {
    var s, g, e' := e.local.sock, p.seg, FinStep(e, p);
    if TakesFin(s, g) {
      hide Wrap, WrappingGe, CallInv;
      WrapInjective(p.seqPos, RecvPos(f, e));
      WrapAdd(RecvPos(f, e), 1);
      assert Got(e') == Got(e);
      assert |Got(e)| == |f.sent|;
    }
  }

  function FlowingStep(e: Endpoint, p: Stamped): Endpoint
    requires LocalWf(e.local)
  {
    FinStep(DataStep(AckStep(e, p), p), p)
  }

  /** `e` after its socket became `s'` on receiving `p`, read off the change of the socket. */
  function Updated(e: Endpoint, p: Stamped, s': Sock): Endpoint {
    WithSock(e, s').(
      gotFin := e.gotFin || (s'.peerClosed && !e.local.sock.peerClosed),
      peerAckedPos := if s'.peerAcked != e.local.sock.peerAcked then p.ackPos else e.peerAckedPos)
  }

  lemma GrowsTrans(strict: bool, a: Endpoint, b: Endpoint, c: Endpoint)
    requires Grows(strict, a, b) && Grows(strict, b, c)
    ensures Grows(strict, a, c)
  {
  }

  lemma FlowingStepKeeps(strict: bool, e: Endpoint, f: Endpoint, p: Stamped)
    requires SideInv(strict, e, f) && PktOk(p, f, e) && Fresh(strict, e, f, p)
    requires Flowing(e.local.sock.state)
    ensures SideInv(strict, FlowingStep(e, p), f) && Grows(strict, e, FlowingStep(e, p))
    ensures FlowingStep(e, p) == Updated(e, p, FlowingPart(e.local.sock, p.seg).0)
  {
    hide SideInv, Grows, Wrap, WrappingGe, PktOk;
    var e1 := AckStep(e, p);
    AckStepKeeps(strict, e, f, p);
    assert Fresh(strict, e1, f, p) by { FreshAfterAck(strict, e, f, p); }
    PktOkPeer(p, f, e, e1);
    SideInvWf(strict, e1, f);
    var e2 := DataStep(e1, p);
    assert Flowing(e1.local.sock.state);
    DataStepKeeps(strict, e1, f, p);
    GrowsTrans(strict, e, e1, e2);
    PktOkPeer(p, f, e, e2);
    FinStepKeeps(strict, e2, f, p);
    GrowsTrans(strict, e, e2, FinStep(e2, p));
  }

  /** What a packet of `f` promises does not depend on what `e` has done since. */
  lemma PktOkPeer(p: Stamped, f: Endpoint, e: Endpoint, e': Endpoint)
    requires PktOk(p, f, e) && e'.isn == e.isn
    ensures PktOk(p, f, e')
  {
    hide Wrap;
  }

  lemma SideInvWf(strict: bool, e: Endpoint, f: Endpoint)
    requires SideInv(strict, e, f)
    ensures LocalWf(e.local)
  {
    hide LocalWf, CallInv, Wrap;
  }

  lemma FreshAfterAck(strict: bool, e: Endpoint, f: Endpoint, p: Stamped)
    requires Fresh(strict, e, f, p) && RecvPos(f, AckStep(e, p)) == RecvPos(f, e)
    ensures Fresh(strict, AckStep(e, p), f, p)
  {
    hide Wrap, WrappingGe, AckPart, TakesAck, RecvPos;
  }

  /** A reply carries the current positions. */
  lemma PlainOk(strict: bool, e: Endpoint, f: Endpoint)
    requires SideInv(strict, e, f) && e.up && !e.listening
    ensures PktOk(Stamped(Plain(e.local.sock, false), SendPos(e), RecvPos(f, e)), e, f)
  {
    hide Wrap;
  }

  /** The fields no invariant speaks about. */
  function Tuned(e: Endpoint, g: Segment): Endpoint {
    var s := e.local.sock;
    WithSock(e, s.(peerMss := if g.syn then g.synMss else s.peerMss,
                   sndWnd := if g.ack then g.window else s.sndWnd))
  }

  lemma TunedKeeps(strict: bool, e: Endpoint, f: Endpoint, p: Stamped)
    requires SideInv(strict, e, f) && Fresh(strict, e, f, p) && PktOk(p, f, e)
    ensures SideInv(strict, Tuned(e, p.seg), f) && Grows(strict, e, Tuned(e, p.seg))
    ensures Fresh(strict, Tuned(e, p.seg), f, p) && PktOk(p, f, Tuned(e, p.seg))
  {
    hide Wrap, CallInv;
    assert Got(Tuned(e, p.seg)) == Got(e);
  }

  /** The client side of the handshake. */
  lemma SynAckKeeps(strict: bool, e: Endpoint, f: Endpoint, p: Stamped)
    requires SideInv(strict, e, f) && PktOk(p, f, e) && !e.listening
    requires e.local.sock.state.SynSent? && p.seg.syn && p.seg.ack
    ensures var e' := Receive1(e, f, p).0; SideInv(strict, e', f) && Grows(strict, e, e') && e'.up
  {
    hide Wrap, CallInv;
    var e' := Receive1(e, f, p).0;
    assert Got(e') == Got(e);
    WrapAdd(f.isn, 1);
  }

  /** The server side of the handshake. */
  lemma HandshakeAckKeeps(strict: bool, e: Endpoint, f: Endpoint, p: Stamped)
    requires SideInv(strict, e, f) && PktOk(p, f, e) && Fresh(strict, e, f, p) && !e.listening
    requires RecvPos(e, f) <= SendPos(e)
    requires e.local.sock.state.SynReceived? && p.seg.ack && p.seg.ackNo == e.local.sock.seqNo
    ensures var e' := WithSock(e, e.local.sock.(peerAcked := p.seg.ackNo, state := Established)).(peerAckedPos := p.ackPos);
            SideInv(strict, e', f) && Grows(strict, e, e') && Fresh(strict, e', f, p)
  {
    hide Wrap, CallInv;
    var e' := WithSock(e, e.local.sock.(peerAcked := p.seg.ackNo, state := Established)).(peerAckedPos := p.ackPos);
    assert Got(e') == Got(e);
    AckOfSyn(strict, e, f, p);
  }

  /** The acknowledgement of the SYN-ACK names exactly its end. */
  lemma AckOfSyn(strict: bool, e: Endpoint, f: Endpoint, p: Stamped)
    requires SideInv(strict, e, f) && PktOk(p, f, e) && RecvPos(e, f) <= SendPos(e)
    requires e.local.sock.state.SynReceived? && p.seg.ack
    ensures p.ackPos == SendPos(e) == e.peerAckedPos == e.isn + 1 && p.ackPos <= RecvPos(e, f)
  {
    hide Wrap, CallInv;
  }

  lemma ClosingKeeps(strict: bool, e: Endpoint, f: Endpoint)
    requires SideInv(strict, e, f)
    ensures var e' := WithSock(e, e.local.sock.(state := Closed)); SideInv(strict, e', f) && Grows(strict, e, e')
  {
    hide Wrap, CallInv;
    assert Got(WithSock(e, e.local.sock.(state := Closed))) == Got(e);
  }

  /** What receiving amounts to in each state, in terms of the steps above. */
  function Settled(e: Endpoint, f: Endpoint, p: Stamped): Endpoint
    requires LocalWf(e.local)
  {
    var t, g := Tuned(e, p.seg), p.seg;
    var s := t.local.sock;
    match s.state
    case SynSent => if g.syn && g.ack then Receive1(e, f, p).0 else t
    case SynReceived =>
      if g.ack && g.ackNo == s.seqNo then
        var h := WithSock(t, s.(peerAcked := g.ackNo, state := Established)).(peerAckedPos := p.ackPos);
        if g.payload != [] || g.fin then FlowingStep(h, p) else h
      else t
    case CloseWait => AckStep(t, p)
    case LastAck => if g.ack then WithSock(t, s.(state := Closed)) else t
    case Closed => t
    case _ => FlowingStep(t, p)
  }

  lemma SettledKeeps(strict: bool, e: Endpoint, f: Endpoint, p: Stamped)
    requires SideInv(strict, e, f) && PktOk(p, f, e) && Fresh(strict, e, f, p) && !e.listening
    requires RecvPos(e, f) <= SendPos(e)
    ensures LocalWf(e.local)
    ensures SideInv(strict, Settled(e, f, p), f) && Grows(strict, e, Settled(e, f, p))
  {
    hide SideInv, Grows, Wrap, WrappingGe, PktOk, FlowingStep, AckStep, Receive1, Fresh;
    SideInvWf(strict, e, f);
    TunedKeeps(strict, e, f, p);
    var t, g := Tuned(e, p.seg), p.seg;
    var s := t.local.sock;
    match s.state {
      case SynSent =>
        if g.syn && g.ack {
          SynAckKeeps(strict, e, f, p);
        }
      case SynReceived =>
        if g.ack && g.ackNo == s.seqNo {
          HandshakeAckKeeps(strict, t, f, p);
          var h := WithSock(t, s.(peerAcked := g.ackNo, state := Established)).(peerAckedPos := p.ackPos);
          GrowsTrans(strict, e, t, h);
          if g.payload != [] || g.fin {
            PktOkPeer(p, f, t, h);
            FlowingStepKeeps(strict, h, f, p);
            GrowsTrans(strict, e, h, FlowingStep(h, p));
          }
        }
      case CloseWait =>
        AckStepKeeps(strict, t, f, p);
        GrowsTrans(strict, e, t, AckStep(t, p));
      case LastAck =>
        if g.ack {
          ClosingKeeps(strict, t, f);
          GrowsTrans(strict, e, t, WithSock(t, s.(state := Closed)));
        }
      case Closed =>
      case _ =>
        FlowingStepKeeps(strict, t, f, p);
        GrowsTrans(strict, e, t, FlowingStep(t, p));
    }
  }

  lemma ReceiveFlowing(strict: bool, e: Endpoint, f: Endpoint, p: Stamped)
    requires SideInv(strict, e, f) && PktOk(p, f, e) && Fresh(strict, e, f, p) && !e.listening
    requires Flowing(e.local.sock.state)
    ensures LocalWf(e.local)
    ensures Receive1(e, f, p).0 == Settled(e, f, p) && RepliesPlain(e, f, p)
  {
    SideInvWf(strict, e, f);
    FactsForReceive(strict, e, f, p);
    hide SideInv, Grows, Wrap, WrappingGe, PktOk, Fresh, FlowingPart, FlowingStep;
    TunedKeeps(strict, e, f, p);
    var t := Tuned(e, p.seg);
    FlowingStepKeeps(strict, t, f, p);
    FlowingOut(t.local.sock, p.seg);
    assert Recv(e.local.sock, p.seg) == FlowingPart(t.local.sock, p.seg);
  }

  lemma ReceiveHandshakeAck(strict: bool, e: Endpoint, f: Endpoint, p: Stamped)
    requires SideInv(strict, e, f) && PktOk(p, f, e) && Fresh(strict, e, f, p) && !e.listening
    requires RecvPos(e, f) <= SendPos(e)
    requires e.local.sock.state.SynReceived? && p.seg.ack && p.seg.ackNo == e.local.sock.seqNo
    ensures LocalWf(e.local)
    ensures Receive1(e, f, p).0 == Settled(e, f, p) && RepliesPlain(e, f, p)
  {
    SideInvWf(strict, e, f);
    FactsForReceive(strict, e, f, p);
    hide SideInv, Grows, Wrap, WrappingGe, PktOk, Fresh, FlowingPart, FlowingStep;
    TunedKeeps(strict, e, f, p);
    var t, g := Tuned(e, p.seg), p.seg;
    var s := t.local.sock;
    AckOfSyn(strict, t, f, p);
    if g.payload != [] || g.fin {
      var h := WithSock(t, s.(peerAcked := g.ackNo, state := Established)).(peerAckedPos := p.ackPos);
      HandshakeAckKeeps(strict, t, f, p);
      PktOkPeer(p, f, t, h);
      FlowingStepKeeps(strict, h, f, p);
      FlowingOut(h.local.sock, g);
      assert Recv(e.local.sock, p.seg) == FlowingPart(h.local.sock, p.seg);
    }
  }

  /** Receiving sends nothing, or one acknowledgement with the new positions. */
  predicate RepliesPlain(e: Endpoint, f: Endpoint, p: Stamped)
    requires LocalWf(e.local)
  {
    var out, e' := Recv(e.local.sock, p.seg).1, Settled(e, f, p);
    out == [] || (e'.up && |e'.local.sock.rx| <= RX_BUF && out == [Plain(e'.local.sock, false)])
  }

  lemma ReceiveCloseWait(strict: bool, e: Endpoint, f: Endpoint, p: Stamped)
    requires SideInv(strict, e, f) && PktOk(p, f, e) && e.local.sock.state.CloseWait?
    ensures LocalWf(e.local)
    ensures Receive1(e, f, p).0 == Settled(e, f, p) && RepliesPlain(e, f, p)
  {
    SideInvWf(strict, e, f);
    FactsForReceive(strict, e, f, p);
    hide SideInv, Grows, Wrap, WrappingGe, PktOk, AckPart, FlowingPart;
    AckPartOnly(Tuned(e, p.seg).local.sock, p.seg);
  }

  lemma ReceiveIsSettled(strict: bool, e: Endpoint, f: Endpoint, p: Stamped)
    requires SideInv(strict, e, f) && PktOk(p, f, e) && Fresh(strict, e, f, p) && !e.listening
    requires RecvPos(e, f) <= SendPos(e)
    ensures LocalWf(e.local)
    ensures Receive1(e, f, p).0 == Settled(e, f, p) && RepliesPlain(e, f, p)
  {
    SideInvWf(strict, e, f);
    var st, g := e.local.sock.state, p.seg;
    if Flowing(st) {
      ReceiveFlowing(strict, e, f, p);
    } else if st.SynReceived? && g.ack && g.ackNo == e.local.sock.seqNo {
      ReceiveHandshakeAck(strict, e, f, p);
    } else if st.CloseWait? {
      ReceiveCloseWait(strict, e, f, p);
    } else {
      FactsForReceive(strict, e, f, p);
      hide SideInv, Grows, Wrap, WrappingGe, PktOk, Fresh, AckPart, FlowingPart;
    }
  }

  lemma AckPartOnly(s: Sock, g: Segment)
    ensures AckPart(s, g) == s.(peerAcked := AckPart(s, g).peerAcked)
  {
    hide WrappingGe;
  }

  lemma FlowingOut(s: Sock, g: Segment)
    requires |s.rx| <= RX_BUF
    ensures FlowingPart(s, g).1 == [] || FlowingPart(s, g).1 == [Plain(FlowingPart(s, g).0, false)]
  {
    hide Wrap, WrappingGe;
  }

  lemma FactsForReceive(strict: bool, e: Endpoint, f: Endpoint, p: Stamped)
    requires SideInv(strict, e, f) && PktOk(p, f, e)
    ensures !p.seg.rst
    ensures e.local.sock.state.SynReceived? ==> e.peerAckedPos == e.isn + 1 == SendPos(e) && !e.local.sock.peerClosed && e.up
    ensures e.local.sock.state.SynSent? ==> !e.local.sock.peerClosed
    ensures Flowing(e.local.sock.state) ==> e.up && !e.local.sock.peerClosed
  {
    hide Wrap, CallInv;
  }

  lemma ReceiveKeeps(strict: bool, e: Endpoint, f: Endpoint, p: Stamped)
    requires SideInv(strict, e, f) && PktOk(p, f, e) && Fresh(strict, e, f, p) && !e.listening
    requires RecvPos(e, f) <= SendPos(e)
    ensures LocalWf(e.local)
    ensures SideInv(strict, Receive1(e, f, p).0, f) && Grows(strict, e, Receive1(e, f, p).0)
    ensures forall q :: q in Receive1(e, f, p).1 ==> PktOk(q, Receive1(e, f, p).0, f)
  {
    hide SideInv, Grows, Wrap, WrappingGe, PktOk, Fresh, Settled;
    ReceiveIsSettled(strict, e, f, p);
    SettledKeeps(strict, e, f, p);
    var e' := Receive1(e, f, p).0;
    if e'.up {
      PlainOk(strict, e', f);
    }
  }

  // ---------------------------------------------------------------- sending

  lemma BeginKeeps(strict: bool, e: Endpoint, f: Endpoint, data: seq<byte>)
    requires SideInv(strict, e, f) && LocalEnabled(e.local, Begin(data)) && !e.listening
    ensures var e' := Act1(e, f, Begin(data)).0; SideInv(strict, e', f) && Grows(strict, e, e')
  {
    hide Wrap;
    var e' := Act1(e, f, Begin(data)).0;
    var c := e'.local.call.value;
    assert e'.sent[e'.callAt..] == [] == c.data[..0];
    assert WindowInv(Base(e'), c.inflight, c.nextOff);
    assert Got(e') == Got(e);
  }

  /** The window covers contiguous bytes, so all of it lies within WINDOW of its end. */
  lemma {:induction false} WindowSpan(base: int, w: seq<InFlight>, nextOff: nat, i: nat)
    requires WindowInv(base, w, nextOff) && i < |w|
    ensures w[i].off + w[i].len <= nextOff <= w[i].off + (|w| - i) * MAX_SEG
    decreases |w| - i
  {
    hide Wrap;
    if i + 1 < |w| {
      WindowSpan(base, w, nextOff, i + 1);
    }
  }

  lemma FillWindowInv(base: int, w: seq<InFlight>, nextOff: nat, f: InFlight)
    requires WindowInv(base, w, nextOff) && |w| < SND_WND_SEGS
    requires f.off == nextOff && 0 < f.len <= MAX_SEG && f.seqNo == Wrap(base + f.off)
    ensures WindowInv(base, w + [f], nextOff + f.len)
  {
    hide Wrap;
    var w' := w + [f];
    forall i | 0 <= i < |w|
      ensures w'[i] == w[i] && EndOf(w', nextOff + f.len, i) == EndOf(w, nextOff, i)
    {
    }
  }

  lemma PopWindowInv(base: int, w: seq<InFlight>, nextOff: nat)
    requires WindowInv(base, w, nextOff) && w != []
    ensures WindowInv(base, w[1..], nextOff)
  {
    hide Wrap;
    var w' := w[1..];
    forall i | 0 <= i < |w'|
      ensures w'[i] == w[i + 1] && EndOf(w', nextOff, i) == EndOf(w, nextOff, i + 1)
    {
    }
  }

  lemma ResentWindowInv(base: int, w: seq<InFlight>, nextOff: nat, now: nat)
    requires WindowInv(base, w, nextOff) && w != []
    ensures WindowInv(base, w[0 := w[0].(resent := true, sentTs := now)], nextOff)
  {
    hide Wrap;
    var w' := w[0 := w[0].(resent := true, sentTs := now)];
    forall i | 0 <= i < |w'|
      ensures w'[i].off == w[i].off && EndOf(w', nextOff, i) == EndOf(w, nextOff, i)
    {
    }
  }

  lemma FillCall(strict: bool, base: int, said: seq<byte>, acked: int, s: Sock, c: SendCall, now: nat)
    requires CallInv(strict, base, said, acked, c) && CanFill(s, c) && s.seqNo == Wrap(base + c.nextOff)
    ensures var f := NextInFlight(s, c, now);
            0 < f.len && f.off + f.len <= |c.data| &&
            CallInv(strict, base, said + c.data[f.off..f.off + f.len], acked,
                    c.(inflight := c.inflight + [f], nextOff := c.nextOff + f.len))
  {
    hide Wrap, WrappingGe, WindowInv;
    var f := NextInFlight(s, c, now);
    var c' := c.(inflight := c.inflight + [f], nextOff := c.nextOff + f.len);
    assert said + c.data[f.off..f.off + f.len] == c'.data[..c'.nextOff];
    FillWindowInv(base, c.inflight, c.nextOff, f);
  }

  lemma FillKeeps(strict: bool, e: Endpoint, f: Endpoint, now: nat)
    requires SideInv(strict, e, f) && LocalEnabled(e.local, FillOne(now)) && !e.listening
    ensures var (e', out) := Act1(e, f, FillOne(now));
            SideInv(strict, e', f) && Grows(strict, e, e') && forall q :: q in out ==> PktOk(q, e', f)
  {
    hide Wrap, WrappingGe, CallInv;
    var s, c := e.local.sock, e.local.call.value;
    var (e', out) := Act1(e, f, FillOne(now));
    CallFacts(strict, e, f);
    FillCall(strict, Base(e), e.sent[e.callAt..], e.peerAckedPos, s, c, now);
    var fl := NextInFlight(s, c, now);
    var more := c.data[fl.off..fl.off + fl.len];
    assert e'.sent == e.sent + more;
    assert e'.sent[e.callAt..] == e.sent[e.callAt..] + more;
    WrapAdd(SendPos(e), fl.len);
    assert Got(e') == Got(e);
    assert e'.sent[|e.sent|..|e.sent| + |more|] == more;
    CallUp(strict, e, f);
  }

  lemma CallFacts(strict: bool, e: Endpoint, f: Endpoint)
    requires SideInv(strict, e, f) && e.local.call.Some? && !e.listening
    ensures var c := e.local.call.value;
            && !e.finned && e.callAt <= |e.sent| && SendPos(e) == Base(e) + c.nextOff
            && CallInv(strict, Base(e), e.sent[e.callAt..], e.peerAckedPos, c)
            && e.local.sock.seqNo == Wrap(Base(e) + c.nextOff)
  {
    hide Wrap, WindowInv;
  }

  /** A call in progress means the handshake is over. */
  lemma CallUp(strict: bool, e: Endpoint, f: Endpoint)
    requires SideInv(strict, e, f) && e.local.call.Some?
    ensures e.up
  {
    hide Wrap, CallInv;
  }

  /** Releasing the front is right, the peer really having everything up to its end, exactly when it is near. */
  lemma ReleaseExact(e: Endpoint, f: Endpoint)
    requires SideInv(true, e, f) && SideInv(true, f, e) && !e.listening
    requires e.local.call.Some? && FrontAcked(e.local.sock, e.local.call.value)
    ensures var c := e.local.call.value; Base(e) + c.inflight[0].off + c.inflight[0].len <= e.peerAckedPos <==> Near(e)
  {
    hide Wrap, WrappingGe;
    var c := e.local.call.value;
    var fr := c.inflight[0];
    var end := Base(e) + fr.off + fr.len;
    CallFacts(true, e, f);
    AckedWithinSent(true, e, f);
    WindowSpan(Base(e), c.inflight, c.nextOff, 0);
    WrapAdd(Base(e) + fr.off, fr.len);
    assert e.local.sock.peerAcked == Wrap(e.peerAckedPos);
    assert e.peerAckedPos - end < M31;
    if Near(e) { WrappingGeExact(e.peerAckedPos, end); }
  }

  lemma ReleaseCall(strict: bool, base: int, said: seq<byte>, acked: int, c: SendCall)
    requires CallInv(strict, base, said, acked, c) && c.inflight != []
    requires strict ==> base + c.inflight[0].off + c.inflight[0].len <= acked
    ensures CallInv(strict, base, said, acked, c.(inflight := c.inflight[1..]))
  {
    PopWindowInv(base, c.inflight, c.nextOff);
    assert c.inflight[0].off + c.inflight[0].len == EndOf(c.inflight, c.nextOff, 0);
    hide Wrap, WindowInv;
  }

  lemma ReleaseKeeps(strict: bool, e: Endpoint, f: Endpoint, now: nat)
    requires SideInv(strict, e, f) && SideInv(strict, f, e) && LocalEnabled(e.local, ReleaseOne(now)) && !e.listening
    requires strict ==> Near(e)
    ensures var e' := Act1(e, f, ReleaseOne(now)).0; SideInv(strict, e', f) && Grows(strict, e, e')
  {
    hide Wrap, WrappingGe, CallInv, UpdateRtt;
    var e' := Act1(e, f, ReleaseOne(now)).0;
    if strict {
      ReleaseExact(e, f);
    }
    CallFacts(strict, e, f);
    ReleaseCall(strict, Base(e), e.sent[e.callAt..], e.peerAckedPos, e.local.call.value);
    assert Got(e') == Got(e);
    assert LocalWf(e'.local);
  }

  lemma ResentCall(strict: bool, base: int, said: seq<byte>, acked: int, c: SendCall, now: nat)
    requires CallInv(strict, base, said, acked, c) && c.inflight != []
    ensures CallInv(strict, base, said, acked, MarkResent(c, now))
  {
    hide Wrap, WindowInv;
    ResentWindowInv(base, c.inflight, c.nextOff, now);
  }

  /** A retransmission carries the very bytes of its position. */
  lemma RetransmitOk(strict: bool, e: Endpoint, f: Endpoint)
    requires SideInv(strict, e, f) && !e.listening && e.local.call.Some? && e.local.call.value.inflight != []
    ensures var c := e.local.call.value;
            c.inflight[0].off + c.inflight[0].len <= |c.data| &&
            PktOk(Stamped(DataSegment(e.local.sock, c, c.inflight[0]), Base(e) + c.inflight[0].off, RecvPos(f, e)), e, f)
  {
    hide Wrap;
    var c := e.local.call.value;
    var fr := c.inflight[0];
    CallFacts(strict, e, f);
    WindowSpan(Base(e), c.inflight, c.nextOff, 0);
    CallUp(strict, e, f);
    var said := e.sent[e.callAt..];
    assert c.data[fr.off..fr.off + fr.len] == said[fr.off..fr.off + fr.len];
    assert e.sent[e.callAt + fr.off..e.callAt + fr.off + fr.len] == said[fr.off..fr.off + fr.len];
  }

  lemma FastKeeps(strict: bool, e: Endpoint, f: Endpoint, now: nat)
    requires SideInv(strict, e, f) && LocalEnabled(e.local, FastRetransmit(now)) && !e.listening
    ensures var (e', out) := Act1(e, f, FastRetransmit(now));
            SideInv(strict, e', f) && Grows(strict, e, e') && forall q :: q in out ==> PktOk(q, e, f)
  {
    hide Wrap, WrappingGe, CallInv, PktOk;
    var (e', out) := Act1(e, f, FastRetransmit(now));
    CallFacts(strict, e, f);
    ResentCall(strict, Base(e), e.sent[e.callAt..], e.peerAckedPos, e.local.call.value, now);
    RetransmitOk(strict, e, f);
    SameCall(strict, Base(e), e.sent[e.callAt..], e.peerAckedPos, MarkResent(e.local.call.value, now), e'.local.call.value);
    assert Got(e') == Got(e);
  }

  /** The counters of a call play no part in the invariant. */
  lemma SameCall(strict: bool, base: int, said: seq<byte>, acked: int, c: SendCall, c': SendCall)
    requires CallInv(strict, base, said, acked, c)
    requires c' == c.(lastAckSeen := c'.lastAckSeen, dupAcks := c'.dupAcks, oldestRetries := c'.oldestRetries)
    ensures CallInv(strict, base, said, acked, c')
  {
    hide Wrap, WindowInv;
  }

  lemma TimeoutKeeps(strict: bool, e: Endpoint, f: Endpoint, now: nat)
    requires SideInv(strict, e, f) && LocalEnabled(e.local, Timeout(now)) && !e.listening
    ensures var (e', out) := Act1(e, f, Timeout(now));
            SideInv(strict, e', f) && Grows(strict, e, e') && forall q :: q in out ==> PktOk(q, e, f)
  {
    hide Wrap, WrappingGe, CallInv, PktOk;
    var (e', out) := Act1(e, f, Timeout(now));
    var c := e.local.call.value;
    CallFacts(strict, e, f);
    assert Got(e') == Got(e);
    if c.oldestRetries + 1 > MAX_RETRIES {
      assert c.baseSeq == Wrap(Base(e)) by { CallBase(strict, Base(e), e.sent[e.callAt..], e.peerAckedPos, c); }
      WrapAdd(Base(e), c.nextOff);
    } else {
      ResentCall(strict, Base(e), e.sent[e.callAt..], e.peerAckedPos, c, now);
      RetransmitOk(strict, e, f);
      SameCall(strict, Base(e), e.sent[e.callAt..], e.peerAckedPos, MarkResent(c, now), e'.local.call.value);
    }
  }

  lemma CallBase(strict: bool, base: int, said: seq<byte>, acked: int, c: SendCall)
    requires CallInv(strict, base, said, acked, c)
    ensures c.baseSeq == Wrap(base)
  {
    hide Wrap, WindowInv;
  }

  lemma CloseBeginKeeps(strict: bool, e: Endpoint, f: Endpoint)
    requires SideInv(strict, e, f) && LocalEnabled(e.local, CloseBegin) && !e.listening
    ensures var (e', out) := Act1(e, f, CloseBegin);
            SideInv(strict, e', f) && Grows(strict, e, e') && forall q :: q in out ==> PktOk(q, e', f)
  {
    hide Wrap, WrappingGe, CallInv;
    var (e', out) := Act1(e, f, CloseBegin);
    assert Got(e') == Got(e);
    WrapAdd(SendPos(e), 1);
  }

  lemma CountKeeps(strict: bool, e: Endpoint, f: Endpoint, a: LocalStep)
    requires SideInv(strict, e, f) && LocalEnabled(e.local, a) && !e.listening && a.CountAcks?
    ensures var (e', out) := Act1(e, f, a); SideInv(strict, e', f) && Grows(strict, e, e') && out == {}
  {
    hide Wrap, WrappingGe, CallInv;
    var e' := Act1(e, f, a).0;
    assert Got(e') == Got(e);
    CallFacts(strict, e, f);
    SameCall(strict, Base(e), e.sent[e.callAt..], e.peerAckedPos, e.local.call.value, e'.local.call.value);
  }

  lemma DrainKeeps(strict: bool, e: Endpoint, f: Endpoint, n: nat)
    requires SideInv(strict, e, f) && LocalEnabled(e.local, Drain(n)) && !e.listening
    ensures var (e', out) := Act1(e, f, Drain(n)); SideInv(strict, e', f) && Grows(strict, e, e') && out == {}
  {
    hide Wrap, WrappingGe, CallInv, CallWf;
    assert Got(Act1(e, f, Drain(n)).0) == Got(e);
  }

  lemma QuietKeeps(strict: bool, e: Endpoint, f: Endpoint, a: LocalStep)
    requires SideInv(strict, e, f) && LocalEnabled(e.local, a) && !e.listening
    requires a.FinishTrue? || a.FinishClosed? || a.Interrupted? || a.CloseEnd?
    ensures var (e', out) := Act1(e, f, a); SideInv(strict, e', f) && Grows(strict, e, e') && out == {}
  {
    hide Wrap, WrappingGe, CallInv, CallWf;
    assert Got(Act1(e, f, a).0) == Got(e);
  }

  lemma ActKeeps(strict: bool, e: Endpoint, f: Endpoint, a: LocalStep)
    requires SideInv(strict, e, f) && SideInv(strict, f, e) && LocalEnabled(e.local, a) && !e.listening && !a.Deliver?
    requires strict && a.ReleaseOne? ==> Near(e)
    ensures var (e', out) := Act1(e, f, a);
            SideInv(strict, e', f) && Grows(strict, e, e') && forall q :: q in out ==> PktOk(q, e', f)
  {
    hide SideInv, Grows, PktOk, Near;
    match a {
      case Begin(data) => BeginKeeps(strict, e, f, data);
      case FillOne(now) => FillKeeps(strict, e, f, now);
      case ReleaseOne(now) => ReleaseKeeps(strict, e, f, now);
      case FastRetransmit(now) =>
        FastKeeps(strict, e, f, now);
        GrowOut(strict, e, Act1(e, f, a).0, f, Act1(e, f, a).1);
      case Timeout(now) =>
        TimeoutKeeps(strict, e, f, now);
        GrowOut(strict, e, Act1(e, f, a).0, f, Act1(e, f, a).1);
      case CloseBegin => CloseBeginKeeps(strict, e, f);
      case CountAcks(_, _) => CountKeeps(strict, e, f, a);
      case Drain(n) => DrainKeeps(strict, e, f, n);
      case _ => QuietKeeps(strict, e, f, a);
    }
  }

  lemma GrowOut(strict: bool, e: Endpoint, e': Endpoint, f: Endpoint, out: set<Stamped>)
    requires Grows(strict, e, e') && forall q :: q in out ==> PktOk(q, e, f)
    ensures forall q :: q in out ==> PktOk(q, e', f)
  {
    hide Grows, PktOk;
    forall q | q in out ensures PktOk(q, e', f) {
      GrowsKeepsPkt(strict, q, e, e', f);
    }
  }

  lemma AcceptKeeps(strict: bool, e: Endpoint, f: Endpoint, p: Stamped)
    requires SideInv(strict, e, f) && PktOk(p, f, e) && e.listening && p.seg.syn
    ensures var (e', out) := Accept1(e, f, p);
            SideInv(strict, e', f) && Grows(strict, e, e') && forall q :: q in out ==> PktOk(q, e', f)
  {
    hide Wrap, CallInv;
    var (e', out) := Accept1(e, f, p);
    assert Got(e) == [] && Got(e') == [];
    WrapAdd(f.isn, 1);
    WrapSmall(e.isn);
  }

  lemma WrapSmall(x: u32)
    ensures Wrap(x) == x
  {
  }

  lemma ResetKeeps(strict: bool, e: Endpoint, f: Endpoint, g: Segment)
    requires SideInv(strict, e, f) && g.rst && !e.listening
    ensures var e' := WithSock(e, Recv(e.local.sock, g).0); SideInv(strict, e', f) && Grows(strict, e, e')
  {
    hide Wrap, CallInv;
    var e' := WithSock(e, Recv(e.local.sock, g).0);
    assert Got(e') == Got(e);
  }

  /** The strict conditions only add to the loose ones. */
  lemma StrictIsLoose(strict: bool, e: Endpoint, f: Endpoint, netF: set<Stamped>, st: Step)
    requires Enabled(strict, e, f, netF, st)
    ensures Enabled(false, e, f, netF, st)
  {
  }

  /** One step of either side keeps the invariant of both. */
  lemma StepKeeps(strict: bool, e: Endpoint, f: Endpoint, netE: set<Stamped>, netF: set<Stamped>, st: Step)
    requires Inv(strict, e, f, netE, netF) && Enabled(strict, e, f, netF, st)
    ensures var (e', out) := Apply(e, f, netF, st);
            Inv(strict, e', f, netE + out, netF) && Grows(strict, e, e')
  {
    hide SideInv, Grows, PktOk, Near, LocalEnabled, Fresh, Act1, Receive1, Accept1, RecvPos, SendPos;
    StrictIsLoose(strict, e, f, netF, st);
    AckedWithinSent(strict, e, f);
    var (e', out) := Apply(e, f, netF, st);
    match st {
      case Act(a) => ActKeeps(strict, e, f, a);
      case Receive(p) => ReceiveKeeps(strict, e, f, p);
      case Reset(g) => ResetKeeps(strict, e, f, g);
      case Accept(p) => AcceptKeeps(strict, e, f, p);
    }
    GrowsKeepsPeer(strict, e, e', f);
    GrowOut(strict, e, e', f, netE);
    forall p | p in netF ensures PktOk(p, f, e') {
      PktOkPeer2(strict, p, f, e, e');
    }
  }

  lemma PktOkPeer2(strict: bool, p: Stamped, f: Endpoint, e: Endpoint, e': Endpoint)
    requires PktOk(p, f, e) && Grows(strict, e, e')
    ensures PktOk(p, f, e')
  {
    PktOkPeer(p, f, e, e');
  }

  // ---------------------------------------------------------------- whole runs

  datatype Label = Label(who: Side, step: Step)

  predicate SysEnabled(strict: bool, y: Sys, l: Label) {
    match l.who
    case Client => Enabled(strict, y.client, y.server, y.fromServer, l.step)
    case Server => Enabled(strict, y.server, y.client, y.fromClient, l.step)
  }

  function SysApply(y: Sys, l: Label): Sys
    requires SysEnabled(false, y, l)
  {
    match l.who
    case Client =>
      var (e, out) := Apply(y.client, y.server, y.fromServer, l.step);
      y.(client := e, fromClient := y.fromClient + out)
    case Server =>
      var (e, out) := Apply(y.server, y.client, y.fromClient, l.step);
      y.(server := e, fromServer := y.fromServer + out)
  }

  function NewSock(st: TcpState, seqNo: u32): Sock {
    Sock(st, seqNo, 0, [], false, 0, 8192, 536, Rtt(0, 0, INIT_RTO))
  }

  /** The client has sent its SYN, the server listens; both initial numbers are arbitrary. */
  function Init(isnC: u32, isnS: u32): Sys {
    Sys(Endpoint(Local(NewSock(SynSent, Wrap(isnC + 1)), None), isnC, false, [], false, false, [], false, isnC + 1, 0),
        Endpoint(Local(NewSock(Closed, isnS), None), isnS, true, [], false, false, [], false, isnS + 1, 0),
        {Stamped(Segment(isnC, 0, false, true, false, false, RX_BUF, 1460, []), isnC, 0)}, {})
  }

  /** `tr` is a run: it starts in an initial state and every label is enabled where it happens. */
  ghost predicate IsRun(strict: bool, tr: seq<Sys>, labels: seq<Label>) {
    && |tr| == |labels| + 1
    && (exists c: u32, s: u32 :: tr[0] == Init(c, s))
    && forall i :: 0 <= i < |labels| ==> SysEnabled(strict, tr[i], labels[i]) && tr[i + 1] == SysApply(tr[i], labels[i])
  }

  ghost predicate SysInv(strict: bool, y: Sys) {
    Inv(strict, y.client, y.server, y.fromClient, y.fromServer)
  }

  lemma InitInv(strict: bool, c: u32, s: u32)
    ensures SysInv(strict, Init(c, s))
  {
    WrapSmall(c);
  }

  lemma SysStepKeeps(strict: bool, y: Sys, l: Label)
    requires SysInv(strict, y) && SysEnabled(strict, y, l)
    ensures SysInv(strict, SysApply(y, l))
  {
    hide SideInv, PktOk, Enabled, Apply;
    match l.who {
      case Client => StepKeeps(strict, y.client, y.server, y.fromClient, y.fromServer, l.step);
      case Server => StepKeeps(strict, y.server, y.client, y.fromServer, y.fromClient, l.step);
    }
  }

  lemma {:induction false} RunInv(strict: bool, tr: seq<Sys>, labels: seq<Label>, i: nat)
    requires IsRun(strict, tr, labels) && i < |tr|
    ensures SysInv(strict, tr[i])
  {
    hide SysInv, SysEnabled, SysApply;
    if i == 0 {
      var c: u32, s: u32 :| tr[0] == Init(c, s);
      InitInv(strict, c, s);
    } else {
      RunInv(strict, tr, labels, i - 1);
      SysStepKeeps(strict, tr[i - 1], labels[i - 1]);
    }
  }

  /**
   Safety. In every state of every run, across any number of wraps of the 32-bit
   number space and with any number of sends interrupted, what each side has
   accepted is a prefix of what the other has put on the wire.
   */
  lemma AcceptedIsPrefix(tr: seq<Sys>, labels: seq<Label>, i: nat)
    requires IsRun(false, tr, labels) && i < |tr|
    ensures Got(tr[i].server) <= tr[i].client.sent
    ensures Got(tr[i].client) <= tr[i].server.sent
  {
    hide IsRun;
    RunInv(false, tr, labels, i);
    hide Wrap, LocalWf, CallInv, PktOk;
  }

  /** The other side, seen from `who`. */
  function Mine(y: Sys, who: Side): Endpoint { if who.Client? then y.client else y.server }
  function Peer(y: Sys, who: Side): Endpoint { if who.Client? then y.server else y.client }

  /**
   `send` returning true: whenever the step by which a call returns true can be
   taken, the peer has accepted every byte of the data of that call, in place.
   */
  lemma TrueMeansAccepted(tr: seq<Sys>, labels: seq<Label>, i: nat, who: Side)
    requires IsRun(true, tr, labels) && i < |labels|
    requires labels[i] == Label(who, Act(FinishTrue))
    ensures var e, f := Mine(tr[i], who), Peer(tr[i], who);
            && e.local.call.Some?
            && var data := e.local.call.value.data;
               (data == [] || e.callAt + |data| <= |Got(f)|)
               && (data != [] ==> Got(f)[e.callAt..e.callAt + |data|] == data)
  {
    var e, f := Mine(tr[i], who), Peer(tr[i], who);
    RunInv(true, tr, labels, i);
    assert SysEnabled(true, tr[i], labels[i]);
    assert SideInv(true, e, f) && SideInv(true, f, e);
    FinishedCall(e, f);
  }

  lemma FinishedCall(e: Endpoint, f: Endpoint)
    requires SideInv(true, e, f) && SideInv(true, f, e) && !e.listening
    requires e.local.call.Some? && e.local.call.value.inflight == [] && e.local.call.value.nextOff >= |e.local.call.value.data|
    ensures var data := e.local.call.value.data;
            data == [] || (e.callAt + |data| <= |Got(f)| && Got(f)[e.callAt..e.callAt + |data|] == data)
  {
    hide Wrap;
    CallFacts(true, e, f);
    var c := e.local.call.value;
    if c.data != [] {
      assert Base(e) + |c.data| <= e.peerAckedPos <= RecvPos(e, f);
      assert Got(f) <= e.sent && |e.sent| == e.callAt + |c.data|;
      assert |Got(f)| == |e.sent|;
      assert Got(f) == e.sent;
    }
  }

  // ---------------------------------------------------------------- runs without Ctrl-C

  /** Not stale, and nothing more. */
  predicate NotStale(e: Endpoint, f: Endpoint, p: Stamped) {
    && -M32 < p.seqPos - RecvPos(f, e)
    && (p.seg.ack ==> -M31 <= p.ackPos - e.peerAckedPos)
  }

  predicate CalmEnabled(e: Endpoint, f: Endpoint, netF: set<Stamped>, st: Step) {
    match st
    case Act(a) => !e.listening && !a.Deliver? && !a.Interrupted? && LocalEnabled(e.local, a)
    case Receive(p) => !e.listening && p in netF && LocalWf(e.local) && NotStale(e, f, p)
    case _ => Enabled(true, e, f, netF, st)
  }

  /** When no call is abandoned, at most one window of bytes is ever unacknowledged. */
  predicate CalmSide(e: Endpoint) {
    var st := e.local.sock.state;
    && (e.local.call.None? && (st.Established? || st.CloseWait?) ==> SendPos(e) <= e.peerAckedPos)
    && (e.local.call.Some? ==> Base(e) + Off0(e.local.call.value) <= e.peerAckedPos)
    && SendPos(e) - e.peerAckedPos <= WINDOW + B2I(e.finned)
  }

  lemma CalmGivesEnabled(e: Endpoint, f: Endpoint, netE: set<Stamped>, netF: set<Stamped>, st: Step)
    requires Inv(true, e, f, netE, netF) && CalmSide(e) && CalmSide(f) && CalmEnabled(e, f, netF, st)
    ensures Enabled(true, e, f, netF, st)
  {
    hide Wrap, LocalEnabled, SideInv, LocalWf;
    AckedWithinSent(true, e, f);
    AckedWithinSent(true, f, e);
    match st {
      case Act(a) =>
        if a.ReleaseOne? {
          CalmNear(e, f);
        }
      case Receive(p) =>
        assert PktOk(p, f, e);
      case _ =>
    }
  }

  lemma CalmNear(e: Endpoint, f: Endpoint)
    requires SideInv(true, e, f) && CalmSide(e) && !e.listening
    ensures Near(e)
  {
    hide Wrap, SideInv;
    if e.local.call.Some? && e.local.call.value.inflight != [] {
      CallFacts(true, e, f);
      WindowSpan(Base(e), e.local.call.value.inflight, e.local.call.value.nextOff, 0);
    }
  }

  lemma CalmAct(e: Endpoint, f: Endpoint, a: LocalStep)
    requires SideInv(true, e, f) && SideInv(true, f, e) && LocalEnabled(e.local, a) && !e.listening
    requires a.ReleaseOne? ==> Near(e)
    requires !a.Deliver? && !a.Interrupted? && CalmSide(e)
    requires var e' := Act1(e, f, a).0; SideInv(true, e', f)
    ensures CalmSide(Act1(e, f, a).0)
  {
    hide Wrap, WrappingGe, WindowInv, SideInv, UpdateRtt;
    if e.local.call.Some? {
      var c := e.local.call.value;
      CallFacts(true, e, f);
      if a.FillOne? {
        var e' := Act1(e, f, a).0;
        CallFacts(true, e', f);
        WindowSpan(Base(e'), e'.local.call.value.inflight, e'.local.call.value.nextOff, 0);
      } else if a.ReleaseOne? {
        ReleaseExact(e, f);
        CallWindow(e, f);
        assert c.inflight[0].off + c.inflight[0].len == EndOf(c.inflight, c.nextOff, 0);
      }
    }
  }

  lemma CallWindow(e: Endpoint, f: Endpoint)
    requires SideInv(true, e, f) && e.local.call.Some? && e.local.call.value.inflight != [] && !e.listening
    ensures var c := e.local.call.value;
            c.inflight[0].off + c.inflight[0].len == EndOf(c.inflight, c.nextOff, 0)
  {
    hide Wrap, SideInv;
    CallFacts(true, e, f);
  }

  lemma CalmReceive(e: Endpoint, f: Endpoint, p: Stamped)
    requires RecvPos(e, f) <= SendPos(e)
    requires SideInv(true, e, f) && PktOk(p, f, e) && Fresh(true, e, f, p) && !e.listening && CalmSide(e)
    ensures LocalWf(e.local)
    ensures CalmSide(Receive1(e, f, p).0)
  {
    hide SideInv, PktOk, Fresh, Settled, Wrap, WrappingGe;
    ReceiveKeeps(true, e, f, p);
    ReceiveFrame(e, f, p);
    hide Receive1;
    if e.local.sock.state.SynSent? || e.local.sock.state.SynReceived? {
      BeforeFlowing(e, f);
    }
  }

  lemma BeforeFlowing(e: Endpoint, f: Endpoint)
    requires SideInv(true, e, f) && (e.local.sock.state.SynSent? || e.local.sock.state.SynReceived?)
    ensures SendPos(e) == e.isn + 1 <= e.peerAckedPos && e.local.call.None?
  {
    hide Wrap, CallInv;
  }

  /** Receiving never touches the sending side, and only a handshake or FIN changes state upwards. */
  lemma ReceiveFrame(e: Endpoint, f: Endpoint, p: Stamped)
    requires LocalWf(e.local)
    ensures var e' := Receive1(e, f, p).0;
            && e'.isn == e.isn && e'.sent == e.sent && e'.finned == e.finned && e'.callAt == e.callAt
            && e'.local.call == e.local.call
            && (e'.local.sock.state.Established? || e'.local.sock.state.CloseWait? ==>
                  var st := e.local.sock.state;
                  st.Established? || st.CloseWait? || st.SynSent? || st.SynReceived?)
  {
    hide Wrap, WrappingGe, Plain;
  }

  lemma CalmStep(e: Endpoint, f: Endpoint, netE: set<Stamped>, netF: set<Stamped>, st: Step)
    requires Inv(true, e, f, netE, netF) && Enabled(true, e, f, netF, st) && CalmSide(e)
    requires st != Act(Interrupted)
    ensures CalmSide(Apply(e, f, netF, st).0)
  {
    StepKeeps(true, e, f, netE, netF, st);
    hide SideInv, PktOk, Fresh, Wrap, Act1, Receive1, LocalEnabled;
    match st {
      case Act(a) => CalmAct(e, f, a);
      case Receive(p) => CalmReceive(e, f, p);
      case Reset(g) =>
      case Accept(p) => ListeningSide(e, f);
    }
  }

  lemma ListeningSide(e: Endpoint, f: Endpoint)
    requires SideInv(true, e, f) && e.listening
    ensures SendPos(e) == e.peerAckedPos && e.local.call.None?
  {
    hide Wrap, CallInv;
  }

  ghost predicate IsCalmRun(tr: seq<Sys>, labels: seq<Label>) {
    && |tr| == |labels| + 1
    && (exists c: u32, s: u32 :: tr[0] == Init(c, s))
    && forall i :: 0 <= i < |labels| ==>
         && SysCalmEnabled(tr[i], labels[i])
         && (SysEnabled(true, tr[i], labels[i]) ==> tr[i + 1] == SysApply(tr[i], labels[i]))
  }

  predicate SysCalmEnabled(y: Sys, l: Label) {
    match l.who
    case Client => CalmEnabled(y.client, y.server, y.fromServer, l.step)
    case Server => CalmEnabled(y.server, y.client, y.fromClient, l.step)
  }

  ghost predicate CalmSys(y: Sys) { SysInv(true, y) && CalmSide(y.client) && CalmSide(y.server) }

  lemma CalmSysStep(y: Sys, l: Label)
    requires CalmSys(y) && SysCalmEnabled(y, l)
    ensures SysEnabled(true, y, l) && CalmSys(SysApply(y, l))
  {
    hide SideInv, PktOk, CalmSide, Enabled, Apply;
    match l.who {
      case Client =>
        CalmGivesEnabled(y.client, y.server, y.fromClient, y.fromServer, l.step);
        CalmStep(y.client, y.server, y.fromClient, y.fromServer, l.step);
      case Server =>
        assert Inv(true, y.server, y.client, y.fromServer, y.fromClient);
        CalmGivesEnabled(y.server, y.client, y.fromServer, y.fromClient, l.step);
        CalmStep(y.server, y.client, y.fromServer, y.fromClient, l.step);
    }
    SysStepKeeps(true, y, l);
  }

  lemma {:induction false} CalmRunState(tr: seq<Sys>, labels: seq<Label>, i: nat)
    requires IsCalmRun(tr, labels) && i < |tr|
    ensures CalmSys(tr[i])
  {
    hide CalmSys, SysEnabled, SysApply, SysCalmEnabled;
    if i == 0 {
      var c: u32, s: u32 :| tr[0] == Init(c, s);
      InitInv(true, c, s);
      CalmInit(c, s);
    } else {
      CalmRunState(tr, labels, i - 1);
      CalmSysStep(tr[i - 1], labels[i - 1]);
    }
  }

  lemma CalmInit(c: u32, s: u32)
    requires SysInv(true, Init(c, s))
    ensures CalmSys(Init(c, s))
  {
    hide SysInv;
  }

  /**
   If no send is ever interrupted, staleness is the only thing to fear: no segment
   runs ahead of the receiver, every call finds room, at most one window is ever in
   flight, and so every such run is a run in the sense of the theorems above.
   */
  lemma CalmRunIsRun(tr: seq<Sys>, labels: seq<Label>)
    requires IsCalmRun(tr, labels)
    ensures IsRun(true, tr, labels)
    ensures forall i :: 0 <= i < |tr| ==>
              && SendPos(tr[i].client) - tr[i].client.peerAckedPos <= WINDOW + 1
              && SendPos(tr[i].server) - tr[i].server.peerAckedPos <= WINDOW + 1
  {
    hide SysInv, SysEnabled, SysApply, SysCalmEnabled;
    forall i | 0 <= i < |tr|
      ensures CalmSys(tr[i])
    {
      CalmRunState(tr, labels, i);
    }
    forall i | 0 <= i < |labels|
      ensures SysEnabled(true, tr[i], labels[i])
    {
      CalmSysStep(tr[i], labels[i]);
    }
  }

  // ---------------------------------------------------------------- runs whose calls find room

  /** What a caller can look at: the bytes unacknowledged when the call starts. */
  predicate RoomyEnabled(e: Endpoint, f: Endpoint, netF: set<Stamped>, st: Step) {
    match st
    case Act(a) => !e.listening && !a.Deliver? && LocalEnabled(e.local, a) && (a.Begin? ==> RoomToSend(e))
    case _ => Enabled(true, e, f, netF, st)
  }

  predicate RoomSide(e: Endpoint) { e.local.call.Some? ==> Base(e) - e.peerAckedPos <= M31 - WINDOW }

  lemma RoomyNear(e: Endpoint, f: Endpoint)
    requires SideInv(true, e, f) && RoomSide(e) && !e.listening
    ensures Near(e)
  {
    hide Wrap, SideInv;
    if e.local.call.Some? && e.local.call.value.inflight != [] { CallFacts(true, e, f); }
  }

  lemma RoomyGivesEnabled(e: Endpoint, f: Endpoint, netF: set<Stamped>, st: Step)
    requires SideInv(true, e, f) && RoomSide(e) && RoomyEnabled(e, f, netF, st)
    ensures Enabled(true, e, f, netF, st)
  {
    hide SideInv, LocalEnabled, Near;
    if st.Act? { RoomyNear(e, f); }
  }

  lemma ActFrame(e: Endpoint, f: Endpoint, a: LocalStep)
    requires LocalEnabled(e.local, a) && !a.Deliver?
    ensures var e' := Act1(e, f, a).0;
            && e'.isn == e.isn && e'.peerAckedPos == e.peerAckedPos
            && (if a.Begin? then e'.callAt == |e.sent| else e'.callAt == e.callAt && (e'.local.call.Some? ==> e.local.call.Some?))
  {
    hide Wrap, WrappingGe, UpdateRtt, DataSegment, Stamp, OutPos;
  }

  lemma RoomyStep(e: Endpoint, f: Endpoint, netE: set<Stamped>, netF: set<Stamped>, st: Step)
    requires Inv(true, e, f, netE, netF) && RoomSide(e) && RoomyEnabled(e, f, netF, st)
    ensures Enabled(true, e, f, netF, st) && RoomSide(Apply(e, f, netF, st).0)
  {
    RoomyGivesEnabled(e, f, netF, st);
    StepKeeps(true, e, f, netE, netF, st);
    hide SideInv, PktOk, Fresh, Wrap, Act1, Receive1, LocalEnabled;
    match st {
      case Act(a) => ActFrame(e, f, a);
      case Receive(p) => ReceiveFrame(e, f, p);
      case Reset(g) =>
      case Accept(p) =>
    }
  }

  ghost predicate RoomySys(y: Sys) { SysInv(true, y) && RoomSide(y.client) && RoomSide(y.server) }

  predicate SysRoomyEnabled(y: Sys, l: Label) {
    match l.who
    case Client => RoomyEnabled(y.client, y.server, y.fromServer, l.step)
    case Server => RoomyEnabled(y.server, y.client, y.fromClient, l.step)
  }

  lemma RoomySysStep(y: Sys, l: Label)
    requires RoomySys(y) && SysRoomyEnabled(y, l)
    ensures SysEnabled(true, y, l) && RoomySys(SysApply(y, l))
  {
    hide SideInv, PktOk, RoomSide, Enabled, Apply, RoomyEnabled;
    match l.who {
      case Client => RoomyStep(y.client, y.server, y.fromClient, y.fromServer, l.step);
      case Server => RoomyStep(y.server, y.client, y.fromServer, y.fromClient, l.step);
    }
    SysStepKeeps(true, y, l);
  }

  ghost predicate IsRoomyRun(tr: seq<Sys>, labels: seq<Label>) {
    && |tr| == |labels| + 1
    && (exists c: u32, s: u32 :: tr[0] == Init(c, s))
    && forall i :: 0 <= i < |labels| ==>
         && SysRoomyEnabled(tr[i], labels[i])
         && (SysEnabled(true, tr[i], labels[i]) ==> tr[i + 1] == SysApply(tr[i], labels[i]))
  }

  lemma {:induction false} RoomyRunState(tr: seq<Sys>, labels: seq<Label>, i: nat)
    requires IsRoomyRun(tr, labels) && i < |tr|
    ensures RoomySys(tr[i])
  {
    hide RoomySys, SysEnabled, SysApply, SysRoomyEnabled;
    if i == 0 {
      var c: u32, s: u32 :| tr[0] == Init(c, s);
      InitInv(true, c, s);
      RoomyInit(c, s);
    } else {
      RoomyRunState(tr, labels, i - 1);
      RoomySysStep(tr[i - 1], labels[i - 1]);
    }
  }

  lemma RoomyInit(c: u32, s: u32)
    requires SysInv(true, Init(c, s))
    ensures RoomySys(Init(c, s))
  {
    hide SysInv;
  }

  /** If every call starts with at most 2^31 less a window unacknowledged, no segment is ever released too far ahead. */
  lemma RoomyRunIsRun(tr: seq<Sys>, labels: seq<Label>)
    requires IsRoomyRun(tr, labels)
    ensures IsRun(true, tr, labels)
  {
    hide SysInv, SysEnabled, SysApply, SysRoomyEnabled;
    forall i | 0 <= i < |labels| ensures SysEnabled(true, tr[i], labels[i]) {
      RoomyRunState(tr, labels, i);
      RoomySysStep(tr[i], labels[i]);
    }
  }
}
