/**
 One TCP endpoint. The first half gives every transition of the socket as a
 function on values; the second half is the socket object itself, whose
 methods are proved to perform exactly those transitions.
 */
module TcpModel {
  import opened Common
  import opened SeqArith

  const RX_BUF := 32768
  const MAX_SEG := 1400
  const SND_WND_SEGS := 8
  const MAX_RETRIES := 5
  const INIT_RTO := 250
  const MIN_RTO := 62
  const MAX_RTO := 15000
  const U32_MAX := 0xFFFF_FFFF

  datatype TcpState =
    Closed | SynSent | SynReceived | Established | FinWait1 | FinWait2 | CloseWait | LastAck

  datatype Segment = Segment(
    seqNo: u32, ackNo: u32,
    fin: bool, syn: bool, rst: bool, ack: bool,
    window: nat, synMss: nat, payload: seq<byte>)

  datatype Rtt = Rtt(srtt: u32, rttvar: u32, rto: nat)

  /** `rx` is the filled part of the receive buffer. */
  datatype Sock = Sock(
    state: TcpState, seqNo: u32, ackNo: u32,
    rx: seq<byte>, peerClosed: bool, peerAcked: u32,
    sndWnd: nat, peerMss: nat, rtt: Rtt)

  datatype InFlight = InFlight(off: nat, len: nat, seqNo: u32, sentTs: nat, resent: bool)

  /** The locals of one `send` call. */
  datatype SendCall = SendCall(
    data: seq<byte>, mss: nat, baseSeq: u32,
    inflight: seq<InFlight>, nextOff: nat,
    lastAckSeen: u32, dupAcks: nat, oldestRetries: nat)

  // ---------------------------------------------------------------- round-trip time

  function SatAdd(a: nat, b: nat): u32 {
    if a + b > U32_MAX then U32_MAX else a + b
  }

  function SatMul4(a: nat): u32 {
    if 4 * a > U32_MAX then U32_MAX else 4 * a
  }

  function Clamp(x: int, lo: int, hi: int): int { if x < lo then lo else if x > hi then hi else x }

  /** Section 2 of RFC 6298 in integer ticks, with the saturating operators of the code. */
  function UpdateRtt(t: Rtt, sample: u32): (t': Rtt)
  {
    var r := Max(sample, 1);
    var srtt, rttvar :=
      if t.srtt == 0 then r else SatAdd(t.srtt - t.srtt / 8, r / 8),
      if t.srtt == 0 then r / 2
      else SatAdd(t.rttvar - t.rttvar / 4, (if r > t.srtt then r - t.srtt else t.srtt - r) / 4);
    Rtt(srtt, rttvar, Clamp(SatAdd(srtt, Max(SatMul4(rttvar), 1)), MIN_RTO, MAX_RTO))
  }

  /** Section 5.5 of RFC 6298: back off on every retransmission. */
  function Backoff(t: Rtt): Rtt {
    t.(rto := Min(SatAdd(t.rto, t.rto), MAX_RTO))
  }

  predicate RttOk(t: Rtt) {
    MIN_RTO <= t.rto <= MAX_RTO
  }

  function AfterSamples(t: Rtt, samples: seq<u32>): Rtt {
    if samples == [] then t
    else UpdateRtt(AfterSamples(t, samples[..|samples| - 1]), samples[|samples| - 1])
  }

  /** One step moves SRTT towards the sample and never past it. */
  lemma SrttBetween(t: Rtt, sample: u32)
    requires t.srtt != 0
    ensures var r := Max(sample, 1);
            Min(t.srtt, r) <= UpdateRtt(t, sample).srtt <= Max(t.srtt, r)
  {
  }

  /**
   Over any run of samples the smoothed estimate stays inside the range of the
   samples seen (so the "first measurement" branch is taken exactly once), and
   the timeout stays inside its bounds.
   */
  lemma {:induction false} SrttTracksSamples(t: Rtt, samples: seq<u32>, lo: u32, hi: u32)
    requires t.srtt == 0 && RttOk(t) && 1 <= lo <= hi
    requires forall i :: 0 <= i < |samples| ==> lo <= Max(samples[i], 1) <= hi
    ensures RttOk(AfterSamples(t, samples))
    ensures samples != [] ==> lo <= AfterSamples(t, samples).srtt <= hi
  {
    if |samples| > 0 {
      var init := samples[..|samples| - 1];
      forall i | 0 <= i < |init| ensures lo <= Max(init[i], 1) <= hi {
        assert init[i] == samples[i];
      }
      SrttTracksSamples(t, init, lo, hi);
      var last := samples[|samples| - 1];
      assert lo <= Max(last, 1) <= hi;
      if init != [] {
        SrttBetween(AfterSamples(t, init), last);
      }
    }
  }

  // ---------------------------------------------------------------- receiving

  /** A segment this socket would send now, without data. */
  function Plain(s: Sock, fin: bool): Segment
    requires |s.rx| <= RX_BUF
  {
    Segment(s.seqNo, s.ackNo, fin, false, false, true, RX_BUF - |s.rx|, 0, [])
  }

  predicate Flowing(st: TcpState) {
    st.Established? || st.FinWait1? || st.FinWait2?
  }

  predicate TakesAck(s: Sock, g: Segment) {
    (Flowing(s.state) || s.state.CloseWait?) && g.ack && WrappingGe(g.ackNo, s.peerAcked)
  }

  function AckPart(s: Sock, g: Segment): Sock {
    if TakesAck(s, g) then s.(peerAcked := g.ackNo) else s
  }

  /** In-order data is copied up to the free space; anything else is dropped. */
  function DataPart(s: Sock, g: Segment): Sock
    requires |s.rx| <= RX_BUF
  {
    if g.payload != [] && g.seqNo == s.ackNo then
      var copy := Min(|g.payload|, RX_BUF - |s.rx|);
      s.(rx := s.rx + g.payload[..copy], ackNo := Wrap(s.ackNo + copy))
    else s
  }

  predicate TakesFin(s: Sock, g: Segment) {
    Flowing(s.state) && g.fin && g.seqNo == s.ackNo
  }

  function FinPart(s: Sock, g: Segment): Sock {
    if TakesFin(s, g) then
      s.(ackNo := Wrap(s.ackNo + 1), peerClosed := true,
         state := if s.state.Established? then CloseWait else Closed)
    else s
  }

  function FlowingPart(s: Sock, g: Segment): (r: (Sock, seq<Segment>))
    requires |s.rx| <= RX_BUF
    ensures |r.0.rx| <= RX_BUF && r.0.rtt == s.rtt
  {
    hide Wrap, WrappingGe, Plain;
    var s' := FinPart(DataPart(AckPart(s, g), g), g);
    (s', if g.payload != [] || g.fin then [Plain(s', false)] else [])
  }

  function Dispatch(s0: Sock, g: Segment): (r: (Sock, seq<Segment>))
    requires |s0.rx| <= RX_BUF
    ensures |r.0.rx| <= RX_BUF && r.0.rtt == s0.rtt
  {
    hide FlowingPart, WrappingGe, Wrap, Plain;
    var s := if g.ack then s0.(sndWnd := g.window) else s0;
    match s.state
    case SynSent =>
      if g.syn && g.ack then
        var s' := s.(ackNo := Wrap(g.seqNo + 1), seqNo := g.ackNo, peerAcked := g.ackNo, state := Established);
        (s', [Plain(s', false)])
      else (s, [])
    case SynReceived =>
      if g.ack && g.ackNo == s.seqNo then
        var s' := s.(peerAcked := g.ackNo, state := Established);
        if g.payload != [] || g.fin then FlowingPart(s', g) else (s', [])
      else (s, [])
    case Established => FlowingPart(s, g)
    case FinWait1 => FlowingPart(s, g)
    case FinWait2 => FlowingPart(s, g)
    case CloseWait => (AckPart(s, g), [])
    case LastAck => (if g.ack then s.(state := Closed) else s, [])
    case Closed => (s, [])
  }

  function Recv(s: Sock, g: Segment): (r: (Sock, seq<Segment>))
    requires |s.rx| <= RX_BUF
    ensures |r.0.rx| <= RX_BUF && r.0.rtt == s.rtt
  {
    hide Dispatch;
    if g.rst then (s.(state := Closed, peerClosed := true), [])
    else Dispatch(if g.syn then s.(peerMss := g.synMss) else s, g)
  }

  // ---------------------------------------------------------------- sending

  /** A socket together with the `send` call in progress, if any. */
  datatype Local = Local(sock: Sock, call: Option<SendCall>)

  datatype LocalStep =
    | Begin(data: seq<byte>)                  // enter send
    | FillOne(fillNow: nat)                   // put one more segment in flight
    | Deliver(seg: Segment)                   // one segment from the queue of this connection
    | ReleaseOne(relNow: nat)                 // drop an acknowledged segment from the window
    | CountAcks(progressed: bool, got: bool)  // duplicate-ACK bookkeeping of one iteration
    | FastRetransmit(fastNow: nat)
    | Timeout(rtoNow: nat)
    | FinishTrue
    | FinishClosed
    | Interrupted                             // the user pressed Ctrl-C
    | Drain(n: nat)                           // the application takes n received bytes
    | CloseBegin
    | CloseEnd

  function NewCall(s: Sock, data: seq<byte>): SendCall {
    SendCall(data, Clamp(s.peerMss, 536, MAX_SEG), s.seqNo, [], 0, s.peerAcked, 0, 0)
  }

  predicate CanFill(s: Sock, c: SendCall) {
    c.nextOff < |c.data| && |c.inflight| < SND_WND_SEGS
    && (c.inflight == [] || (s.seqNo - s.peerAcked) % M32 + c.mss <= s.sndWnd)
  }

  function DataSegment(s: Sock, c: SendCall, f: InFlight): Segment
    requires |s.rx| <= RX_BUF && f.off + f.len <= |c.data|
  {
    Plain(s, false).(seqNo := f.seqNo, payload := c.data[f.off..f.off + f.len])
  }

  function NextInFlight(s: Sock, c: SendCall, now: nat): InFlight
    requires c.nextOff <= |c.data|
  {
    InFlight(c.nextOff, Min(c.mss, |c.data| - c.nextOff), s.seqNo, now, false)
  }

  predicate FrontAcked(s: Sock, c: SendCall) {
    c.inflight != [] && WrappingGe(s.peerAcked, Wrap(c.inflight[0].seqNo + c.inflight[0].len))
  }

  function MarkResent(c: SendCall, now: nat): SendCall
    requires c.inflight != []
  {
    c.(inflight := c.inflight[0 := c.inflight[0].(resent := true, sentTs := now)])
  }

  /** Clock differences wrap in the code; the clock here never runs backwards. */
  function Elapsed(now: nat, since: nat): nat {
    if now >= since then now - since else 0
  }

  predicate CallWf(c: SendCall) {
    && c.nextOff <= |c.data|
    && forall i :: 0 <= i < |c.inflight| ==> c.inflight[i].off + c.inflight[i].len <= |c.data|
  }

  predicate LocalWf(l: Local) {
    |l.sock.rx| <= RX_BUF && RttOk(l.sock.rtt) && (l.call.Some? ==> CallWf(l.call.value))
  }

  predicate LocalEnabled(l: Local, st: LocalStep) {
    && LocalWf(l)
    && match st
       case Begin(data) => l.call.None? && l.sock.state.Established?
       case FillOne(_) => l.call.Some? && CanFill(l.sock, l.call.value)
       case Deliver(_) => true
       case ReleaseOne(_) => l.call.Some? && FrontAcked(l.sock, l.call.value)
       case CountAcks(_, _) => l.call.Some?
       case FastRetransmit(_) =>
         l.call.Some? && l.call.value.inflight != [] && l.call.value.dupAcks >= 3
       case Timeout(now) =>
         l.call.Some? && l.call.value.inflight != []
         && Elapsed(now, l.call.value.inflight[0].sentTs) >= l.sock.rtt.rto
       case FinishTrue =>
         l.call.Some? && l.call.value.inflight == [] && l.call.value.nextOff >= |l.call.value.data|
       case FinishClosed => l.call.Some? && l.sock.state.Closed?
       case Interrupted => l.call.Some?
       case Drain(n) => n <= |l.sock.rx|
       case CloseBegin => l.call.None? && (l.sock.state.Established? || l.sock.state.CloseWait?)
       case CloseEnd => l.call.None?
  }

  function Fill(l: Local, now: nat): (r: (Local, seq<Segment>))
    requires LocalEnabled(l, FillOne(now))
    ensures LocalWf(r.0)
  {
    hide Wrap, WrappingGe, DataSegment;
    var c := l.call.value;
    var f := NextInFlight(l.sock, c, now);
    (Local(l.sock.(seqNo := Wrap(l.sock.seqNo + f.len)),
           Some(c.(inflight := c.inflight + [f], nextOff := c.nextOff + f.len))),
     [DataSegment(l.sock, c, f)])
  }

  /** A sample is taken only from a segment that was never retransmitted (Karn). */
  function Sampled(s: Sock, f: InFlight, now: nat): Sock {
    if f.resent then s else s.(rtt := UpdateRtt(s.rtt, Min(Elapsed(now, f.sentTs), U32_MAX)))
  }

  function Retransmit(l: Local, now: nat): (r: (Local, seq<Segment>))
    requires LocalEnabled(l, Timeout(now))
    ensures LocalWf(r.0)
  {
    hide Wrap, DataSegment;
    var s, c := l.sock, l.call.value;
    if c.oldestRetries + 1 > MAX_RETRIES then
      (Local(s.(state := Closed, seqNo := Wrap(c.baseSeq + c.nextOff)), None), [])
    else
      (Local(s.(rtt := Backoff(s.rtt)), Some(MarkResent(c, now).(oldestRetries := c.oldestRetries + 1))),
       [DataSegment(s, c, c.inflight[0])])
  }

  function Release(l: Local, now: nat): (r: Local)
    requires LocalEnabled(l, ReleaseOne(now))
    ensures LocalWf(r)
  {
    var c := l.call.value;
    Local(Sampled(l.sock, c.inflight[0], now), Some(c.(inflight := c.inflight[1..])))
  }

  function LocalApply(l: Local, st: LocalStep): (r: (Local, seq<Segment>))
    requires LocalEnabled(l, st)
    ensures LocalWf(r.0)
  {
    hide Wrap, WrappingGe, DataSegment, Recv, Fill, Retransmit, Release, CanFill, Plain;
    match st
    case Begin(data) => (l.(call := Some(NewCall(l.sock, data))), [])
    case FillOne(now) => Fill(l, now)
    case Deliver(g) => var (s', out) := Recv(l.sock, g); (l.(sock := s'), out)
    case ReleaseOne(now) => (Release(l, now), [])
    case CountAcks(progressed, got) =>
      var c := l.call.value;
      (l.(call := Some(
         if progressed then c.(oldestRetries := 0, dupAcks := 0, lastAckSeen := l.sock.peerAcked)
         else if got && l.sock.peerAcked == c.lastAckSeen && c.inflight != [] then c.(dupAcks := c.dupAcks + 1)
         else c)), [])
    case FastRetransmit(now) =>
      var c := l.call.value;
      (l.(call := Some(MarkResent(c, now).(dupAcks := 0))), [DataSegment(l.sock, c, c.inflight[0])])
    case Timeout(now) => Retransmit(l, now)
    case FinishTrue => (l.(call := None), [])
    case FinishClosed => (l.(call := None), [])
    case Interrupted => (l.(call := None), [])
    case Drain(n) => (l.(sock := l.sock.(rx := l.sock.rx[n..])), [])
    case CloseBegin =>
      (l.(sock := l.sock.(seqNo := Wrap(l.sock.seqNo + 1),
                          state := if l.sock.state.Established? then FinWait1 else LastAck)),
       [Plain(l.sock, true)])
    case CloseEnd => (l.(sock := l.sock.(state := Closed)), [])
  }

  /** `steps`, each enabled where it happens, lead from `l` to `l'` and transmit `out`. */
  ghost predicate LocalRun(l: Local, steps: seq<LocalStep>, l': Local, out: seq<Segment>)
    decreases |steps|
  {
    if steps == [] then l' == l && out == []
    else
      var m := |steps| - 1;
      exists mid: Local, o: seq<Segment> ::
        LocalRun(l, steps[..m], mid, o) && LocalEnabled(mid, steps[m])
        && (l', out) == (LocalApply(mid, steps[m]).0, o + LocalApply(mid, steps[m]).1)
  }

  lemma RunNil(l: Local)
    ensures LocalRun(l, [], l, [])
  {
  }

  lemma RunSnoc(l: Local, steps: seq<LocalStep>, mid: Local, out: seq<Segment>, st: LocalStep)
    requires LocalRun(l, steps, mid, out) && LocalEnabled(mid, st)
    ensures LocalRun(l, steps + [st], LocalApply(mid, st).0, out + LocalApply(mid, st).1)
  {
    hide LocalApply, LocalEnabled;
    assert (steps + [st])[..|steps|] == steps;
  }

  lemma RunSnocSilent(l: Local, steps: seq<LocalStep>, mid: Local, out: seq<Segment>, st: LocalStep)
    requires LocalRun(l, steps, mid, out) && LocalEnabled(mid, st) && LocalApply(mid, st).1 == []
    ensures LocalRun(l, steps + [st], LocalApply(mid, st).0, out)
  {
    hide LocalApply, LocalEnabled, LocalRun;
    RunSnoc(l, steps, mid, out, st);
    assert out + LocalApply(mid, st).1 == out;
  }

  lemma {:induction false} RunConcat(a: Local, s1: seq<LocalStep>, b: Local, o1: seq<Segment>,
                                     s2: seq<LocalStep>, c: Local, o2: seq<Segment>)
    requires LocalRun(a, s1, b, o1) && LocalRun(b, s2, c, o2)
    ensures LocalRun(a, s1 + s2, c, o1 + o2)
    decreases |s2|
  {
    hide LocalApply, LocalEnabled;
    if s2 == [] {
      assert s1 + s2 == s1;
      assert o1 + o2 == o1;
    } else {
      var m := |s2| - 1;
      var mid: Local, o: seq<Segment> :|
        LocalRun(b, s2[..m], mid, o) && LocalEnabled(mid, s2[m])
        && (c, o2) == (LocalApply(mid, s2[m]).0, o + LocalApply(mid, s2[m]).1);
      RunConcat(a, s1, b, o1, s2[..m], mid, o);
      RunSnoc(a, s1 + s2[..m], mid, o1 + o, s2[m]);
      assert s1 + s2[..m] + [s2[m]] == s1 + s2;
      assert o1 + o + LocalApply(mid, s2[m]).1 == o1 + o2;
    }
  }

  /** What one pass of the send loop observes: the interrupt key, the queue and the clock. */
  datatype Obs = Obs(ctrlC: bool, queue: seq<Segment>, now: nat)

  datatype SendResult = Returned(ok: bool) | StillSending

  // ---------------------------------------------------------------- which steps a script calls for

  function Next(l: Local, st: LocalStep): Local {
    if LocalEnabled(l, st) then LocalApply(l, st).0 else l
  }

  function After(l: Local, steps: seq<LocalStep>): Local {
    if steps == [] then l else Next(After(l, steps[..|steps| - 1]), steps[|steps| - 1])
  }

  /** A run ends where its steps lead. */
  lemma {:induction false} RunIsAfter(l: Local, steps: seq<LocalStep>, l': Local, out: seq<Segment>)
    requires LocalRun(l, steps, l', out)
    ensures l' == After(l, steps)
    decreases |steps|
  {
    hide LocalApply, LocalEnabled;
    if steps != [] {
      var m := |steps| - 1;
      var mid: Local, o: seq<Segment> :|
        LocalRun(l, steps[..m], mid, o) && LocalEnabled(mid, steps[m])
        && (l', out) == (LocalApply(mid, steps[m]).0, o + LocalApply(mid, steps[m]).1);
      RunIsAfter(l, steps[..m], mid, o);
    }
  }

  lemma {:induction false} AfterConcat(l: Local, a: seq<LocalStep>, b: seq<LocalStep>)
    ensures After(l, a + b) == After(After(l, a), b)
    decreases |b|
  {
    hide Next;
    if b == [] {
      assert a + b == a;
    } else {
      assert (a + b)[..|a + b| - 1] == a + b[..|b| - 1];
      AfterConcat(l, a, b[..|b| - 1]);
    }
  }

  /** Segments put in flight until no further one is allowed. */
  function Fills(l: Local, now: nat): seq<LocalStep>
    decreases if l.call.Some? then |l.call.value.data| - l.call.value.nextOff else 0
  {
    if LocalEnabled(l, FillOne(now)) && l.call.value.mss > 0
    then [FillOne(now)] + Fills(LocalApply(l, FillOne(now)).0, now)
    else []
  }

  lemma FillsStep(l: Local, now: nat, steps: seq<LocalStep>)
    requires LocalEnabled(l, FillOne(now)) && l.call.value.mss > 0
    ensures steps + Fills(l, now) == steps + [FillOne(now)] + Fills(LocalApply(l, FillOne(now)).0, now)
  {
    hide LocalApply, LocalEnabled;
    assert steps + ([FillOne(now)] + Fills(LocalApply(l, FillOne(now)).0, now))
           == steps + [FillOne(now)] + Fills(LocalApply(l, FillOne(now)).0, now);
  }

  lemma FillsEnd(l: Local, now: nat)
    requires !LocalEnabled(l, FillOne(now))
    ensures Fills(l, now) == []
  {
    hide LocalApply, LocalEnabled;
  }

  /** Segments released until the front is not acknowledged. */
  function Releases(l: Local, now: nat): seq<LocalStep>
    decreases if l.call.Some? then |l.call.value.inflight| else 0
  {
    if LocalEnabled(l, ReleaseOne(now))
    then [ReleaseOne(now)] + Releases(LocalApply(l, ReleaseOne(now)).0, now)
    else []
  }

  lemma ReleasesStep(l: Local, now: nat, steps: seq<LocalStep>)
    requires LocalEnabled(l, ReleaseOne(now))
    ensures steps + Releases(l, now) == steps + [ReleaseOne(now)] + Releases(LocalApply(l, ReleaseOne(now)).0, now)
  {
    hide LocalApply, LocalEnabled;
    assert steps + ([ReleaseOne(now)] + Releases(LocalApply(l, ReleaseOne(now)).0, now))
           == steps + [ReleaseOne(now)] + Releases(LocalApply(l, ReleaseOne(now)).0, now);
  }

  lemma ReleasesEnd(l: Local, now: nat)
    requires !LocalEnabled(l, ReleaseOne(now))
    ensures Releases(l, now) == []
  {
    hide LocalApply, LocalEnabled;
  }

  function Delivers(queue: seq<Segment>): seq<LocalStep> { seq(|queue|, i requires 0 <= i < |queue| => Deliver(queue[i])) }

  function IfEnabled(l: Local, st: LocalStep): seq<LocalStep> { if LocalEnabled(l, st) then [st] else [] }

  /** Fast retransmit, then the timer. */
  function Resends(l: Local, now: nat): seq<LocalStep> {
    var fast := IfEnabled(l, FastRetransmit(now));
    fast + IfEnabled(After(l, fast), Timeout(now))
  }

  function Counting(l: Local, obs: Obs): seq<LocalStep> {
    var h := Releases(l, obs.now);
    h + [CountAcks(h != [], obs.queue != [])]
  }

  /** The second half of a pass: receive, release, resend. */
  function PassTail(l: Local, obs: Obs): seq<LocalStep> {
    var g := Delivers(obs.queue);
    var h := Counting(After(l, g), obs);
    g + h + Resends(After(l, g + h), obs.now)
  }

  /** One pass of the loop. */
  function PassSteps(l: Local, obs: Obs): seq<LocalStep> {
    if obs.ctrlC then [Interrupted]
    else if l.sock.state.Closed? then [FinishClosed]
    else
      var f := Fills(l, obs.now);
      f + if LocalEnabled(After(l, f), FinishTrue) then [FinishTrue] else PassTail(After(l, f), obs)
  }

  lemma LastStep(l: Local, st: LocalStep)
    requires LocalEnabled(l, st)
    ensures After(l, [st]) == LocalApply(l, st).0
  {
    hide LocalApply, LocalEnabled;
    assert [st][..0] == [];
  }

  /** The tail of a pass does not end by finishing. */
  lemma TailEnds(l: Local, obs: Obs)
    ensures PassTail(l, obs) != [] && !PassTail(l, obs)[|PassTail(l, obs)| - 1].FinishTrue?
  {
    hide After, Releases, LocalEnabled;
  }

  /** All passes, until the call ends or the script does. */
  function ScriptSteps(l: Local, script: seq<Obs>): seq<LocalStep>
    decreases |script|
  {
    if script == [] || l.call.None? then []
    else
      var p := PassSteps(l, script[0]);
      p + ScriptSteps(After(l, p), script[1..])
  }

  /** The segments delivered by some steps, in order. */
  function Deliveries(steps: seq<LocalStep>): seq<Segment> {
    if steps == [] then []
    else Deliveries(steps[..|steps| - 1]) + if steps[|steps| - 1].Deliver? then [steps[|steps| - 1].seg] else []
  }

  lemma {:induction false} DeliveriesConcat(a: seq<LocalStep>, b: seq<LocalStep>)
    ensures Deliveries(a + b) == Deliveries(a) + Deliveries(b)
    decreases |b|
  {
    if b == [] {
      assert a + b == a;
    } else {
      assert (a + b)[..|a + b| - 1] == a + b[..|b| - 1];
      DeliveriesConcat(a, b[..|b| - 1]);
    }
  }

  predicate Silent(steps: seq<LocalStep>) { forall k :: 0 <= k < |steps| ==> !steps[k].Deliver? }

  lemma {:induction false} SilentDelivers(steps: seq<LocalStep>)
    requires Silent(steps)
    ensures Deliveries(steps) == []
    decreases |steps|
  {
    if steps != [] { SilentDelivers(steps[..|steps| - 1]); }
  }

  lemma {:induction false} QueueDelivers(queue: seq<Segment>)
    ensures Deliveries(Delivers(queue)) == queue
    decreases |queue|
  {
    if queue != [] {
      var m := |queue| - 1;
      assert Delivers(queue)[..m] == Delivers(queue[..m]);
      QueueDelivers(queue[..m]);
      assert queue == queue[..m] + [queue[m]];
    }
  }

  lemma {:induction false} FillsAre(l: Local, now: nat)
    ensures forall k :: 0 <= k < |Fills(l, now)| ==> Fills(l, now)[k] == FillOne(now)
    decreases if l.call.Some? then |l.call.value.data| - l.call.value.nextOff else 0
  {
    if LocalEnabled(l, FillOne(now)) && l.call.value.mss > 0 { FillsAre(LocalApply(l, FillOne(now)).0, now); }
  }

  lemma {:induction false} ReleasesAre(l: Local, now: nat)
    ensures forall k :: 0 <= k < |Releases(l, now)| ==> Releases(l, now)[k] == ReleaseOne(now)
    decreases if l.call.Some? then |l.call.value.inflight| else 0
  {
    if LocalEnabled(l, ReleaseOne(now)) { ReleasesAre(LocalApply(l, ReleaseOne(now)).0, now); }
  }

  /** Steps after which the call still goes on. */
  predicate Keeps(steps: seq<LocalStep>) {
    forall k :: 0 <= k < |steps| ==>
      steps[k].FillOne? || steps[k].Deliver? || steps[k].ReleaseOne? || steps[k].CountAcks? || steps[k].FastRetransmit?
  }

  lemma {:induction false} CallStays(l: Local, steps: seq<LocalStep>)
    requires LocalWf(l)
    ensures LocalWf(After(l, steps))
    ensures l.call.Some? && Keeps(steps) ==> After(l, steps).call.Some?
    decreases |steps|
  {
    if steps != [] {
      var front, st := steps[..|steps| - 1], steps[|steps| - 1];
      CallStays(l, front);
      hide After, LocalWf, CanFill, FrontAcked, Recv, Fill, Release, Retransmit, DataSegment;
      NextKeeps(After(l, front), st);
    }
  }

  lemma NextKeeps(l: Local, st: LocalStep)
    requires LocalWf(l)
    ensures LocalWf(Next(l, st))
    ensures l.call.Some? && Keeps([st]) ==> Next(l, st).call.Some?
  {
    hide LocalWf, CanFill, FrontAcked, Recv, DataSegment, UpdateRtt, Wrap;
    assert [st][0] == st;
  }

  lemma CountingIs(l: Local, obs: Obs)
    ensures Silent(Counting(l, obs)) && Keeps(Counting(l, obs)) && Counting(l, obs) != []
  {
    hide Releases;
    ReleasesAre(l, obs.now);
  }

  lemma ResendsAre(l: Local, now: nat)
    requires LocalWf(l) && l.call.Some?
    ensures Silent(Resends(l, now))
    ensures After(l, Resends(l, now)).call.None? ==> Resends(l, now) != [] && Resends(l, now)[|Resends(l, now)| - 1] == Timeout(now)
  {
    hide After, LocalEnabled, LocalWf;
    var fast := IfEnabled(l, FastRetransmit(now));
    CallStays(l, fast);
    if IfEnabled(After(l, fast), Timeout(now)) == [] { assert Resends(l, now) == fast; }
  }

  lemma TailShape(l: Local, obs: Obs)
    requires LocalWf(l) && l.call.Some?
    ensures Deliveries(PassTail(l, obs)) == obs.queue
    ensures After(l, PassTail(l, obs)).call.None? ==>
              PassTail(l, obs) != [] && PassTail(l, obs)[|PassTail(l, obs)| - 1] == Timeout(obs.now)
  {
    hide After, Delivers, Counting, Resends, LocalWf, Deliveries, Keeps, Silent;
    var g := Delivers(obs.queue);
    var h := Counting(After(l, g), obs);
    var l2 := After(l, g + h);
    var k := Resends(l2, obs.now);
    CountingIs(After(l, g), obs);
    DeliverKinds(obs.queue);
    KeepsConcat(g, h);
    CallStays(l, g + h);
    ResendsAre(l2, obs.now);
    AfterConcat(l, g + h, k);
    QueueDelivers(obs.queue);
    SilentDelivers(h);
    SilentDelivers(k);
    DeliveriesConcat(g, h);
    DeliveriesConcat(g + h, k);
    assert obs.queue + [] + [] == obs.queue;
  }

  lemma KeepsConcat(a: seq<LocalStep>, b: seq<LocalStep>)
    requires Keeps(a) && Keeps(b)
    ensures Keeps(a + b)
  {
  }

  lemma DeliverKinds(queue: seq<Segment>)
    ensures Keeps(Delivers(queue))
  {
  }

  /** How a pass can end the call, and what it has taken from the queue by then. */
  predicate EndsBy(p: seq<LocalStep>, obs: Obs) {
    && p != []
    && var st := p[|p| - 1];
       if obs.ctrlC then st.Interrupted? && Deliveries(p) == []
       else (st == Timeout(obs.now) && Deliveries(p) == obs.queue)
            || ((st.FinishClosed? || st.FinishTrue?) && Deliveries(p) == [])
  }

  lemma PassShape(l: Local, obs: Obs)
    requires LocalWf(l) && l.call.Some?
    ensures var p := PassSteps(l, obs);
            if After(l, p).call.Some? then Deliveries(p) == obs.queue && !obs.ctrlC else EndsBy(p, obs)
  {
    hide After, Fills, PassTail, LocalWf;
    if obs.ctrlC {
      SilentDelivers([Interrupted]);
      LastStep(l, Interrupted);
    } else if l.sock.state.Closed? {
      SilentDelivers([FinishClosed]);
      LastStep(l, FinishClosed);
    } else {
      var f := Fills(l, obs.now);
      FillsAre(l, obs.now);
      SilentDelivers(f);
      CallStays(l, f);
      var mid := After(l, f);
      if LocalEnabled(mid, FinishTrue) {
        SilentDelivers([FinishTrue]);
        DeliveriesConcat(f, [FinishTrue]);
        LastStep(mid, FinishTrue);
        AfterConcat(l, f, [FinishTrue]);
      } else {
        hide LocalEnabled;
        TailShape(mid, obs);
        DeliveriesConcat(f, PassTail(mid, obs));
        AfterConcat(l, f, PassTail(mid, obs));
        assert [] + obs.queue == obs.queue;
      }
    }
  }

  function Queues(script: seq<Obs>): seq<Segment> { if script == [] then [] else script[0].queue + Queues(script[1..]) }

  /**
   A script is followed to its end unless the call ends before: `k` observations have been used up, their queues
   have been delivered in order, and the pass that ends the call belongs to the observation reached.
   */
  lemma {:induction false} ScriptShape(l: Local, script: seq<Obs>)
    returns (k: nat, front: seq<LocalStep>, p: seq<LocalStep>)
    requires LocalWf(l) && l.call.Some?
    ensures k <= |script| && (forall i :: 0 <= i < k ==> !script[i].ctrlC)
    ensures ScriptSteps(l, script) == front + p && Deliveries(front) == Queues(script[..k])
    ensures if After(l, ScriptSteps(l, script)).call.Some? then k == |script| && p == []
            else k < |script| && EndsBy(p, script[k])
    decreases |script|
  {
    hide PassSteps, After, LocalWf, EndsBy;
    if script == [] {
      k, front, p := 0, [], [];
      assert After(l, []) == l by { AfterNone(l); }
    } else {
      var q := PassSteps(l, script[0]);
      PassShape(l, script[0]);
      CallStays(l, q);
      var l1 := After(l, q);
      AfterConcat(l, q, ScriptSteps(l1, script[1..]));
      if l1.call.Some? {
        k, front, p := ScriptShape(l1, script[1..]);
        DeliveriesConcat(q, front);
        assert script[..k + 1][1..] == script[1..][..k] && script[..k + 1][0] == script[0];
        assert q + (front + p) == q + front + p;
        k, front := k + 1, q + front;
      } else {
        k, front, p := 0, [], q;
        assert ScriptSteps(l, script) == q + [] == q == [] + q;
      }
    }
  }

  lemma AfterNone(l: Local)
    ensures After(l, []) == l
  {
  }

  lemma NextPass(l: Local, script: seq<Obs>, steps: seq<LocalStep>)
    requires script != [] && l.call.Some?
    ensures var p := PassSteps(l, script[0]);
            steps + ScriptSteps(l, script) == steps + p + ScriptSteps(After(l, p), script[1..])
  {
    hide PassSteps, After;
    var p := PassSteps(l, script[0]);
    assert steps + (p + ScriptSteps(After(l, p), script[1..])) == steps + p + ScriptSteps(After(l, p), script[1..]);
  }

  lemma NoMorePasses(l: Local, script: seq<Obs>, steps: seq<LocalStep>)
    requires script == [] || l.call.None?
    ensures steps + ScriptSteps(l, script) == steps
  {
  }

  // ---------------------------------------------------------------- the object

  class TcpSocket {
    var state: TcpState
    var seqNo: u32
    var ackNo: u32
    const rxBuf: array<byte>
    var rxLen: nat
    var peerClosed: bool
    var peerAcked: u32
    var sndWnd: nat
    var peerMss: nat
    var rtt: Rtt
    var outbox: seq<Segment>   // segments handed to the driver

    ghost predicate Valid()
      reads this
    {
      rxBuf.Length == RX_BUF && rxLen <= RX_BUF && RttOk(rtt)
    }

    ghost function View(): Sock
      reads this, rxBuf
      requires Valid()
    {
      Sock(state, seqNo, ackNo, rxBuf[..rxLen], peerClosed, peerAcked, sndWnd, peerMss, rtt)
    }

    constructor (isn: u32)
      ensures Valid() && fresh(rxBuf) && outbox == []
      ensures View() == Sock(Closed, isn, 0, [], false, 0, 8192, 536, Rtt(0, 0, INIT_RTO))
    {
      state, seqNo, ackNo := Closed, isn, 0;
      rxBuf := new byte[RX_BUF];
      rxLen, peerClosed, peerAcked, sndWnd, peerMss := 0, false, 0, 8192, 536;
      rtt, outbox := Rtt(0, 0, INIT_RTO), [];
    }

    method SendPlain()
      requires Valid()
      modifies this`outbox
      ensures Valid() && View() == old(View())
      ensures outbox == old(outbox) + [Plain(View(), false)]
    {
      outbox := outbox + [Segment(seqNo, ackNo, false, false, false, true, RX_BUF - rxLen, 0, [])];
    }

    method StoreData(payload: seq<byte>)
      requires Valid()
      modifies this`rxLen, this`ackNo, rxBuf
      ensures Valid()
      ensures View() == var copy := Min(|payload|, RX_BUF - |old(View()).rx|);
                        old(View()).(rx := old(View()).rx + payload[..copy], ackNo := Wrap(old(ackNo) + copy))
    {
      var copy := Min(|payload|, RX_BUF - rxLen);
      forall i | 0 <= i < copy {
        rxBuf[rxLen + i] := payload[i];
      }
      assert rxBuf[..rxLen + copy] == old(rxBuf[..rxLen]) + payload[..copy];
      rxLen, ackNo := rxLen + copy, Wrap(ackNo + copy);
    }

    /** Established, FinWait1 and FinWait2: acknowledgement, data, then FIN. */
    method DispatchFlowing(g: Segment)
      requires Valid() && Flowing(state)
      modifies this, rxBuf
      ensures Valid()
      ensures View() == FlowingPart(old(View()), g).0
      ensures outbox == old(outbox) + FlowingPart(old(View()), g).1
    {
      hide Wrap, WrappingGe;
      if g.ack && WrappingGe(g.ackNo, peerAcked) {
        peerAcked := g.ackNo;
      }
      var sendAck := false;
      if g.payload != [] {
        if g.seqNo == ackNo {
          StoreData(g.payload);
        }
        sendAck := true;
      }
      if g.fin {
        if g.seqNo == ackNo {
          ackNo := Wrap(ackNo + 1);
          peerClosed := true;
          state := if state.Established? then CloseWait else Closed;
        }
        sendAck := true;
      }
      if sendAck {
        SendPlain();
      }
    }

    method DispatchSegment(g: Segment)
      requires Valid()
      modifies this, rxBuf
      ensures Valid()
      ensures View() == Dispatch(old(View()), g).0
      ensures outbox == old(outbox) + Dispatch(old(View()), g).1
    {
      if g.ack {
        sndWnd := g.window;
      }
      match state {
        case SynSent =>
          if g.syn && g.ack {
            ackNo := Wrap(g.seqNo + 1);
            seqNo, peerAcked, state := g.ackNo, g.ackNo, Established;
            SendPlain();
          }
        case SynReceived =>
          if g.ack && g.ackNo == seqNo {
            peerAcked, state := g.ackNo, Established;
            if g.payload != [] || g.fin {
              DispatchFlowing(g);
            }
          }
        case Established => DispatchFlowing(g);
        case FinWait1 => DispatchFlowing(g);
        case FinWait2 => DispatchFlowing(g);
        case CloseWait =>
          if g.ack && WrappingGe(g.ackNo, peerAcked) {
            peerAcked := g.ackNo;
          }
        case LastAck =>
          if g.ack {
            state := Closed;
          }
        case Closed =>
      }
    }

    /** Drain the connection's queue through the state machine. */
    method RecvOne(queue: seq<Segment>, ghost call: Option<SendCall>) returns (got: bool, ghost steps: seq<LocalStep>)
      requires Valid() && LocalWf(Local(View(), call))
      modifies this, rxBuf
      ensures Valid() && got == (queue != [])
      ensures |outbox| >= |old(outbox)| && outbox[..|old(outbox)|] == old(outbox)
      ensures LocalRun(Local(old(View()), call), steps, Local(View(), call), outbox[|old(outbox)|..])
      ensures steps == seq(|queue|, i requires 0 <= i < |queue| => Deliver(queue[i]))
    {
      hide LocalRun, Dispatch;
      got := false;
      steps := [];
      var i := 0;
      ghost var l0, n := Local(View(), call), |outbox|;
      assert outbox[n..] == [];
      RunNil(l0);
      while i < |queue|
        invariant 0 <= i <= |queue| && Valid() && got == (i > 0) && |steps| == i
        invariant |outbox| >= n && outbox[..n] == old(outbox)
        invariant LocalRun(l0, steps, Local(View(), call), outbox[n..])
        invariant forall k :: 0 <= k < i ==> steps[k] == Deliver(queue[k])
      {
        var g := queue[i];
        ghost var l, sent := Local(View(), call), outbox;
        RunSnoc(l0, steps, l, outbox[n..], Deliver(g));
        got := true;
        if g.rst {
          state, peerClosed := Closed, true;
        } else {
          if g.syn {
            peerMss := g.synMss;
          }
          DispatchSegment(g);
        }
        assert outbox == sent + Recv(l.sock, g).1;
        assert outbox[n..] == sent[n..] + Recv(l.sock, g).1;
        steps := steps + [Deliver(g)];
        i := i + 1;
      }
    }

    method FillWindow(c0: SendCall, now: nat) returns (c: SendCall, ghost steps: seq<LocalStep>)
      requires Valid() && CallWf(c0) && 0 < c0.mss
      modifies this`seqNo, this`outbox
      ensures Valid() && !CanFill(View(), c)
      ensures |outbox| >= |old(outbox)| && outbox[..|old(outbox)|] == old(outbox)
      ensures LocalRun(Local(old(View()), Some(c0)), steps, Local(View(), Some(c)), outbox[|old(outbox)|..])
      ensures c.mss == c0.mss && CallWf(c) && c.dupAcks == c0.dupAcks && c.data == c0.data
      ensures steps == Fills(Local(old(View()), Some(c0)), now)
    {
      hide LocalRun, Fills;
      c, steps := c0, [];
      ghost var l0, n := Local(View(), Some(c0)), |outbox|;
      assert outbox[n..] == [];
      RunNil(l0);
      while c.nextOff < |c.data| && |c.inflight| < SND_WND_SEGS
        invariant Valid() && CallWf(c) && c.mss == c0.mss && c.data == c0.data && c.dupAcks == c0.dupAcks
        invariant |outbox| >= n && outbox[..n] == old(outbox)
        invariant LocalRun(l0, steps, Local(View(), Some(c)), outbox[n..])
        invariant steps + Fills(Local(View(), Some(c)), now) == Fills(l0, now)
        decreases |c.data| - c.nextOff
      {
        var bytesOut := (seqNo - peerAcked) % M32;
        if c.inflight != [] && bytesOut + c.mss > sndWnd {
          break;
        }
        ghost var l, sent := Local(View(), Some(c)), outbox;
        assert CanFill(l.sock, c);
        RunSnoc(l0, steps, l, outbox[n..], FillOne(now));
        FillsStep(l, now, steps);
        steps := steps + [FillOne(now)];
        var len := Min(c.mss, |c.data| - c.nextOff);
        outbox := outbox + [Segment(seqNo, ackNo, false, false, false, true, RX_BUF - rxLen, 0,
                                    c.data[c.nextOff..c.nextOff + len])];
        c := c.(inflight := c.inflight + [InFlight(c.nextOff, len, seqNo, now, false)], nextOff := c.nextOff + len);
        seqNo := Wrap(seqNo + len);
        assert Local(View(), Some(c)) == Fill(l, now).0;
        assert outbox[n..] == sent[n..] + Fill(l, now).1;
      }
      FillsEnd(Local(View(), Some(c)), now);
      assert steps + [] == steps;
    }

    /** Shorten the window from the front while its oldest segment is acknowledged, then update the counters of the call. */
    method ReleaseAcked(c0: SendCall, got: bool, now: nat) returns (c: SendCall, ghost steps: seq<LocalStep>)
      requires Valid() && CallWf(c0) && c0.dupAcks < 3
      modifies this`rtt
      ensures Valid() && !FrontAcked(View(), c) && CallWf(c)
      ensures LocalRun(Local(old(View()), Some(c0)), steps, Local(View(), Some(c)), [])
      ensures c.mss == c0.mss && c.data == c0.data && (c.dupAcks >= 3 ==> c.inflight != [])
      ensures var h := Releases(Local(old(View()), Some(c0)), now); steps == h + [CountAcks(h != [], got)]
    {
      hide LocalRun, Releases;
      c, steps := c0, [];
      var progressed := false;
      ghost var l0 := Local(View(), Some(c0));
      RunNil(l0);
      while c.inflight != [] && WrappingGe(peerAcked, Wrap(c.inflight[0].seqNo + c.inflight[0].len))
        invariant Valid() && CallWf(c) && LocalRun(l0, steps, Local(View(), Some(c)), [])
        invariant c.mss == c0.mss && c.data == c0.data && c.dupAcks == c0.dupAcks && progressed == (steps != [])
        invariant steps + Releases(Local(View(), Some(c)), now) == Releases(l0, now)
        decreases |c.inflight|
      {
        ghost var l := Local(View(), Some(c));
        RunSnocSilent(l0, steps, l, [], ReleaseOne(now));
        ReleasesStep(l, now, steps);
        steps := steps + [ReleaseOne(now)];
        var front := c.inflight[0];
        if !front.resent {
          rtt := UpdateRtt(rtt, Min(Elapsed(now, front.sentTs), U32_MAX));
        }
        c := c.(inflight := c.inflight[1..]);
        progressed := true;
        assert LocalApply(l, ReleaseOne(now)) == (Local(View(), Some(c)), []);
      }
      ghost var l := Local(View(), Some(c));
      ReleasesEnd(l, now);
      assert steps + [] == steps;
      RunSnocSilent(l0, steps, l, [], CountAcks(progressed, got));
      steps := steps + [CountAcks(progressed, got)];
      if progressed {
        c := c.(oldestRetries := 0, dupAcks := 0, lastAckSeen := peerAcked);
      } else if got && peerAcked == c.lastAckSeen && c.inflight != [] {
        c := c.(dupAcks := c.dupAcks + 1);
      }
    }

    /** Fast retransmit and the retransmission timer; `live` is false when the call gave up. */
    method Retransmissions(c0: SendCall, now: nat)
      returns (c: SendCall, live: bool, ghost steps: seq<LocalStep>)
      requires Valid() && CallWf(c0) && (c0.dupAcks >= 3 ==> c0.inflight != [])
      modifies this`state, this`seqNo, this`rtt, this`outbox
      ensures Valid() && CallWf(c)
      ensures |outbox| >= |old(outbox)| && outbox[..|old(outbox)|] == old(outbox)
      ensures LocalRun(Local(old(View()), Some(c0)), steps,
                       Local(View(), if live then Some(c) else None), outbox[|old(outbox)|..])
      ensures c.mss == c0.mss && c.data == c0.data && c.dupAcks < 3
      ensures steps == Resends(Local(old(View()), Some(c0)), now)
    {
      hide LocalRun, After;
      c, steps, live := c0, [], true;
      ghost var l0, n := Local(View(), Some(c0)), |outbox|;
      assert outbox[n..] == [];
      RunNil(l0);
      if c.dupAcks >= 3 {
        RunSnoc(l0, steps, l0, [], FastRetransmit(now));
        steps := steps + [FastRetransmit(now)];
        var front := c.inflight[0];
        outbox := outbox + [Segment(front.seqNo, ackNo, false, false, false, true, RX_BUF - rxLen, 0,
                                    c.data[front.off..front.off + front.len])];
        c := c.(inflight := c.inflight[0 := front.(resent := true, sentTs := now)], dupAcks := 0);
        assert Local(View(), Some(c)) == LocalApply(l0, FastRetransmit(now)).0;
        assert outbox[n..] == [] + LocalApply(l0, FastRetransmit(now)).1;
      }
      ghost var l1, sent := Local(View(), Some(c)), outbox;
      assert LocalRun(l0, steps, l1, outbox[n..]);
      RunIsAfter(l0, steps, l1, outbox[n..]);
      assert steps == IfEnabled(l0, FastRetransmit(now));
      if c.inflight != [] && Elapsed(now, c.inflight[0].sentTs) >= rtt.rto {
        RunSnoc(l0, steps, l1, outbox[n..], Timeout(now));
        steps := steps + [Timeout(now)];
        if c.oldestRetries + 1 > MAX_RETRIES {
          state, seqNo, live := Closed, Wrap(c.baseSeq + c.nextOff), false;
        } else {
          var front := c.inflight[0];
          outbox := outbox + [Segment(front.seqNo, ackNo, false, false, false, true, RX_BUF - rxLen, 0,
                                      c.data[front.off..front.off + front.len])];
          c := c.(inflight := c.inflight[0 := front.(resent := true, sentTs := now)],
                  oldestRetries := c.oldestRetries + 1);
          rtt := rtt.(rto := Min(SatAdd(rtt.rto, rtt.rto), MAX_RTO));
        }
        assert Local(View(), if live then Some(c) else None) == Retransmit(l1, now).0;
        assert outbox[n..] == sent[n..] + Retransmit(l1, now).1;
      }
    }

    /**
     The sliding-window send loop, one element of `script` per pass. It takes exactly the
     steps the script calls for, and what it returns is read off the last of them.
     */
    method Send(data: seq<byte>, script: seq<Obs>)
      returns (r: SendResult, ghost steps: seq<LocalStep>, ghost call: Option<SendCall>)
      requires Valid()
      modifies this, rxBuf
      ensures Valid()
      ensures |outbox| >= |old(outbox)| && outbox[..|old(outbox)|] == old(outbox)
      ensures LocalRun(Local(old(View()), None), steps, Local(View(), call), outbox[|old(outbox)|..])
      ensures !old(state).Established? ==> r == Returned(false) && steps == []
      ensures old(state).Established? ==>
                steps == [Begin(data)] + ScriptSteps(Local(old(View()), Some(NewCall(old(View()), data))), script)
      ensures r == StillSending <==> call.Some?
      ensures r == Returned(true) <==> steps != [] && steps[|steps| - 1] == FinishTrue
    {
      hide LocalRun, ScriptSteps, PassSteps, After;
      steps, call := [], None;
      ghost var l0, n := Local(View(), None), |outbox|;
      assert outbox[n..] == [];
      RunNil(l0);
      if !state.Established? {
        return Returned(false), steps, call;
      }
      RunSnocSilent(l0, steps, l0, [], Begin(data));
      var c := SendCall(data, Clamp(peerMss, 536, MAX_SEG), seqNo, [], 0, peerAcked, 0, 0);
      assert [] + [Begin(data)] == [Begin(data)];
      steps, call := [Begin(data)], Some(c);
      ghost var all := [Begin(data)] + ScriptSteps(Local(View(), call), script);
      var i := 0;
      assert script[0..] == script;
      while i < |script|
        invariant 0 <= i <= |script| && Valid() && CallWf(c) && call == Some(c)
        invariant 0 < c.mss && c.dupAcks < 3 && c.data == data
        invariant |outbox| >= n && outbox[..n] == old(outbox)
        invariant LocalRun(l0, steps, Local(View(), call), outbox[n..])
        invariant steps != [] && !steps[|steps| - 1].FinishTrue?
        invariant steps + ScriptSteps(Local(View(), call), script[i..]) == all
      {
        ghost var before := Local(View(), call);
        assert script[i..][1..] == script[i + 1..];
        NextPass(before, script[i..], steps);
        var done;
        r, c, done, steps := OnePass(c, script[i], l0, steps, n);
        call := if done then None else Some(c);
        if done {
          NoMorePasses(Local(View(), call), script[i + 1..], steps);
          return r, steps, call;
        }
        i := i + 1;
      }
      NoMorePasses(Local(View(), call), [], steps);
      return StillSending, steps, call;
    }

    /** One pass of the loop, whole. */
    method OnePass(c0: SendCall, obs: Obs, ghost l0: Local, ghost steps0: seq<LocalStep>, ghost n: nat)
      returns (r: SendResult, c: SendCall, done: bool, ghost steps: seq<LocalStep>)
      requires Valid() && CallWf(c0) && 0 < c0.mss && c0.dupAcks < 3 && n <= |outbox|
      requires LocalRun(l0, steps0, Local(View(), Some(c0)), outbox[n..])
      modifies this, rxBuf
      ensures Valid() && CallWf(c) && 0 < c.mss && c.dupAcks < 3 && c.data == c0.data
      ensures |outbox| >= |old(outbox)| && outbox[..|old(outbox)|] == old(outbox)
      ensures LocalRun(l0, steps, Local(View(), if done then None else Some(c)), outbox[n..])
      ensures var l := Local(old(View()), Some(c0));
              steps == steps0 + PassSteps(l, obs) && Local(View(), if done then None else Some(c)) == After(l, PassSteps(l, obs))
      ensures done <==> r.Returned?
      ensures steps != [] && (r == Returned(true) <==> steps[|steps| - 1].FinishTrue?)
    {
      hide LocalRun, Fills, PassTail, After;
      c := c0;
      ghost var start := Local(View(), Some(c));
      if obs.ctrlC {
        steps := Ended(l0, steps0, c, outbox[n..], Interrupted);
        LastStep(start, Interrupted);
        return Returned(false), c, true, steps;
      }
      if state.Closed? {
        steps := Ended(l0, steps0, c, outbox[n..], FinishClosed);
        LastStep(start, FinishClosed);
        return Returned(false), c, true, steps;
      }
      ghost var out, f := outbox, [];
      c, f := FillWindow(c, obs.now);
      RunIsAfter(start, f, Local(View(), Some(c)), outbox[|out|..]);
      RunConcat(l0, steps0, start, out[n..], f, Local(View(), Some(c)), outbox[|out|..]);
      assert out[n..] + outbox[|out|..] == outbox[n..];
      steps := steps0 + f;
      ghost var mid := Local(View(), Some(c));
      if c.inflight == [] && c.nextOff >= |c.data| {
        steps := Ended(l0, steps, c, outbox[n..], FinishTrue);
        LastStep(mid, FinishTrue);
        AfterConcat(start, f, [FinishTrue]);
        assert steps0 + (f + [FinishTrue]) == steps0 + f + [FinishTrue];
        return Returned(true), c, true, steps;
      }
      var live;
      ghost var tail := PassTail(mid, obs);
      c, live, steps := Pass(c, obs, l0, steps, n);
      AfterConcat(start, f, tail);
      assert steps0 + (f + tail) == steps0 + f + tail;
      TailEnds(mid, obs);
      return if live then StillSending else Returned(false), c, !live, steps;
    }

    /** The last step of a call. */
    ghost method Ended(l0: Local, steps: seq<LocalStep>, c: SendCall, out: seq<Segment>, st: LocalStep)
      returns (steps': seq<LocalStep>)
      requires Valid() && LocalRun(l0, steps, Local(View(), Some(c)), out)
      requires st.Interrupted? || st.FinishClosed? || st.FinishTrue?
      requires LocalEnabled(Local(View(), Some(c)), st)
      ensures LocalRun(l0, steps', Local(View(), None), out) && steps' == steps + [st]
    {
      hide LocalRun;
      RunSnocSilent(l0, steps, Local(View(), Some(c)), out, st);
      steps' := steps + [st];
    }

    /** The rest of one pass: receive, release, retransmit. */
    method Pass(c0: SendCall, obs: Obs, ghost l0: Local, ghost steps0: seq<LocalStep>, ghost n: nat)
      returns (c: SendCall, live: bool, ghost steps: seq<LocalStep>)
      requires Valid() && CallWf(c0) && c0.dupAcks < 3 && n <= |outbox|
      requires LocalRun(l0, steps0, Local(View(), Some(c0)), outbox[n..])
      modifies this, rxBuf
      ensures Valid() && CallWf(c) && c.dupAcks < 3 && c.mss == c0.mss && c.data == c0.data
      ensures |outbox| >= |old(outbox)| && outbox[..|old(outbox)|] == old(outbox)
      ensures LocalRun(l0, steps, Local(View(), if live then Some(c) else None), outbox[n..])
      ensures steps == steps0 + PassTail(Local(old(View()), Some(c0)), obs)
      ensures Local(View(), if live then Some(c) else None) == After(Local(old(View()), Some(c0)), PassTail(Local(old(View()), Some(c0)), obs))
    {
      hide LocalRun, Releases, Resends, After;
      c, steps := c0, steps0;
      ghost var start := Local(View(), Some(c));
      ghost var l, out, g := start, outbox, [];
      var got;
      got, g := RecvOne(obs.queue, Some(c));
      RunIsAfter(start, g, Local(View(), Some(c)), outbox[|out|..]);
      RunConcat(l0, steps, l, out[n..], g, Local(View(), Some(c)), outbox[|out|..]);
      assert out[n..] + outbox[|out|..] == outbox[n..];
      steps := steps + g;

      ghost var h;
      l, out := Local(View(), Some(c)), outbox;
      c, h := ReleaseAcked(c, got, obs.now);
      RunIsAfter(l, h, Local(View(), Some(c)), []);
      AfterConcat(start, g, h);
      RunConcat(l0, steps, l, out[n..], h, Local(View(), Some(c)), []);
      assert out[n..] + [] == outbox[n..];
      steps := steps + h;

      ghost var k;
      l, out := Local(View(), Some(c)), outbox;
      c, live, k := Retransmissions(c, obs.now);
      RunIsAfter(l, k, Local(View(), if live then Some(c) else None), outbox[|out|..]);
      AfterConcat(start, g + h, k);
      RunConcat(l0, steps, l, out[n..], k, Local(View(), if live then Some(c) else None), outbox[|out|..]);
      assert out[n..] + outbox[|out|..] == outbox[n..];
      steps := steps + k;
      assert PassTail(start, obs) == g + h + k;
      assert steps0 + g + h + k == steps0 + (g + h + k);
    }
  }
}
