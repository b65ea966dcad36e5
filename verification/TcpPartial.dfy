/**
 A receive buffer with too little room takes the front of a segment and drops the
 rest. The sender never cuts its stream a second time, so no later segment starts
 where the receiver then stands.
 */
module TcpPartial {
  import opened SeqArith
  import opened TcpModel
  import opened TcpSystem

  /** Start and length of every stretch of the stream of `e` that is on the wire or may be sent again. */
  ghost function Pieces(e: Endpoint, netE: set<Stamped>): set<(int, int)> {
    (set q | q in netE && q.seg.payload != [] :: (q.seqPos, |q.seg.payload|))
    + (if e.local.call.None? then {}
       else set w | w in e.local.call.value.inflight :: (Base(e) + w.off, w.len))
  }

  /** No piece starts strictly inside another. */
  ghost predicate Cuts(e: Endpoint, netE: set<Stamped>) {
    forall a, b :: a in Pieces(e, netE) && b in Pieces(e, netE) ==> !(a.0 < b.0 < a.0 + a.1)
  }

  /** The receiver stands inside the stream where no piece starts. */
  ghost predicate Stuck(e: Endpoint, f: Endpoint, netE: set<Stamped>) {
    && |Got(f)| < |e.sent| && !f.gotFin
    && forall a :: a in Pieces(e, netE) ==> a.0 != RecvPos(e, f)
  }

  lemma PacketWithin(q: Stamped, e: Endpoint, f: Endpoint)
    requires PktOk(q, e, f) && q.seg.payload != []
    ensures q.seqPos + |q.seg.payload| <= e.isn + 1 + |e.sent|
  {
    hide Wrap;
  }

  lemma InFlightWithin(e: Endpoint, f: Endpoint, w: InFlight)
    requires SideInv(false, e, f) && e.local.call.Some? && w in e.local.call.value.inflight
    ensures 0 < w.len && Base(e) + w.off + w.len <= e.isn + 1 + |e.sent|
  {
    assert !e.listening by { hide Wrap, CallInv; }
    hide SideInv, Wrap;
    CallFacts(false, e, f);
    var c := e.local.call.value;
    var i :| 0 <= i < |c.inflight| && w == c.inflight[i];
    WindowSpan(Base(e), c.inflight, c.nextOff, i);
  }

  /** Every piece lies within what has been sent. */
  lemma PiecesWithin(e: Endpoint, f: Endpoint, netE: set<Stamped>)
    requires SideInv(false, e, f) && forall p :: p in netE ==> PktOk(p, e, f)
    ensures forall a :: a in Pieces(e, netE) ==> 0 < a.1 && a.0 + a.1 <= e.isn + 1 + |e.sent|
  {
    hide SideInv, PktOk, Base;
    forall a | a in Pieces(e, netE)
      ensures 0 < a.1 && a.0 + a.1 <= e.isn + 1 + |e.sent|
    {
      if q :| q in netE && q.seg.payload != [] && a == (q.seqPos, |q.seg.payload|) {
        PacketWithin(q, e, f);
      } else {
        var w :| w in e.local.call.value.inflight && a == (Base(e) + w.off, w.len);
        InFlightWithin(e, f, w);
      }
    }
  }

  /** The one piece a step can add starts at the end of the stream. */
  function NewPiece(e: Endpoint, e': Endpoint): (int, int) {
    (e.isn + 1 + |e.sent|, |e'.sent| - |e.sent|)
  }

  /** A segment with data is the new piece or repeats one of the window. */
  lemma OutPiece(e: Endpoint, f: Endpoint, netE: set<Stamped>, a: LocalStep, q: Stamped)
    requires SideInv(false, e, f) && LocalEnabled(e.local, a) && !a.Deliver? && !e.listening
    requires q in Act1(e, f, a).1 && q.seg.payload != []
    ensures (q.seqPos, |q.seg.payload|) in Pieces(e, netE) + {NewPiece(e, Act1(e, f, a).0)}
  {
    hide Wrap, WrappingGe, CallInv, UpdateRtt;
    CallFacts(false, e, f);
    if !a.FillOne? {
      var c := e.local.call.value;
      assert c.inflight[0] in c.inflight;
    }
  }

  lemma WindowPiece(e: Endpoint, f: Endpoint, netE: set<Stamped>, a: LocalStep, w: InFlight)
    requires SideInv(false, e, f) && LocalEnabled(e.local, a) && !a.Deliver? && !e.listening
    requires var l := Act1(e, f, a).0.local; l.call.Some? && w in l.call.value.inflight
    ensures var e' := Act1(e, f, a).0; (Base(e') + w.off, w.len) in Pieces(e, netE) + {NewPiece(e, e')}
  {
    hide SideInv, LocalApply, LocalEnabled, Wrap, CallInv;
    OldInFlight(e.local, a, w);
    CallFacts(false, e, f);
    if a.FillOne? {
      FillShape(e.local, a.fillNow);
    } else {
      NotBegin(e.local, a, w);
    }
  }

  lemma FillShape(l: Local, now: nat)
    requires LocalEnabled(l, FillOne(now))
    ensures var out := LocalApply(l, FillOne(now)).1;
            |out| == 1 && |out[0].payload| == NextInFlight(l.sock, l.call.value, now).len
  {
  }

  lemma NotBegin(l: Local, a: LocalStep, w: InFlight)
    requires LocalEnabled(l, a) && !a.Deliver?
    requires LocalApply(l, a).0.call.Some? && w in LocalApply(l, a).0.call.value.inflight
    ensures !a.Begin?
  {
  }

  lemma ActPieces(e: Endpoint, f: Endpoint, netE: set<Stamped>, a: LocalStep)
    requires SideInv(false, e, f) && LocalEnabled(e.local, a) && !a.Deliver? && !e.listening
    ensures var (e', out) := Act1(e, f, a); Pieces(e', netE + out) <= Pieces(e, netE) + {NewPiece(e, e')}
  {
    hide SideInv, Act1, LocalEnabled, Base;
    var (e', out) := Act1(e, f, a);
    forall x | x in Pieces(e', netE + out)
      ensures x in Pieces(e, netE) + {NewPiece(e, e')}
    {
      if q :| q in netE + out && q.seg.payload != [] && x == (q.seqPos, |q.seg.payload|) {
        if q in out {
          OutPiece(e, f, netE, a, q);
        }
      } else {
        var w :| w in e'.local.call.value.inflight && x == (Base(e') + w.off, w.len);
        WindowPiece(e, f, netE, a, w);
      }
    }
  }

  /** An entry of the window after a step was there before it, unless the step put it there. */
  lemma OldInFlight(l: Local, a: LocalStep, w: InFlight)
    requires LocalEnabled(l, a) && !a.Deliver?
    requires LocalApply(l, a).0.call.Some? && w in LocalApply(l, a).0.call.value.inflight
    ensures l.call.Some?
    ensures (a.FillOne? && w == NextInFlight(l.sock, l.call.value, a.fillNow))
            || exists v :: v in l.call.value.inflight && v.off == w.off && v.len == w.len
  {
    hide Wrap, WrappingGe, UpdateRtt;
  }

  /** Whatever `e` does, the only piece it can add is one at the end of its stream. */
  lemma StepPieces(e: Endpoint, f: Endpoint, netE: set<Stamped>, netF: set<Stamped>, st: Step)
    requires Inv(false, e, f, netE, netF) && Enabled(false, e, f, netF, st)
    ensures var (e', out) := Apply(e, f, netF, st); Pieces(e', netE + out) <= Pieces(e, netE) + {NewPiece(e, e')}
  {
    hide SideInv, PktOk, LocalEnabled, Act1, Receive1, Accept1, Fresh, Base;
    var (e', out) := Apply(e, f, netF, st);
    match st {
      case Act(a) => ActPieces(e, f, netE, a);
      case Receive(p) =>
        ReceiveFrame(e, f, p);
        AckedWithinSent(false, e, f);
        NoData(e, f, p);
        SamePieces(e, e', netE, out);
      case Reset(g) => SamePieces(e, e', netE, out);
      case Accept(p) =>
        AcceptNoData(e, f, p);
        SamePieces(e, e', netE, out);
    }
  }

  lemma SamePieces(e: Endpoint, e': Endpoint, netE: set<Stamped>, out: set<Stamped>)
    requires e'.local.call.None? || (e'.local.call == e.local.call && e'.isn == e.isn && e'.callAt == e.callAt)
    requires forall q :: q in out ==> q.seg.payload == []
    ensures Pieces(e', netE + out) <= Pieces(e, netE)
  {
    assert Base(e') == Base(e) || e'.local.call.None?;
  }

  lemma NoData(e: Endpoint, f: Endpoint, p: Stamped)
    requires SideInv(false, e, f) && PktOk(p, f, e) && Fresh(false, e, f, p) && !e.listening
    requires RecvPos(e, f) <= SendPos(e)
    ensures LocalWf(e.local)
    ensures forall q :: q in Receive1(e, f, p).1 ==> q.seg.payload == []
  {
    hide SideInv, PktOk, Fresh, Settled, Wrap, WrappingGe, Recv;
    ReceiveIsSettled(false, e, f, p);
  }

  lemma AcceptNoData(e: Endpoint, f: Endpoint, p: Stamped)
    ensures var (e', out) := Accept1(e, f, p); e'.local.call.None? && forall q :: q in out ==> q.seg.payload == []
  {
    hide Wrap;
  }

  // ---------------------------------------------------------------- the sender

  lemma CutsStep(e: Endpoint, f: Endpoint, netE: set<Stamped>, netF: set<Stamped>, st: Step)
    requires Inv(false, e, f, netE, netF) && Enabled(false, e, f, netF, st) && Cuts(e, netE)
    ensures var (e', out) := Apply(e, f, netF, st); Cuts(e', netE + out)
  {
    hide SideInv, PktOk, Enabled, Apply, Pieces;
    PiecesWithin(e, f, netE);
    StepPieces(e, f, netE, netF, st);
  }

  lemma SenderKeepsStuck(e: Endpoint, f: Endpoint, netE: set<Stamped>, netF: set<Stamped>, st: Step)
    requires Inv(false, e, f, netE, netF) && Enabled(false, e, f, netF, st) && Stuck(e, f, netE)
    ensures var (e', out) := Apply(e, f, netF, st); Stuck(e', f, netE + out) && RecvPos(e', f) == RecvPos(e, f)
  {
    hide SideInv, PktOk, Enabled, Apply, Pieces;
    StepPieces(e, f, netE, netF, st);
    StepKeeps(false, e, f, netE, netF, st);
    assert RecvPos(e, f) < NewPiece(e, e).0;
  }

  // ---------------------------------------------------------------- the receiver

  /** The receiver moves only for bytes or a FIN that start exactly where it stands. */
  lemma Advances(e: Endpoint, f: Endpoint, p: Stamped)
    requires SideInv(false, f, e) && PktOk(p, e, f) && Fresh(false, f, e, p) && !f.listening
    ensures LocalWf(f.local)
    ensures var f' := Receive1(f, e, p).0;
            && (|Got(f')| == |Got(f)| || (p.seg.payload != [] && p.seqPos == RecvPos(e, f)))
            && (f'.gotFin == f.gotFin || (p.seg.fin && p.seqPos == RecvPos(e, f)))
  {
    hide Wrap, WrappingGe, CallInv;
    SideInvWf(false, f, e);
    WrapInjective(p.seqPos, RecvPos(e, f));
    FactsForReceive(false, f, e, p);
  }

  lemma ActKeepsRx(l: Local, a: LocalStep)
    requires LocalEnabled(l, a) && !a.Deliver?
    ensures LocalApply(l, a).0.sock.rx == if a.Drain? then l.sock.rx[a.n..] else l.sock.rx
  {
    hide Wrap, WrappingGe, UpdateRtt, DataSegment, CanFill, MarkResent, NewCall;
  }

  lemma ActKeepsGot(f: Endpoint, e: Endpoint, a: LocalStep)
    requires LocalEnabled(f.local, a) && !a.Deliver?
    ensures var f' := Act1(f, e, a).0; Got(f') == Got(f) && f'.gotFin == f.gotFin
  {
    hide LocalApply, OutPos, Stamp;
    ActKeepsRx(f.local, a);
    if a.Drain? {
      assert f.local.sock.rx == f.local.sock.rx[..a.n] + f.local.sock.rx[a.n..];
    }
  }

  lemma StuckReceives(e: Endpoint, f: Endpoint, netE: set<Stamped>, p: Stamped)
    requires SideInv(false, f, e) && PktOk(p, e, f) && Fresh(false, f, e, p) && !f.listening
    requires p in netE && Stuck(e, f, netE)
    ensures LocalWf(f.local)
    ensures var f' := Receive1(f, e, p).0; |Got(f')| == |Got(f)| && f'.gotFin == f.gotFin
  {
    hide SideInv, Wrap, Fresh, Receive1;
    Advances(e, f, p);
    if p.seg.payload != [] {
      assert (p.seqPos, |p.seg.payload|) in Pieces(e, netE);
    }
  }

  lemma ReceiverKeepsStuck(e: Endpoint, f: Endpoint, netE: set<Stamped>, netF: set<Stamped>, st: Step)
    requires Inv(false, f, e, netF, netE) && Enabled(false, f, e, netE, st) && Stuck(e, f, netE)
    ensures var f' := Apply(f, e, netE, st).0; Stuck(e, f', netE) && Got(f') == Got(f)
  {
    StepKeeps(false, f, e, netF, netE, st);
    hide SideInv, PktOk, Fresh, LocalEnabled, Act1, Receive1, Pieces;
    var f' := Apply(f, e, netE, st).0;
    match st {
      case Act(a) => ActKeepsGot(f, e, a);
      case Receive(p) => StuckReceives(e, f, netE, p);
      case Reset(g) =>
      case Accept(p) => NothingYet(f, e);
    }
    assert |Got(f')| == |Got(f)| && f'.gotFin == f.gotFin;
    assert RecvPos(e, f') == RecvPos(e, f);
  }

  lemma NothingYet(f: Endpoint, e: Endpoint)
    requires SideInv(false, f, e) && f.listening
    ensures Got(f) == []
  {
    hide Wrap, CallInv;
  }

  /** The buffer had room for some of the bytes of `p` and not for all. */
  predicate PartlyTaken(f: Endpoint, f': Endpoint, p: Stamped) {
    0 < |Got(f')| - |Got(f)| < |p.seg.payload|
  }

  lemma BecomesStuck(e: Endpoint, f: Endpoint, netE: set<Stamped>, netF: set<Stamped>, p: Stamped)
    requires Inv(false, f, e, netF, netE) && Enabled(false, f, e, netE, Receive(p)) && Cuts(e, netE)
    requires PartlyTaken(f, Receive1(f, e, p).0, p)
    ensures Stuck(e, Receive1(f, e, p).0, netE)
  {
    StepKeeps(false, f, e, netF, netE, Receive(p));
    var f' := Receive1(f, e, p).0;
    hide Fresh, Receive1, Wrap, LocalWf, CallInv;
    Advances(e, f, p);
    PacketWithin(p, e, f);
    assert (p.seqPos, |p.seg.payload|) in Pieces(e, netE);
    hide Pieces;
    assert !f'.gotFin;
  }

  // ---------------------------------------------------------------- whole runs

  function Other(who: Side): Side { if who.Client? then Server else Client }

  /** What `who` has put on the wire. */
  function Net(y: Sys, who: Side): set<Stamped> { if who.Client? then y.fromClient else y.fromServer }

  ghost predicate CutsOf(y: Sys, who: Side) { Cuts(Mine(y, who), Net(y, who)) }
  ghost predicate StuckAt(y: Sys, who: Side) { Stuck(Mine(y, who), Peer(y, who), Net(y, who)) }

  lemma SysCutsStep(y: Sys, l: Label, who: Side)
    requires SysInv(false, y) && SysEnabled(false, y, l) && CutsOf(y, who)
    ensures CutsOf(SysApply(y, l), who)
  {
    hide SideInv, PktOk, Enabled, Apply, Cuts;
    if l.who == who {
      CutsStep(Mine(y, who), Peer(y, who), Net(y, who), Net(y, Other(who)), l.step);
    }
  }

  lemma SysStuckStep(y: Sys, l: Label, who: Side)
    requires SysInv(false, y) && SysEnabled(false, y, l) && StuckAt(y, who)
    ensures StuckAt(SysApply(y, l), who) && Got(Peer(SysApply(y, l), who)) == Got(Peer(y, who))
  {
    hide SideInv, PktOk, Enabled, Apply, Stuck;
    if l.who == who {
      SenderKeepsStuck(Mine(y, who), Peer(y, who), Net(y, who), Net(y, Other(who)), l.step);
    } else {
      ReceiverKeepsStuck(Mine(y, who), Peer(y, who), Net(y, who), Net(y, Other(who)), l.step);
    }
  }

  /** Over a whole run the sender cuts each stretch of its stream in one way only. */
  lemma {:induction false} RunCuts(tr: seq<Sys>, labels: seq<Label>, i: nat, who: Side)
    requires IsRun(false, tr, labels) && i < |tr|
    ensures CutsOf(tr[i], who)
  {
    if i > 0 {
      hide CutsOf, SysEnabled, SysApply;
      RunCuts(tr, labels, i - 1, who);
      RunInv(false, tr, labels, i - 1);
      SysCutsStep(tr[i - 1], labels[i - 1], who);
    }
  }

  lemma {:induction false} RunStuck(tr: seq<Sys>, labels: seq<Label>, k: nat, j: nat, who: Side)
    requires IsRun(false, tr, labels) && k <= j < |tr| && StuckAt(tr[k], who)
    ensures StuckAt(tr[j], who) && Got(Peer(tr[j], who)) == Got(Peer(tr[k], who))
  {
    hide StuckAt, SysEnabled, SysApply, Got;
    if k < j {
      RunStuck(tr, labels, k, j - 1, who);
      RunInv(false, tr, labels, j - 1);
      SysStuckStep(tr[j - 1], labels[j - 1], who);
    }
  }

  /** Step `k` delivers a segment of `who` that the other side takes only in part. */
  predicate PartAt(tr: seq<Sys>, labels: seq<Label>, k: nat, who: Side)
    requires |tr| == |labels| + 1 && k < |labels|
  {
    && labels[k].who == Other(who) && labels[k].step.Receive?
    && PartlyTaken(Peer(tr[k], who), Peer(tr[k + 1], who), labels[k].step.pkt)
  }

  /** A segment accepted in part is the last one ever accepted: the rest of its bytes never arrives. */
  lemma PartIsTheEnd(tr: seq<Sys>, labels: seq<Label>, k: nat, j: nat, who: Side)
    requires IsRun(false, tr, labels) && k < |labels| && k < j < |tr| && PartAt(tr, labels, k, who)
    ensures StuckAt(tr[j], who) && Got(Peer(tr[j], who)) == Got(Peer(tr[k + 1], who))
  {
    RunInv(false, tr, labels, k);
    RunCuts(tr, labels, k, who);
    assert SysEnabled(false, tr[k], labels[k]) && tr[k + 1] == SysApply(tr[k], labels[k]);
    SysBecomesStuck(tr[k], labels[k], who);
    hide StuckAt, SysEnabled, SysApply, Got, PartAt;
    RunStuck(tr, labels, k + 1, j, who);
  }

  lemma SysBecomesStuck(y: Sys, l: Label, who: Side)
    requires SysInv(false, y) && SysEnabled(false, y, l) && CutsOf(y, who)
    requires l.who == Other(who) && l.step.Receive?
    requires PartlyTaken(Peer(y, who), Peer(SysApply(y, l), who), l.step.pkt)
    ensures StuckAt(SysApply(y, l), who)
  {
    hide SideInv, PktOk, Cuts, Stuck, Receive1, Fresh;
    BecomesStuck(Mine(y, who), Peer(y, who), Net(y, who), Net(y, Other(who)), l.step.pkt);
  }

  lemma StrictRunIsRun(tr: seq<Sys>, labels: seq<Label>)
    requires IsRun(true, tr, labels)
    ensures IsRun(false, tr, labels)
  {
    hide SysApply, Init;
    forall i | 0 <= i < |labels|
      ensures SysEnabled(false, tr[i], labels[i])
    {
      assert SysEnabled(true, tr[i], labels[i]);
    }
  }

  /** After it, neither that call of `send` nor any later one with data can return true. */
  lemma PartNeverReportsTrue(tr: seq<Sys>, labels: seq<Label>, k: nat, j: nat, who: Side)
    requires IsRun(true, tr, labels) && k < j < |labels| && PartAt(tr, labels, k, who)
    requires labels[j] == Label(who, Act(FinishTrue))
    ensures var call := Mine(tr[j], who).local.call; call.Some? && call.value.data == []
  {
    StrictRunIsRun(tr, labels);
    PartIsTheEnd(tr, labels, k, j, who);
    TrueMeansAccepted(tr, labels, j, who);
    RunInv(false, tr, labels, j);
    assert SysEnabled(false, tr[j], labels[j]);
    var e, f := Mine(tr[j], who), Peer(tr[j], who);
    hide IsRun, SysEnabled, SideInv, Pieces, PartAt;
    CallFacts(false, e, f);
  }
}
