/**
 Where the guarantees of TcpSystem end: the exact distance at which the window
 mistakes a segment for an acknowledged one, a run that gets there, and what a
 segment accepted only in part does to the rest of the connection.
 */
module TcpLimits {
  import opened Common
  import opened SeqArith
  import opened TcpModel
  import opened TcpSystem
  import opened TcpPartial

  /** A segment from one whole number space ago is taken for the next one. */
  lemma StaleSegmentAccepted(s: Sock, g: Segment, pos: int)
    requires Flowing(s.state) && |s.rx| < RX_BUF && s.ackNo == Wrap(pos + M32)
    requires g.seqNo == Wrap(pos) && g.payload != [] && !g.rst && !g.fin
    ensures var copy := Min(|g.payload|, RX_BUF - |s.rx|);
            copy > 0 && Recv(s, g).0.rx == s.rx + g.payload[..copy]
  {
    WrapDistance(pos + M32, pos);
    hide WrappingGe;
  }

  /**
   The test for an acknowledged front segment gives the right answer exactly while
   the segment ends no more than 2^31 past the last acknowledgement.
   */
  lemma FrontAckedIff(s: Sock, c: SendCall, base: int, acked: int)
    requires c.inflight != [] && s.peerAcked == Wrap(acked)
    requires c.inflight[0].seqNo == Wrap(base + c.inflight[0].off)
    requires var end := base + c.inflight[0].off + c.inflight[0].len; -M31 < end - acked <= M32
    ensures var end := base + c.inflight[0].off + c.inflight[0].len;
            (FrontAcked(s, c) <==> end <= acked) <==> end - acked <= M31
  {
    hide Wrap, WrappingGe;
    var end := base + c.inflight[0].off + c.inflight[0].len;
    WrapAdd(base + c.inflight[0].off, c.inflight[0].len);
    if end - acked <= M31 {
      WrappingGeExact(acked, end);
    } else {
      WrappingGeWrong(acked, end);
    }
  }

  // ---------------------------------------------------------------- building runs

  lemma SysStrictIsLoose(strict: bool, y: Sys, l: Label)
    requires SysEnabled(strict, y, l)
    ensures SysEnabled(false, y, l)
  {
  }

  lemma Extend(strict: bool, tr: seq<Sys>, labels: seq<Label>, l: Label) returns (tr': seq<Sys>, labels': seq<Label>)
    requires IsRun(strict, tr, labels) && SysEnabled(strict, tr[|labels|], l)
    ensures SysEnabled(false, tr[|labels|], l)
    ensures IsRun(strict, tr', labels') && |tr'| == |labels'| + 1
    ensures labels' == labels + [l] && tr' == tr + [tr'[|labels'|]]
    ensures tr'[|labels|] == tr[|labels|] && tr'[|labels'|] == SysApply(tr[|labels|], l)
  {
    hide SysEnabled, SysApply, Init;
    SysStrictIsLoose(strict, tr[|labels|], l);
    tr', labels' := tr + [SysApply(tr[|labels|], l)], labels + [l];
    assert tr'[0] == tr[0];
    forall i | 0 <= i < |labels'|
      ensures SysEnabled(strict, tr'[i], labels'[i]) && SysEnabled(false, tr'[i], labels'[i])
      ensures tr'[i + 1] == SysApply(tr'[i], labels'[i])
    {
      if i < |labels| {
        assert tr'[i] == tr[i] && tr'[i + 1] == tr[i + 1] && labels'[i] == labels[i];
      }
      SysStrictIsLoose(strict, tr'[i], labels'[i]);
    }
  }

  function Zeros(len: nat): (z: seq<byte>)
    ensures |z| == len
  {
    seq(len, i => 0)
  }

  /** After interrupted calls of one segment each, `at` bytes in all; nothing heard since the handshake. */
  predicate ClientAt(e: Endpoint, at: nat) {
    && e.isn == 0 && !e.listening && !e.finned && |e.sent| == at && e.peerAckedPos == 1
    && e.drained == [] && !e.gotFin && e.local.call == None
    && e.local.sock == Sock(Established, Wrap(1 + at), 1, [], false, 1, RX_BUF, 1460, Rtt(0, 0, INIT_RTO))
  }

  /** After accepting `at` bytes, the last `held` of which are still in the buffer. */
  predicate ServerAt(f: Endpoint, at: nat, held: nat) {
    && f.isn == 0 && !f.listening && f.up && !f.gotFin && f.peerAckedPos == 1 && |Got(f)| == at
    && var s := f.local.sock;
       (|s.rx| == held <= RX_BUF && s.ackNo == Wrap(1 + at) && s.seqNo == 1 && RttOk(s.rtt)
        && (s.state.SynReceived? || s.state.Established?) && f.local.call == None)
  }

  /** The segment of a call of `len` bytes that starts behind `at` others. */
  function Sent(at: nat, len: nat): Stamped {
    Stamped(Segment(Wrap(1 + at), 1, false, false, false, true, RX_BUF, 0, Zeros(len)), 1 + at, 1)
  }

  lemma Handshake(strict: bool) returns (tr: seq<Sys>, labels: seq<Label>)
    ensures IsRun(strict, tr, labels)
    ensures ClientAt(tr[|labels|].client, 0) && ServerAt(tr[|labels|].server, 0, 0)
  {
    tr, labels := [Init(0, 0)], [];
    var syn :| tr[0].fromClient == {syn};
    tr, labels := Extend(strict, tr, labels, Label(Server, Accept(syn)));
    var synAck :| tr[1].fromServer == {synAck};
    tr, labels := Extend(strict, tr, labels, Label(Client, Receive(synAck)));
  }

  function ByClient(a: LocalStep): Label { Label(Client, Act(a)) }

  /** Entering `send` and putting its one segment on the wire. */
  lemma BeginFill(strict: bool, y: Sys, at: nat, len: nat)
    requires ClientAt(y.client, at) && y.server.isn == 0 && 0 < len <= MAX_SEG
    ensures SysEnabled(strict, y, ByClient(Begin(Zeros(len))))
    ensures var y1 := SysApply(y, ByClient(Begin(Zeros(len))));
            && SysEnabled(strict, y1, ByClient(FillOne(0)))
            && var y2 := SysApply(y1, ByClient(FillOne(0)));
               && y2.fromClient == y.fromClient + {Sent(at, len)} && y2.server == y.server
               && y2.client.local.call.Some? && LocalWf(y2.client.local)
               && var c := y2.client.local.call.value;
                  && c.data == Zeros(len) && c.nextOff == len && c.inflight == [InFlight(0, len, Wrap(1 + at), 0, false)]
                  && ClientAt(y2.client.(local := y2.client.local.(call := None)), at + len)
  {
    hide Wrap;
    WrapAdd(1 + at, len);
    var y1 := SysApply(y, ByClient(Begin(Zeros(len))));
    assert y1.fromClient == y.fromClient;
    var y2 := SysApply(y1, ByClient(FillOne(0)));
    assert Zeros(len)[0..len] == Zeros(len);
    assert y2.client.sent == y.client.sent + Zeros(len);
  }

  /** One call, interrupted as soon as its segment is on the wire. */
  lemma Round(strict: bool, tr: seq<Sys>, labels: seq<Label>, at: nat, len: nat)
    returns (tr': seq<Sys>, labels': seq<Label>)
    requires IsRun(strict, tr, labels) && ClientAt(tr[|labels|].client, at) && tr[|labels|].server.isn == 0
    requires 0 < len <= MAX_SEG
    ensures IsRun(strict, tr', labels') && |tr'| == |labels'| + 1 && ClientAt(tr'[|labels'|].client, at + len)
    ensures tr'[|labels'|].fromClient == tr[|labels|].fromClient + {Sent(at, len)}
    ensures tr'[|labels'|].server == tr[|labels|].server
  {
    BeginFill(strict, tr[|labels|], at, len);
    hide IsRun, SysEnabled, SysApply, Sent;
    tr', labels' := Extend(strict, tr, labels, ByClient(Begin(Zeros(len))));
    tr', labels' := Extend(strict, tr', labels', ByClient(FillOne(0)));
    Abandon(strict, tr'[|labels'|]);
    tr', labels' := Extend(strict, tr', labels', ByClient(Interrupted));
  }

  /** What the interrupt key leaves behind. */
  lemma Abandon(strict: bool, y: Sys)
    requires y.client.local.call.Some? && LocalWf(y.client.local) && !y.client.listening
    ensures SysEnabled(strict, y, ByClient(Interrupted))
    ensures SysApply(y, ByClient(Interrupted)) == y.(client := y.client.(local := y.client.local.(call := None)))
  {
    var e := y.client;
    assert Act1(e, y.server, Interrupted).1 == {};
    assert y.fromClient + {} == y.fromClient;
  }

  /** Any number of calls can be interrupted in a row while the server takes nothing. */
  lemma {:induction false} Interrupting(n: nat) returns (tr: seq<Sys>, labels: seq<Label>)
    ensures IsRun(false, tr, labels)
    ensures ClientAt(tr[|labels|].client, n * MAX_SEG) && ServerAt(tr[|labels|].server, 0, 0)
  {
    hide IsRun, ClientAt, Sent;
    if n == 0 {
      tr, labels := Handshake(false);
    } else {
      tr, labels := Interrupting(n - 1);
      tr, labels := Round(false, tr, labels, (n - 1) * MAX_SEG, MAX_SEG);
    }
  }

  /**
   A run in which `send` returns true although the peer has accepted nothing at all:
   interrupted calls leave 2^31 bytes unacknowledged, and the next call takes its own
   segment for acknowledged the moment it is sent.
   */
  lemma InterruptedSendsBreakSend() returns (tr: seq<Sys>, labels: seq<Label>)
    ensures IsRun(false, tr, labels) && labels != []
    ensures labels[|labels| - 1] == Label(Client, Act(FinishTrue))
    ensures var y := tr[|labels| - 1];
            y.client.local.call.Some? && y.client.local.call.value.data == Zeros(MAX_SEG) && Got(y.server) == []
  {
    var n := 1533917;
    var at := n * MAX_SEG;
    tr, labels := Interrupting(n);
    BeginFill(false, tr[|labels|], at, MAX_SEG);
    var y := SysApply(SysApply(tr[|labels|], ByClient(Begin(Zeros(MAX_SEG)))), ByClient(FillOne(0)));
    FrontAckedIff(y.client.local.sock, y.client.local.call.value, 1 + at, 1);
    Released(y);
    hide IsRun, SysEnabled, SysApply, ClientAt, Sent;
    tr, labels := Extend(false, tr, labels, ByClient(Begin(Zeros(MAX_SEG))));
    tr, labels := Extend(false, tr, labels, ByClient(FillOne(0)));
    tr, labels := Extend(false, tr, labels, ByClient(ReleaseOne(0)));
    tr, labels := Extend(false, tr, labels, ByClient(FinishTrue));
  }

  /** Releasing the only segment of a call lets it finish. */
  lemma Released(y: Sys)
    requires y.client.local.call.Some? && LocalWf(y.client.local) && !y.client.listening
    requires FrontAcked(y.client.local.sock, y.client.local.call.value)
    requires var c := y.client.local.call.value; |c.inflight| == 1 && c.nextOff == |c.data|
    ensures SysEnabled(false, y, ByClient(ReleaseOne(0)))
    ensures var y' := SysApply(y, ByClient(ReleaseOne(0)));
            && SysEnabled(false, y', ByClient(FinishTrue)) && y'.server == y.server
            && y'.client.local.call.Some? && y'.client.local.call.value.data == y.client.local.call.value.data
  {
    hide Wrap, WrappingGe, UpdateRtt;
  }

  // ---------------------------------------------------------------- a full receive buffer

  /** The next segment arrives: the server takes what its buffer has room for. */
  lemma Arrives(y: Sys, at: nat, held: nat, len: nat)
    requires ServerAt(y.server, at, held) && y.client.isn == 0 && Sent(at, len) in y.fromClient && held < RX_BUF && len > 0
    ensures var l := Label(Server, Receive(Sent(at, len)));
            && SysEnabled(true, y, l)
            && var y' := SysApply(y, l);
               && y'.client == y.client && y'.fromClient == y.fromClient
               && |Got(y'.server)| - |Got(y.server)| == Min(len, RX_BUF - held)
               && (held + len <= RX_BUF ==> ServerAt(y'.server, at + len, held + len))
  {
    hide Wrap, WrappingGe;
    WrapAdd(1 + at, len);
  }

  lemma {:induction false} Filling(n: nat) returns (tr: seq<Sys>, labels: seq<Label>)
    requires n * MAX_SEG <= RX_BUF
    ensures IsRun(true, tr, labels)
    ensures ClientAt(tr[|labels|].client, n * MAX_SEG) && ServerAt(tr[|labels|].server, n * MAX_SEG, n * MAX_SEG)
  {
    hide IsRun, ClientAt, Sent, SysEnabled, SysApply;
    if n == 0 {
      tr, labels := Handshake(true);
    } else {
      var at := (n - 1) * MAX_SEG;
      tr, labels := Filling(n - 1);
      tr, labels := Round(true, tr, labels, at, MAX_SEG);
      IsnOf(tr[|labels|].client, at + MAX_SEG);
      Arrives(tr[|labels|], at, at, MAX_SEG);
      tr, labels := Extend(true, tr, labels, Label(Server, Receive(Sent(at, MAX_SEG))));
    }
  }

  lemma IsnOf(e: Endpoint, at: nat)
    requires ClientAt(e, at)
    ensures e.isn == 0
  {
  }

  /** A run that takes a segment in part: the buffer holds 23 full segments and 568 bytes of the next. */
  lemma PartIsReached() returns (tr: seq<Sys>, labels: seq<Label>)
    ensures IsRun(true, tr, labels) && labels != [] && |tr| == |labels| + 1
    ensures PartAt(tr, labels, |labels| - 1, Client)
  {
    hide IsRun, ClientAt, SysEnabled, SysApply;
    var at := 23 * MAX_SEG;
    tr, labels := Filling(23);
    tr, labels := Round(true, tr, labels, at, MAX_SEG);
    IsnOf(tr[|labels|].client, at + MAX_SEG);
    Arrives(tr[|labels|], at, at, MAX_SEG);
    tr, labels := Extend(true, tr, labels, Label(Server, Receive(Sent(at, MAX_SEG))));
    assert |tr| == |labels| + 1;
  }

  // ---------------------------------------------------------------- a whole number space

  /** The application takes everything out of the buffer. */
  lemma Drained(y: Sys, at: nat, held: nat)
    requires ServerAt(y.server, at, held)
    ensures var l := Label(Server, Act(Drain(held)));
            && SysEnabled(false, y, l)
            && var y' := SysApply(y, l);
               y'.client == y.client && y'.fromClient == y.fromClient && ServerAt(y'.server, at, 0)
  {
    hide Wrap;
    var f := y.server;
    assert f.local.sock.rx[..held] == f.local.sock.rx;
    assert Got(SysApply(y, Label(Server, Act(Drain(held)))).server) == Got(f);
  }

  const KB: nat := 1024

  /** `n` times a kilobyte is sent, accepted and drained; nothing sent is ever gone from the network. */
  lemma {:induction false} Streaming(n: nat) returns (tr: seq<Sys>, labels: seq<Label>)
    ensures IsRun(false, tr, labels)
    ensures ClientAt(tr[|labels|].client, n * KB) && ServerAt(tr[|labels|].server, n * KB, 0)
    ensures n > 0 ==> Sent(0, KB) in tr[|labels|].fromClient
  {
    hide IsRun, ClientAt, Sent, SysEnabled, SysApply;
    if n == 0 {
      tr, labels := Handshake(false);
    } else {
      var at := (n - 1) * KB;
      tr, labels := Streaming(n - 1);
      tr, labels := Round(false, tr, labels, at, KB);
      IsnOf(tr[|labels|].client, at + KB);
      Arrives(tr[|labels|], at, 0, KB);
      SysStrictIsLoose(true, tr[|labels|], Label(Server, Receive(Sent(at, KB))));
      tr, labels := Extend(false, tr, labels, Label(Server, Receive(Sent(at, KB))));
      Drained(tr[|labels|], at + KB, KB);
      tr, labels := Extend(false, tr, labels, Label(Server, Act(Drain(KB))));
    }
  }

  /**
   A run after which the very first segment, exactly 2^32 bytes old, would be accepted again: the bound on
   deliveries is exact, and without it what is accepted is no longer a prefix of what was sent.
   */
  lemma StaleBreaksPrefix() returns (tr: seq<Sys>, labels: seq<Label>)
    ensures IsRun(false, tr, labels)
    ensures var y, p := tr[|labels|], Sent(0, KB);
            && p in y.fromClient && RecvPos(y.client, y.server) - p.seqPos == M32
            && LocalWf(y.server.local) && !(Got(Receive1(y.server, y.client, p).0) <= y.client.sent)
  {
    hide SysEnabled, SysApply, ClientAt, ServerAt, Receive1;
    tr, labels := Streaming(4194304);
    StaleTaken(tr[|labels|]);
  }

  lemma StaleTaken(y: Sys)
    requires ClientAt(y.client, M32) && ServerAt(y.server, M32, 0)
    ensures LocalWf(y.server.local) && RecvPos(y.client, y.server) - Sent(0, KB).seqPos == M32
    ensures |Got(Receive1(y.server, y.client, Sent(0, KB)).0)| == M32 + KB > |y.client.sent|
  {
    assert Wrap(1 + M32) == 1;
    hide WrappingGe;
  }
}
