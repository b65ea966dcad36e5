/**
 One lost segment, from the handshake to the answer of `send`: the first copy is
 never delivered, the timer sends it again, and the peer accepts the second one.
 */
module TcpHealing {
  import opened Common
  import opened SeqArith
  import opened TcpModel
  import opened TcpSystem
  import opened TcpLimits

  /** The byte of the call, and one the peer sends meanwhile, which tells the two copies apart. */
  const MINE: seq<byte> := [0x41]
  const THEIRS: seq<byte> := [0x42]

  const FRESH: Rtt := Rtt(0, 0, INIT_RTO)
  const BACKED_OFF: Rtt := Rtt(0, 0, 2 * INIT_RTO)

  function Seg(seqNo: u32, ackNo: u32, window: nat, payload: seq<byte>): Segment {
    Segment(seqNo, ackNo, false, false, false, true, window, 0, payload)
  }

  const FIRST: Segment := Seg(1, 1, RX_BUF, MINE)
  const SECOND: Segment := Seg(1, 2, RX_BUF - 1, MINE)
  const ITS_BYTE: Segment := Seg(1, 1, RX_BUF, THEIRS)
  const ITS_ACK: Segment := Seg(2, 2, RX_BUF - 1, [])

  // ---------------------------------------------------------------- the call, local step by local step

  function Up(rx: seq<byte>, seqNo: u32, ackNo: u32, acked: u32, window: nat, rtt: Rtt): Sock {
    Sock(Established, seqNo, ackNo, rx, false, acked, window, 1460, rtt)
  }

  function Waiting(ts: nat, resent: bool, dups: nat, retries: nat): Option<SendCall> {
    Some(SendCall(MINE, MAX_SEG, 1, [InFlight(0, 1, 1, ts, resent)], 1, 1, dups, retries))
  }

  const L0: Local := Local(Up([], 1, 1, 1, RX_BUF, FRESH), Some(SendCall(MINE, MAX_SEG, 1, [], 0, 1, 0, 0)))
  const L1: Local := Local(Up([], 2, 1, 1, RX_BUF, FRESH), Waiting(0, false, 0, 0))
  const L2: Local := Local(Up(THEIRS, 2, 2, 1, RX_BUF, FRESH), Waiting(0, false, 0, 0))
  const L3: Local := Local(Up(THEIRS, 2, 2, 1, RX_BUF, FRESH), Waiting(0, false, 1, 0))
  const L4: Local := Local(Up(THEIRS, 2, 2, 1, RX_BUF, BACKED_OFF), Waiting(250, true, 1, 1))
  const L5: Local := Local(Up(THEIRS, 2, 2, 2, RX_BUF - 1, BACKED_OFF), Waiting(250, true, 1, 1))
  const L6: Local := Local(Up(THEIRS, 2, 2, 2, RX_BUF - 1, BACKED_OFF), Some(SendCall(MINE, MAX_SEG, 1, [], 1, 1, 1, 1)))
  const L7: Local := Local(Up(THEIRS, 2, 2, 2, RX_BUF - 1, BACKED_OFF), Some(SendCall(MINE, MAX_SEG, 1, [], 1, 2, 0, 0)))
  const L8: Local := Local(Up(THEIRS, 2, 2, 2, RX_BUF - 1, BACKED_OFF), None)

  ghost predicate Moves(l: Local, a: LocalStep, l': Local, out: seq<Segment>) { LocalEnabled(l, a) && LocalApply(l, a) == (l', out) }

  lemma FillsOnce()
    ensures Moves(L0, FillOne(0), L1, [FIRST])
  {
    assert MINE[0..1] == MINE;
    var (l, out) := LocalApply(L0, FillOne(0));
    assert l.call.value.inflight == L1.call.value.inflight;
    assert out == [FIRST];
  }

  lemma Filling()
    ensures Moves(L0, FillOne(0), L1, [FIRST]) && !LocalEnabled(L1, FillOne(0)) && !LocalEnabled(L1, FinishTrue)
    ensures Moves(L1, CountAcks(false, false), L1, []) && !LocalEnabled(L1, ReleaseOne(0))
    ensures !LocalEnabled(L1, FastRetransmit(0)) && !LocalEnabled(L1, Timeout(0))
  {
    FillsOnce();
    hide Fill;
  }

  lemma HearsByte()
    ensures Moves(L1, Deliver(ITS_BYTE), L2, [Seg(2, 2, RX_BUF - 1, [])])
  {
    assert THEIRS[..1] == THEIRS;
    var (l, out) := LocalApply(L1, Deliver(ITS_BYTE));
    assert l.sock.rx == THEIRS;
    assert out == [Seg(2, 2, RX_BUF - 1, [])];
  }

  lemma SendsAgain()
    ensures Moves(L3, Timeout(250), L4, [SECOND])
  {
    assert MINE[0..1] == MINE;
    var (l, out) := LocalApply(L3, Timeout(250));
    assert l.call.value.inflight == L4.call.value.inflight;
    assert out == [SECOND];
  }

  lemma Waits()
    ensures !LocalEnabled(L1, FillOne(250)) && !LocalEnabled(L1, FinishTrue)
    ensures Moves(L1, Deliver(ITS_BYTE), L2, [Seg(2, 2, RX_BUF - 1, [])])
    ensures !LocalEnabled(L2, ReleaseOne(250)) && Moves(L2, CountAcks(false, true), L3, [])
    ensures !LocalEnabled(L3, FastRetransmit(250)) && Moves(L3, Timeout(250), L4, [SECOND])
  {
    HearsByte();
    SendsAgain();
    hide Recv, Retransmit;
  }

  lemma Finishes()
    ensures !LocalEnabled(L4, FillOne(300)) && !LocalEnabled(L4, FinishTrue)
    ensures Moves(L4, Deliver(ITS_ACK), L5, []) && Moves(L5, ReleaseOne(300), L6, []) && !LocalEnabled(L6, ReleaseOne(300))
    ensures Moves(L6, CountAcks(true, true), L7, []) && !LocalEnabled(L7, FastRetransmit(300)) && !LocalEnabled(L7, Timeout(300))
    ensures !LocalEnabled(L7, FillOne(300)) && Moves(L7, FinishTrue, L8, [])
  {
  }

  // ---------------------------------------------------------------- the script of the call

  /** Nothing at first; after 250 ticks the peer's byte; then the acknowledgement. */
  const SCRIPT: seq<Obs> := [Obs(false, [], 0), Obs(false, [ITS_BYTE], 250), Obs(false, [ITS_ACK], 300), Obs(false, [], 300)]

  lemma AfterTwo(l: Local, a: LocalStep, m: Local, b: LocalStep, n: Local, o: seq<Segment>, o': seq<Segment>)
    requires Moves(l, a, m, o) && Moves(m, b, n, o')
    ensures After(l, []) == l && After(l, [a]) == m && After(l, [a, b]) == n
  {
    hide LocalApply, LocalEnabled;
    LastStep(l, a);
    LastStep(m, b);
    assert [a, b] == [a] + [b];
    AfterConcat(l, [a], [b]);
  }

  lemma FirstPass()
    ensures PassSteps(L0, SCRIPT[0]) == [FillOne(0), CountAcks(false, false)] && After(L0, PassSteps(L0, SCRIPT[0])) == L1
  {
    hide LocalApply, LocalEnabled, After, LocalWf;
    Filling();
    AfterTwo(L0, FillOne(0), L1, CountAcks(false, false), L1, [FIRST], []);
    AfterTwo(L1, CountAcks(false, false), L1, CountAcks(false, false), L1, [], []);
    assert Fills(L0, 0) == [FillOne(0)] + Fills(L1, 0) == [FillOne(0)];
    assert Releases(L1, 0) == [];
    assert Delivers([]) == [];
    var obs := SCRIPT[0];
    assert Counting(L1, obs) == [CountAcks(false, false)];
    assert Resends(L1, 0) == [];
    assert [] + [CountAcks(false, false)] == [CountAcks(false, false)];
    assert PassTail(L1, obs) == [CountAcks(false, false)];
    assert [FillOne(0)] + [CountAcks(false, false)] == [FillOne(0), CountAcks(false, false)];
  }

  lemma SecondPass()
    ensures PassSteps(L1, SCRIPT[1]) == [Deliver(ITS_BYTE), CountAcks(false, true), Timeout(250)]
    ensures After(L1, PassSteps(L1, SCRIPT[1])) == L4
  {
    hide LocalApply, LocalEnabled, After, LocalWf;
    Waits();
    AfterTwo(L1, Deliver(ITS_BYTE), L2, CountAcks(false, true), L3, [Seg(2, 2, RX_BUF - 1, [])], []);
    AfterTwo(L2, CountAcks(false, true), L3, Timeout(250), L4, [], [SECOND]);
    AfterNone(L3);
    LastStep(L3, Timeout(250));
    var obs := SCRIPT[1];
    assert Fills(L1, 250) == [] && Releases(L2, 250) == [];
    assert Delivers([ITS_BYTE]) == [Deliver(ITS_BYTE)];
    assert Counting(L2, obs) == [CountAcks(false, true)];
    assert IfEnabled(L3, FastRetransmit(250)) == [];
    assert Resends(L3, 250) == [Timeout(250)];
    assert [Deliver(ITS_BYTE)] + [CountAcks(false, true)] == [Deliver(ITS_BYTE), CountAcks(false, true)];
    assert PassTail(L1, obs) == [Deliver(ITS_BYTE), CountAcks(false, true), Timeout(250)];
    assert [Deliver(ITS_BYTE), CountAcks(false, true), Timeout(250)] == [Deliver(ITS_BYTE), CountAcks(false, true)] + [Timeout(250)];
    AfterConcat(L1, [Deliver(ITS_BYTE), CountAcks(false, true)], [Timeout(250)]);
  }

  lemma ThirdPass()
    ensures PassSteps(L4, SCRIPT[2]) == [Deliver(ITS_ACK), ReleaseOne(300), CountAcks(true, true)]
    ensures After(L4, PassSteps(L4, SCRIPT[2])) == L7
  {
    hide LocalApply, LocalEnabled, After, LocalWf;
    Finishes();
    AfterTwo(L4, Deliver(ITS_ACK), L5, ReleaseOne(300), L6, [], []);
    AfterTwo(L5, ReleaseOne(300), L6, CountAcks(true, true), L7, [], []);
    AfterNone(L7);
    var obs := SCRIPT[2];
    assert Fills(L4, 300) == [];
    assert Releases(L5, 300) == [ReleaseOne(300)] + Releases(L6, 300);
    assert Delivers([ITS_ACK]) == [Deliver(ITS_ACK)];
    assert Counting(L5, obs) == [ReleaseOne(300), CountAcks(true, true)];
    AfterConcat(L4, [Deliver(ITS_ACK)], [ReleaseOne(300), CountAcks(true, true)]);
    assert Resends(L7, 300) == [];
    assert PassTail(L4, obs) == [Deliver(ITS_ACK), ReleaseOne(300), CountAcks(true, true)]
        == [Deliver(ITS_ACK)] + [ReleaseOne(300), CountAcks(true, true)];
  }

  const STEPS: seq<LocalStep> := [
    FillOne(0), CountAcks(false, false),
    Deliver(ITS_BYTE), CountAcks(false, true), Timeout(250),
    Deliver(ITS_ACK), ReleaseOne(300), CountAcks(true, true),
    FinishTrue]

  /** These are the steps `send` takes under that script. */
  lemma ScriptTakes()
    ensures ScriptSteps(L0, SCRIPT) == STEPS
  {
    hide LocalApply, LocalEnabled, After, LocalWf, PassSteps;
    FirstPass();
    SecondPass();
    ThirdPass();
    LastPass();
    assert SCRIPT[1..][0] == SCRIPT[1] && SCRIPT[1..][1..] == SCRIPT[2..];
    assert SCRIPT[2..][0] == SCRIPT[2] && SCRIPT[2..][1..] == SCRIPT[3..];
    assert SCRIPT[3..][0] == SCRIPT[3] && SCRIPT[3..][1..] == [];
    assert ScriptSteps(L7, SCRIPT[3..]) == [FinishTrue] + ScriptSteps(L8, []);
    assert ScriptSteps(L4, SCRIPT[2..]) == [Deliver(ITS_ACK), ReleaseOne(300), CountAcks(true, true)] + ScriptSteps(L7, SCRIPT[3..]);
    assert ScriptSteps(L1, SCRIPT[1..]) == [Deliver(ITS_BYTE), CountAcks(false, true), Timeout(250)] + ScriptSteps(L4, SCRIPT[2..]);
    assert ScriptSteps(L0, SCRIPT) == [FillOne(0), CountAcks(false, false)] + ScriptSteps(L1, SCRIPT[1..]);
  }

  lemma LastPass()
    ensures PassSteps(L7, SCRIPT[3]) == [FinishTrue] && After(L7, [FinishTrue]) == L8
  {
    hide LocalApply, LocalEnabled, After, LocalWf, PassTail;
    Finishes();
    AfterNone(L7);
    assert Fills(L7, 300) == [];
    LastStep(L7, FinishTrue);
  }

  // ---------------------------------------------------------------- the run

  /** An endpoint after the handshake, both initial numbers being zero. */
  function End(l: Local, sent: seq<byte>, acked: int): Endpoint { Endpoint(l, 0, false, sent, false, true, [], false, acked, 0) }

  const IDLE: Local := Local(Up([], 1, 1, 1, RX_BUF, FRESH), None)
  const S1: Local := Local(Up([], 1, 1, 1, RX_BUF, FRESH), Some(SendCall(THEIRS, MAX_SEG, 1, [], 0, 1, 0, 0)))
  const S2: Local := Local(Up([], 2, 1, 1, RX_BUF, FRESH), Some(SendCall(THEIRS, MAX_SEG, 1, [InFlight(0, 1, 1, 0, false)], 1, 1, 0, 0)))
  const S3: Local := Local(Up(MINE, 2, 2, 2, RX_BUF - 1, FRESH), S2.call)

  const P_FIRST: Stamped := Stamped(FIRST, 1, 1)
  const P_SECOND: Stamped := Stamped(SECOND, 1, 2)
  const P_BYTE: Stamped := Stamped(ITS_BYTE, 1, 1)
  const P_ACK: Stamped := Stamped(ITS_ACK, 2, 2)

  lemma ShakeHands() returns (tr: seq<Sys>, labels: seq<Label>)
    ensures IsRun(true, tr, labels) && |labels| == 3
    ensures tr[3].client == End(IDLE, [], 1) && tr[3].server == End(IDLE, [], 1)
    ensures P_SECOND !in tr[3].fromClient
    ensures forall i :: 0 <= i < |labels| ==> labels[i] != Label(Server, Receive(P_FIRST))
  {
    tr, labels := [Init(0, 0)], [];
    var syn :| tr[0].fromClient == {syn};
    tr, labels := Extend(true, tr, labels, Label(Server, Accept(syn)));
    var synAck :| tr[1].fromServer == {synAck};
    tr, labels := Extend(true, tr, labels, Label(Client, Receive(synAck)));
    var ack := Stamped(Seg(1, 1, RX_BUF, []), 1, 1);
    assert tr[2].fromClient == {syn, ack};
    tr, labels := Extend(true, tr, labels, Label(Server, Receive(ack)));
  }

  /** A local step of the client, when nothing but its local state changes. */
  lemma ClientMoves(y: Sys, a: LocalStep, l': Local, out: seq<Segment>)
    requires Moves(y.client.local, a, l', out) && !y.client.listening
    requires a.CountAcks? || a.Timeout? || a.ReleaseOne? || a.FinishTrue?
    requires a.ReleaseOne? ==> Near(y.client)
    ensures SysEnabled(true, y, ByClient(a)) && SysEnabled(false, y, ByClient(a))
    ensures var y' := SysApply(y, ByClient(a));
            && y'.client == y.client.(local := l') && y'.server == y.server && y'.fromServer == y.fromServer
            && y'.fromClient == y.fromClient + Stamp(out, OutPos(y.client, a), RecvPos(y.server, y.client))
            && (out == [] ==> y'.fromClient == y.fromClient)
  {
    hide LocalApply, LocalEnabled, Near;
  }

  lemma ClientBegins(y: Sys)
    requires y.client == End(IDLE, [], 1) && y.server == End(IDLE, [], 1)
    ensures SysEnabled(true, y, ByClient(Begin(MINE))) && SysEnabled(false, y, ByClient(Begin(MINE)))
    ensures var y1 := SysApply(y, ByClient(Begin(MINE)));
            && y1.client == End(L0, [], 1) && y1.server == y.server && y1.fromClient == y.fromClient
            && SysEnabled(true, y1, ByClient(FillOne(0))) && SysEnabled(false, y1, ByClient(FillOne(0)))
            && var y2 := SysApply(y1, ByClient(FillOne(0)));
               && y2.client == End(L1, MINE, 1) && y2.server == y.server && y2.fromClient == y.fromClient + {P_FIRST}
  {
    hide Fill, Recv, Retransmit, Release, DataSegment, WrappingGe;
    var y1 := SysApply(y, ByClient(Begin(MINE)));
    assert y1.client == End(L0, [], 1);
    ClientFills(y1);
  }

  lemma ClientFills(y: Sys)
    requires y.client == End(L0, [], 1) && y.server == End(IDLE, [], 1)
    ensures SysEnabled(true, y, ByClient(FillOne(0))) && SysEnabled(false, y, ByClient(FillOne(0)))
    ensures var y' := SysApply(y, ByClient(FillOne(0)));
            y'.client == End(L1, MINE, 1) && y'.server == y.server && y'.fromClient == y.fromClient + {P_FIRST}
  {
    Filling();
    hide LocalApply, LocalEnabled;
    StampOne(FIRST, 1, 1);
  }

  lemma ServerSends(y: Sys)
    requires y.client == End(L1, MINE, 1) && y.server == End(IDLE, [], 1)
    ensures var l := Label(Server, Act(Begin(THEIRS))); SysEnabled(true, y, l) && SysEnabled(false, y, l)
    ensures var y1 := SysApply(y, Label(Server, Act(Begin(THEIRS))));
            && y1.server == End(S1, [], 1) && y1.client == y.client && y1.fromClient == y.fromClient
            && var l := Label(Server, Act(FillOne(0)));
               && SysEnabled(true, y1, l) && SysEnabled(false, y1, l)
               && var y2 := SysApply(y1, l);
                  && y2.server == End(S2, THEIRS, 1) && y2.client == y.client && y2.fromClient == y.fromClient
                  && P_BYTE in y2.fromServer
  {
    var y1 := SysApply(y, Label(Server, Act(Begin(THEIRS))));
    assert y1.server == End(S1, [], 1);
    ServerFills();
    hide LocalApply, Fill;
    StampOne(ITS_BYTE, 1, 1);
  }

  lemma ServerFills()
    ensures Moves(S1, FillOne(0), S2, [ITS_BYTE])
  {
    assert THEIRS[0..1] == THEIRS;
    var (l, out) := LocalApply(S1, FillOne(0));
    assert l.call.value.inflight == S2.call.value.inflight;
    assert out == [ITS_BYTE];
  }

  lemma ClientHears(y: Sys)
    requires y.client == End(L1, MINE, 1) && y.server == End(S2, THEIRS, 1) && P_BYTE in y.fromServer
    ensures var l := Label(Client, Receive(P_BYTE));
            && SysEnabled(true, y, l) && SysEnabled(false, y, l)
            && var y' := SysApply(y, l);
               && y'.client == End(L2, MINE, 1) && y'.server == y.server
               && y'.fromClient == y.fromClient + {Stamped(Seg(2, 2, RX_BUF - 1, []), 2, 2)}
  {
    Waits();
    hide LocalApply;
    StampOne(Seg(2, 2, RX_BUF - 1, []), 2, 2);
  }

  lemma ServerAccepts(y: Sys)
    requires y.client == End(L4, MINE, 1) && y.server == End(S2, THEIRS, 1) && P_SECOND in y.fromClient
    ensures var l := Label(Server, Receive(P_SECOND));
            && SysEnabled(true, y, l) && SysEnabled(false, y, l)
            && var y' := SysApply(y, l);
               && y'.server == End(S3, THEIRS, 2) && y'.client == y.client && y'.fromClient == y.fromClient && P_ACK in y'.fromServer
  {
    var (s', out) := Recv(S2.sock, SECOND);
    assert MINE[..1] == MINE;
    assert s'.rx == MINE;
    assert s' == S3.sock && out == [ITS_ACK];
    hide Recv;
    StampOne(ITS_ACK, 2, 2);
  }

  lemma ClientAcked(y: Sys)
    requires y.client == End(L4, MINE, 1) && y.server == End(S3, THEIRS, 2) && P_ACK in y.fromServer
    ensures var l := Label(Client, Receive(P_ACK));
            && SysEnabled(true, y, l) && SysEnabled(false, y, l)
            && var y' := SysApply(y, l);
               && y'.client == End(L5, MINE, 2) && y'.server == y.server && y'.fromClient == y.fromClient
  {
    var (s', out) := Recv(L4.sock, ITS_ACK);
    assert s' == L5.sock && out == [];
    hide Recv;
  }

  function Own(l: Label): seq<LocalStep> {
    if l.who.Server? then [] else match l.step case Act(a) => [a] case Receive(p) => [Deliver(p.seg)] case _ => []
  }

  /** The steps of the client's call: its own, and what it takes from the network. */
  function ClientSteps(labels: seq<Label>): seq<LocalStep> {
    if labels == [] then [] else ClientSteps(labels[..|labels| - 1]) + Own(labels[|labels| - 1])
  }


  lemma Sends() returns (tr: seq<Sys>, labels: seq<Label>)
    ensures IsRun(true, tr, labels) && |labels| == 5 && |tr| == 6
    ensures labels[3..] == [ByClient(Begin(MINE)), ByClient(FillOne(0))]
    ensures forall i :: 0 <= i < 5 ==> labels[i] != Label(Server, Receive(P_FIRST))
    ensures tr[4].client == End(L0, [], 1)
    ensures tr[5].client == End(L1, MINE, 1) && tr[5].server == End(IDLE, [], 1)
    ensures P_FIRST in tr[5].fromClient && P_SECOND !in tr[5].fromClient
  {
    hide SysEnabled, SysApply;
    tr, labels := ShakeHands();
    ClientBegins(tr[3]);
    tr, labels := Extend(true, tr, labels, ByClient(Begin(MINE)));
    tr, labels := Extend(true, tr, labels, ByClient(FillOne(0)));
  }

  lemma Crosses(tr0: seq<Sys>, labels0: seq<Label>) returns (tr: seq<Sys>, labels: seq<Label>)
    requires IsRun(true, tr0, labels0) && |labels0| == 5 && |tr0| == 6
    requires tr0[5].client == End(L1, MINE, 1) && tr0[5].server == End(IDLE, [], 1) && P_SECOND !in tr0[5].fromClient
    ensures IsRun(true, tr, labels) && |labels| == 9 && |tr| == 10 && tr0 <= tr && labels0 <= labels
    ensures labels[5..] == [ByClient(CountAcks(false, false)), Label(Server, Act(Begin(THEIRS))), Label(Server, Act(FillOne(0))),
                            Label(Client, Receive(P_BYTE))]
    ensures P_SECOND !in tr[9].fromClient && tr[9].client == End(L2, MINE, 1) && tr[9].server == End(S2, THEIRS, 1)
  {
    hide SysEnabled, SysApply, LocalApply, LocalEnabled, Near, IsRun, Stamp;
    Filling();
    ClientMoves(tr0[5], CountAcks(false, false), L1, []);
    tr, labels := Extend(true, tr0, labels0, ByClient(CountAcks(false, false)));
    ServerSends(tr[6]);
    tr, labels := Extend(true, tr, labels, Label(Server, Act(Begin(THEIRS))));
    tr, labels := Extend(true, tr, labels, Label(Server, Act(FillOne(0))));
    ClientHears(tr[8]);
    tr, labels := Extend(true, tr, labels, Label(Client, Receive(P_BYTE)));
  }

  lemma TimerSends(y: Sys)
    requires y.client == End(L3, MINE, 1) && y.server == End(S2, THEIRS, 1)
    ensures SysEnabled(true, y, ByClient(Timeout(250))) && SysEnabled(false, y, ByClient(Timeout(250)))
    ensures var y' := SysApply(y, ByClient(Timeout(250)));
            y'.client == End(L4, MINE, 1) && y'.server == y.server && y'.fromClient == y.fromClient + {P_SECOND}
  {
    hide SysEnabled, SysApply, LocalApply, LocalEnabled, Near, Stamp;
    Waits();
    ClientMoves(y, Timeout(250), L4, [SECOND]);
    StampOne(SECOND, 1, 2);
  }

  lemma RunsOut(tr0: seq<Sys>, labels0: seq<Label>) returns (tr: seq<Sys>, labels: seq<Label>)
    requires IsRun(true, tr0, labels0) && |labels0| == 9 && |tr0| == 10
    requires tr0[9].client == End(L2, MINE, 1) && tr0[9].server == End(S2, THEIRS, 1) && P_SECOND !in tr0[9].fromClient
    ensures IsRun(true, tr, labels) && |labels| == 11 && |tr| == 12 && tr0 <= tr && labels0 <= labels
    ensures labels[9..] == [ByClient(CountAcks(false, true)), ByClient(Timeout(250))]
    ensures P_SECOND !in tr[10].fromClient && P_SECOND in tr[11].fromClient
    ensures tr[11].client == End(L4, MINE, 1) && tr[11].server == End(S2, THEIRS, 1)
  {
    hide SysEnabled, SysApply, LocalApply, LocalEnabled, Near, IsRun, Stamp;
    Waits();
    ClientMoves(tr0[9], CountAcks(false, true), L3, []);
    tr, labels := Extend(true, tr0, labels0, ByClient(CountAcks(false, true)));
    TimerSends(tr[10]);
    tr, labels := Extend(true, tr, labels, ByClient(Timeout(250)));
  }

  lemma Recovers(tr0: seq<Sys>, labels0: seq<Label>) returns (tr: seq<Sys>, labels: seq<Label>)
    requires IsRun(true, tr0, labels0) && |labels0| == 11 && |tr0| == 12
    requires tr0[11].client == End(L4, MINE, 1) && tr0[11].server == End(S2, THEIRS, 1) && P_SECOND in tr0[11].fromClient
    ensures IsRun(true, tr, labels) && |labels| == 16 && |tr| == 17 && tr0 <= tr && labels0 <= labels
    ensures labels[11..] == [Label(Server, Receive(P_SECOND)), Label(Client, Receive(P_ACK)), ByClient(ReleaseOne(300)),
                             ByClient(CountAcks(true, true)), ByClient(FinishTrue)]
    ensures Got(tr[11].server) == [] && Got(tr[12].server) == MINE
  {
    hide SysEnabled, SysApply, LocalApply, LocalEnabled, IsRun, Stamp;
    Finishes();
    ServerAccepts(tr0[11]);
    tr, labels := Extend(true, tr0, labels0, Label(Server, Receive(P_SECOND)));
    ClientAcked(tr[12]);
    tr, labels := Extend(true, tr, labels, Label(Client, Receive(P_ACK)));
    ClientMoves(tr[13], ReleaseOne(300), L6, []);
    tr, labels := Extend(true, tr, labels, ByClient(ReleaseOne(300)));
    ClientMoves(tr[14], CountAcks(true, true), L7, []);
    tr, labels := Extend(true, tr, labels, ByClient(CountAcks(true, true)));
    ClientMoves(tr[15], FinishTrue, L8, []);
    tr, labels := Extend(true, tr, labels, ByClient(FinishTrue));
  }

  lemma NextOwn(ls: seq<Label>, k: nat)
    requires k < |ls|
    ensures ClientSteps(ls[..k + 1]) == ClientSteps(ls[..k]) + Own(ls[k])
  {
    assert ls[..k + 1][..k] == ls[..k];
  }

  lemma TakenSteps(ls: seq<Label>)
    requires ls == [ByClient(FillOne(0)), ByClient(CountAcks(false, false)), Label(Server, Act(Begin(THEIRS))),
                    Label(Server, Act(FillOne(0))), Label(Client, Receive(P_BYTE)), ByClient(CountAcks(false, true)),
                    ByClient(Timeout(250)), Label(Server, Receive(P_SECOND)), Label(Client, Receive(P_ACK)),
                    ByClient(ReleaseOne(300)), ByClient(CountAcks(true, true)), ByClient(FinishTrue)]
    ensures ClientSteps(ls) == STEPS
  {
    hide ClientSteps;
    assert ls[..0] == [] && ls[..12] == ls;
    assert ClientSteps([]) == [] by { NoSteps(); }
    NextOwn(ls, 0);
    NextOwn(ls, 1);
    NextOwn(ls, 2);
    NextOwn(ls, 3);
    NextOwn(ls, 4);
    NextOwn(ls, 5);
    assert ClientSteps(ls[..6]) == STEPS[..4];
    NextOwn(ls, 6);
    NextOwn(ls, 7);
    NextOwn(ls, 8);
    NextOwn(ls, 9);
    NextOwn(ls, 10);
    NextOwn(ls, 11);
  }

  lemma NoSteps()
    ensures ClientSteps([]) == []
  {
  }

  /**
   A run in which the first copy of the segment is lost: nobody ever takes it. The timer runs out, the second copy goes out,
   the server accepts it, and the call, which takes just the steps of its script, answers true.
   */
  lemma LostThenHealed() returns (tr: seq<Sys>, labels: seq<Label>)
    ensures IsRun(true, tr, labels) && |labels| == 16
    ensures P_FIRST in tr[5].fromClient && P_SECOND != P_FIRST
    ensures forall i :: 0 <= i < |labels| ==> labels[i] != Label(Server, Receive(P_FIRST))
    ensures labels[10] == ByClient(Timeout(250)) && P_SECOND !in tr[10].fromClient && P_SECOND in tr[11].fromClient
    ensures Got(tr[11].server) == [] && labels[11] == Label(Server, Receive(P_SECOND)) && Got(tr[12].server) == MINE
    ensures tr[4].client.local == L0 && ClientSteps(labels[4..]) == ScriptSteps(L0, SCRIPT) && labels[15] == ByClient(FinishTrue)
  {
    hide SysEnabled, SysApply, LocalApply, LocalEnabled, IsRun, ClientSteps, ScriptSteps;
    var tr5, labels5 := Sends();
    var tr9, labels9 := Crosses(tr5, labels5);
    var tr11, labels11 := RunsOut(tr9, labels9);
    tr, labels := Recovers(tr11, labels11);
    ScriptTakes();
    assert labels[..5] == labels5 && labels[..9] == labels9 && labels[..11] == labels11;
    assert labels[4..] == labels5[4..] + labels9[5..] + labels11[9..] + labels[11..];
    TakenSteps(labels[4..]);
  }
}
