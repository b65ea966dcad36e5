/**
 A response as a server sends it, byte by byte as RFC 7540 lays it out, and what
 the client's loop makes of it, however the bytes are cut into chunks.
 */
module Http2Exchange {
  import opened Common
  import Hpack
  import opened HpackCode
  import opened Http2

  // ---------------------------------------------------------------- the server

  /** A frame on stream 1: section 4.1 of RFC 7540. */
  function Sent(kind: byte, flags: byte, payload: Str): Str
    requires |payload| < 0x100_0000
  {
    [|payload| / 0x1_0000, |payload| / 0x100 % 256, |payload| % 256, kind, flags, 0, 0, 0, 1] + payload
  }

  /** A stretch of the body, with `pad` bytes of padding or without (section 6.1). */
  datatype Piece = Bare(data: Str) | Padded(data: Str, pad: byte)

  function Load(p: Piece): Str {
    match p
    case Bare(d) => d
    case Padded(d, n) => [n] + d + seq(n, _ => 0)
  }

  function DataFlags(p: Piece, last: bool): byte { (if last then 0x1 else 0) + (if p.Padded? then 0x8 else 0) }

  /** DATA frames, the last one ending the stream. */
  function BodySent(ps: seq<Piece>): Str
    requires Sized(ps)
  {
    if ps == [] then [] else Sent(0x0, DataFlags(ps[0], |ps| == 1), Load(ps[0])) + BodySent(ps[1..])
  }

  predicate Sized(ps: seq<Piece>) { forall k :: 0 <= k < |ps| ==> |Load(ps[k])| < 0x100_0000 }

  predicate Fitting(parts: seq<Str>) { forall k :: 0 <= k < |parts| ==> |parts[k]| < 0x100_0000 }

  function HeadFlags(last: bool, ends: bool): byte { (if last then 0x4 else 0) + (if ends then 0x1 else 0) }

  /** CONTINUATION frames, the last one ending the header block (section 6.10). */
  function MoreHead(parts: seq<Str>): Str
    requires Fitting(parts)
  {
    if parts == [] then [] else Sent(0x9, HeadFlags(|parts| == 1, false), parts[0]) + MoreHead(parts[1..])
  }

  /** A header block in one or more parts, then the body; without one the HEADERS frame ends the stream (section 6.2). */
  function Reply(parts: seq<Str>, ps: seq<Piece>): Str
    requires parts != [] && Fitting(parts) && Sized(ps)
  {
    Sent(0x1, HeadFlags(|parts| == 1, ps == []), parts[0]) + MoreHead(parts[1..]) + BodySent(ps)
  }

  function Concat(parts: seq<Str>): Str { if parts == [] then [] else parts[0] + Concat(parts[1..]) }

  function Content(ps: seq<Piece>): Str { if ps == [] then [] else ps[0].data + Content(ps[1..]) }

  lemma {:induction false} ConcatFirst(front: Str, parts: seq<Str>)
    requires parts != []
    ensures front + parts[0] + Concat(parts[1..]) == front + Concat(parts)
    ensures |parts| == 1 ==> front + parts[0] == front + Concat(parts)
  {
    var rest := Concat(parts[1..]);
    assert Concat(parts) == parts[0] + rest && (|parts| == 1 ==> rest == []);
    hide Concat;
    assert front + parts[0] + rest == front + (parts[0] + rest);
    assert |parts| == 1 ==> parts[0] + rest == parts[0];
  }

  // ---------------------------------------------------------------- its frames

  function MoreHeadFrames(parts: seq<Str>): seq<Frame> {
    if parts == [] then [] else [Frame(0x9, HeadFlags(|parts| == 1, false), 1, parts[0])] + MoreHeadFrames(parts[1..])
  }

  function BodyFrames(ps: seq<Piece>): seq<Frame> {
    if ps == [] then [] else [Frame(0x0, DataFlags(ps[0], |ps| == 1), 1, Load(ps[0]))] + BodyFrames(ps[1..])
  }

  function ReplyFrames(parts: seq<Str>, ps: seq<Piece>): seq<Frame>
    requires parts != []
  {
    [Frame(0x1, HeadFlags(|parts| == 1, ps == []), 1, parts[0])] + MoreHeadFrames(parts[1..]) + BodyFrames(ps)
  }

  lemma SentReads(kind: byte, flags: byte, payload: Str, rest: Str)
    requires |payload| < 0x100_0000
    ensures Frames(Sent(kind, flags, payload) + rest) == [Frame(kind, flags, 1, payload)] + Frames(rest)
  {
    var s, n := Sent(kind, flags, payload) + rest, |payload|;
    FrameLayout(s);
    assert s[0] == n / 0x1_0000 && s[1] == n / 0x100 % 256 && s[2] == n % 256;
    LengthOf(n);
    hide Whole, First, After;
    assert s[9..9 + n] == payload && s[9 + n..] == rest;
  }

  lemma LengthOf(n: nat)
    requires n < 0x100_0000
    ensures 0x1_0000 * (n / 0x1_0000) + 0x100 * (n / 0x100 % 256) + n % 256 == n
  {
  }

  lemma {:induction false} MoreHeadReads(parts: seq<Str>, rest: Str)
    requires Fitting(parts)
    ensures Frames(MoreHead(parts) + rest) == MoreHeadFrames(parts) + Frames(rest)
    decreases |parts|
  {
    hide Frames, Sent;
    if parts == [] {
      assert MoreHead(parts) + rest == rest;
    } else {
      var first := Sent(0x9, HeadFlags(|parts| == 1, false), parts[0]);
      assert MoreHead(parts) + rest == first + (MoreHead(parts[1..]) + rest);
      SentReads(0x9, HeadFlags(|parts| == 1, false), parts[0], MoreHead(parts[1..]) + rest);
      MoreHeadReads(parts[1..], rest);
    }
  }

  lemma {:induction false} BodyReads(ps: seq<Piece>)
    requires Sized(ps)
    ensures Frames(BodySent(ps)) == BodyFrames(ps)
    decreases |ps|
  {
    if ps != [] {
      hide Frames, Sent, Load;
      SentReads(0x0, DataFlags(ps[0], |ps| == 1), Load(ps[0]), BodySent(ps[1..]));
      BodyReads(ps[1..]);
    }
  }

  lemma ReplyReads(parts: seq<Str>, ps: seq<Piece>)
    requires parts != [] && Fitting(parts) && Sized(ps)
    ensures Frames(Reply(parts, ps)) == ReplyFrames(parts, ps)
  {
    hide Frames, Sent, MoreHead, BodySent, MoreHeadFrames, BodyFrames;
    var flags := HeadFlags(|parts| == 1, ps == []);
    assert Reply(parts, ps) == Sent(0x1, flags, parts[0]) + (MoreHead(parts[1..]) + BodySent(ps));
    SentReads(0x1, flags, parts[0], MoreHead(parts[1..]) + BodySent(ps));
    MoreHeadReads(parts[1..], BodySent(ps));
    BodyReads(ps);
  }

  // ---------------------------------------------------------------- what the client makes of them

  /** The flag bits: 0x1 acknowledges or ends the stream, 0x4 ends the header block, 0x8 pads. */
  lemma FlagBits(a: bool, b: bool, c: bool, d: bool, high: nat)
    requires high < 16
    ensures var flags: byte := (if a then 1 else 0) + (if b then 2 else 0) + (if c then 4 else 0) + (if d then 8 else 0) + 16 * high;
            && (Acks(flags) <==> a) && (EndsStream(flags) <==> a)
            && (EndsHeaders(flags) <==> c) && (IsPadded(flags) <==> d)
  {
    var low: nat := (if a then 1 else 0) + (if b then 2 else 0) + (if c then 4 else 0) + (if d then 8 else 0);
    assert (low + 16 * high) % 2 == low % 2;
    assert (low + 16 * high) / 4 == low / 4 + 4 * high;
    assert (low + 16 * high) / 8 == low / 8 + 2 * high;
  }

  /** The frames beside headers and data, by their numbers: SETTINGS (4) and PING (6) are answered unless they
      acknowledge, RST_STREAM (3) and GOAWAY (7) end the stream, PRIORITY (2), PUSH_PROMISE (5) and WINDOW_UPDATE (8)
      change nothing. */
  lemma ControlMeans(s: Response, flags: byte, stream: nat, p: Str, decode: Str -> Seen)
    ensures Handle(s, Frame(4, flags, stream, p), decode).sent == (if flags % 2 == 1 then s.sent else s.sent + [SettingsAck])
    ensures Handle(s, Frame(6, flags, stream, p), decode).sent == (if flags % 2 == 1 then s.sent else s.sent + [Pong(p)])
    ensures forall kind: byte :: kind == 4 || kind == 6 ==>
              var t := Handle(s, Frame(kind, flags, stream, p), decode);
              && t.seen == s.seen && t.body == s.body && t.block == s.block && t.got == s.got && t.done == s.done
              && t.streamRecv == s.streamRecv && t.connRecv == s.connRecv
    ensures forall kind: byte :: kind == 3 || kind == 7 ==> Handle(s, Frame(kind, flags, stream, p), decode) == s.(done := true)
    ensures forall kind: byte :: kind == 2 || kind == 5 || kind == 8 || kind > 9 ==> Handle(s, Frame(kind, flags, stream, p), decode) == s
  {
  }

  lemma HeadStep(s: Response, kind: byte, part: Str, last: bool, ends: bool, decode: Str -> Seen)
    requires kind == 0x1 || (kind == 0x9 && !ends)
    ensures var t := Handle(s, Frame(kind, HeadFlags(last, ends), 1, part), decode);
            && t.body == s.body && t.done == (s.done || ends)
            && (if last then t.got && t.block == [] && t.seen == decode(s.block + part)
                else t.got == s.got && t.block == s.block + part)
  {
  }

  lemma LoadBody(p: Piece, last: bool)
    ensures Body(Frame(0x0, DataFlags(p, last), 1, Load(p))) == p.data
  {
    if p.Padded? {
      assert Load(p)[0] == p.pad && Load(p)[1..|Load(p)| - p.pad] == p.data;
    }
  }

  lemma DataStep(s: Response, p: Piece, last: bool, decode: Str -> Seen)
    ensures var t := Handle(s, Frame(0x0, DataFlags(p, last), 1, Load(p)), decode);
            && t.body == s.body + p.data && t.done == (s.done || last)
            && t.got == s.got && t.seen == s.seen && t.block == s.block
  {
    hide Body, Load, Counted;
    LoadBody(p, last);
  }

  lemma HandleFirst(s: Response, f: Frame, rest: seq<Frame>, decode: Str -> Seen)
    ensures HandleAll(s, [f] + rest, decode) == HandleAll(Handle(s, f, decode), rest, decode)
  {
    hide Handle;
    assert ([f] + rest)[1..] == rest;
  }

  lemma HandleNone(s: Response, decode: Str -> Seen)
    ensures HandleAll(s, [], decode) == s
  {
  }

  lemma {:induction false} MoreHeadHandled(s: Response, parts: seq<Str>, decode: Str -> Seen)
    ensures var t := HandleAll(s, MoreHeadFrames(parts), decode);
            && t.body == s.body && t.done == s.done
            && (if parts != [] then t.got && t.block == [] && t.seen == decode(s.block + Concat(parts)) else t == s)
    decreases |parts|
  {
    hide Handle, HandleAll, HeadFlags;
    if parts == [] {
      HandleNone(s, decode);
    } else {
      var f := Frame(0x9, HeadFlags(|parts| == 1, false), 1, parts[0]);
      HandleFirst(s, f, MoreHeadFrames(parts[1..]), decode);
      HeadStep(s, 0x9, parts[0], |parts| == 1, false, decode);
      MoreHeadHandled(Handle(s, f, decode), parts[1..], decode);
      ConcatFirst(s.block, parts);
    }
  }

  lemma {:induction false} BodyHandled(s: Response, ps: seq<Piece>, decode: Str -> Seen)
    ensures var t := HandleAll(s, BodyFrames(ps), decode);
            && t.body == s.body + Content(ps) && t.done == (s.done || ps != [])
            && t.got == s.got && t.seen == s.seen && t.block == s.block
    decreases |ps|
  {
    hide Handle, HandleAll, Load, DataFlags;
    if ps == [] {
      HandleNone(s, decode);
    } else {
      var f := Frame(0x0, DataFlags(ps[0], |ps| == 1), 1, Load(ps[0]));
      HandleFirst(s, f, BodyFrames(ps[1..]), decode);
      DataStep(s, ps[0], |ps| == 1, decode);
      BodyHandled(Handle(s, f, decode), ps[1..], decode);
      assert s.body + ps[0].data + Content(ps[1..]) == s.body + Content(ps);
    }
  }

  lemma ReplyHandled(parts: seq<Str>, ps: seq<Piece>, decode: Str -> Seen)
    requires parts != []
    ensures var t := HandleAll(START, ReplyFrames(parts, ps), decode);
            t.done && Answered(t) == Some(Answer(decode(Concat(parts)), Content(ps)))
  {
    hide Handle, HandleAll, HeadFlags, MoreHeadFrames, BodyFrames;
    var f := Frame(0x1, HeadFlags(|parts| == 1, ps == []), 1, parts[0]);
    var more, body := MoreHeadFrames(parts[1..]), BodyFrames(ps);
    HandleFirst(START, f, more + body, decode);
    assert ReplyFrames(parts, ps) == [f] + (more + body);
    var s := Handle(START, f, decode);
    HeadStep(START, 0x1, parts[0], |parts| == 1, ps == [], decode);
    HandleConcat(s, more, body, decode);
    MoreHeadHandled(s, parts[1..], decode);
    BodyHandled(HandleAll(s, more, decode), ps, decode);
    ConcatFirst([], parts);
    assert [] + Concat(parts) == Concat(parts);
    assert [] + parts[0] == parts[0] && [] + Content(ps) == Content(ps);
  }

  // ---------------------------------------------------------------- however it is cut

  /** Every way of cutting the reply gives the answer the server meant. */
  ghost predicate Understood(parts: seq<Str>, ps: seq<Piece>, decode: Str -> Seen)
    requires parts != [] && Fitting(parts) && Sized(ps)
  {
    forall chunks: seq<Str> :: Joined(chunks) == Reply(parts, ps) ==>
      && Received(chunks, decode).done
      && Answered(Received(chunks, decode)) == Some(Answer(decode(Concat(parts)), Content(ps)))
  }

  lemma {:induction false} MoreHeadOpen(parts: seq<Str>)
    ensures forall k :: 0 <= k < |MoreHeadFrames(parts)| ==> !Closes(MoreHeadFrames(parts)[k])
    decreases |parts|
  {
    if parts != [] { MoreHeadOpen(parts[1..]); }
  }

  lemma {:induction false} BodyOpen(ps: seq<Piece>)
    ensures OnlyLastCloses(BodyFrames(ps)) && |BodyFrames(ps)| == |ps|
    decreases |ps|
  {
    hide Load;
    if ps != [] { BodyOpen(ps[1..]); }
  }

  lemma ReplyOpen(parts: seq<Str>, ps: seq<Piece>)
    requires parts != [] && (ps != [] || |parts| == 1)
    ensures OnlyLastCloses(ReplyFrames(parts, ps))
  {
    hide MoreHeadFrames, BodyFrames;
    MoreHeadOpen(parts[1..]);
    BodyOpen(ps);
    if |parts| == 1 { assert MoreHeadFrames(parts[1..]) == [] by { NoMore(parts); } }
  }

  lemma NoMore(parts: seq<Str>)
    requires |parts| == 1
    ensures MoreHeadFrames(parts[1..]) == []
  {
  }

  lemma ReplyUnderstood(parts: seq<Str>, ps: seq<Piece>, decode: Str -> Seen)
    requires parts != [] && Fitting(parts) && Sized(ps) && (ps != [] || |parts| == 1)
    ensures Understood(parts, ps, decode)
  {
    hide Received, HandleAll, Frames, Reply, ReplyFrames, OnlyLastCloses;
    ReplyReads(parts, ps);
    ReplyOpen(parts, ps);
    ReplyHandled(parts, ps, decode);
    forall chunks: seq<Str> | Joined(chunks) == Reply(parts, ps)
      ensures Received(chunks, decode).done
      ensures Answered(Received(chunks, decode)) == Some(Answer(decode(Concat(parts)), Content(ps)))
    {
      CutAnywhere(chunks, chunks, decode);
    }
  }

  /** Without a body the HEADERS frame ends the stream: cut behind it, the rest of the header block is never read. */
  lemma SplitHeadLost(parts: seq<Str>, decode: Str -> Seen)
    requires |parts| > 1 && Fitting(parts)
    ensures var first := Sent(0x1, HeadFlags(false, true), parts[0]);
            && Joined([first, MoreHead(parts[1..])]) == Reply(parts, [])
            && Answered(Received([first, MoreHead(parts[1..])], decode)) == None
  {
    hide Frames, Run, HandleAll, Handle, HeadFlags, MoreHead, Sent;
    var first, f := Sent(0x1, HeadFlags(false, true), parts[0]), Frame(0x1, HeadFlags(false, true), 1, parts[0]);
    SentReads(0x1, HeadFlags(false, true), parts[0], []);
    assert first + [] == first;
    NoFrame();
    HandleFirst(START, f, [], decode);
    assert [f] + [] == [f];
    HeadStep(START, 0x1, parts[0], false, true, decode);
    HandleNone(Handle(START, f, decode), decode);
    StopsBetween(first, MoreHead(parts[1..]), decode);
    assert BodySent([]) == [];
  }

  lemma NoFrame()
    ensures Frames([]) == []
  {
  }

  /** A reply is understood however it is cut exactly when it has a body or its header block fits one frame. */
  lemma UnderstoodIff(parts: seq<Str>, ps: seq<Piece>, decode: Str -> Seen)
    requires parts != [] && Fitting(parts) && Sized(ps)
    ensures Understood(parts, ps, decode) <==> ps != [] || |parts| == 1
  {
    if ps != [] || |parts| == 1 {
      ReplyUnderstood(parts, ps, decode);
    } else {
      hide Received, Joined, Reply, MoreHead, Sent;
      SplitHeadLost(parts, decode);
    }
  }

  /** A header list in literal form, split into frames anywhere, and a body, split and padded anyhow: the caller is
      given the list's status and location and the body, however the bytes arrive. */
  lemma ResponseComesThrough(hs: seq<Hpack.Header>, k: nat, parts: seq<Str>, ps: seq<Piece>, chunks: seq<Str>,
                             huffman: Str -> Str, utf8: Str -> bool)
    requires parts != [] && Fitting(parts) && Sized(ps) && (ps != [] || |parts| == 1)
    requires Concat(parts) == Hpack.BlockBytes(hs) && |Concat(parts)| < U64
    requires k < |hs| && hs[k].name == Hpack.Ascii(":status")
    requires forall j :: k < j < |hs| ==> hs[j].name != Hpack.Ascii(":status")
    requires Joined(chunks) == Reply(parts, ps)
    ensures Answered(Received(chunks, Kept(huffman, utf8))) == Some(Answer(Summary(hs, utf8), Content(ps)))
    ensures Summary(hs, utf8).status == ParseStatus(hs[k].value)
  {
    hide Received, Reply, Decoded, Summary, Hpack.BlockBytes, Hpack.Ascii;
    UnderstoodIff(parts, ps, Kept(huffman, utf8));
    SummaryRoundTrip(hs, huffman, utf8);
    StatusIs(hs, utf8);
  }
}
