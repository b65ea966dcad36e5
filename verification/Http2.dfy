/** Frames of section 4.1 of RFC 7540 and the client's loop over a response that arrives in chunks. */
module Http2 {
  import opened Common
  import Hpack
  import opened HpackCode

  type Str = seq<byte>

  datatype Frame = Frame(kind: byte, flags: byte, stream: nat, payload: Str)

  const DATA: byte := 0
  const HEADERS: byte := 1
  const RST_STREAM: byte := 3
  const SETTINGS: byte := 4
  const PING: byte := 6
  const GOAWAY: byte := 7
  const CONTINUATION: byte := 9
  const REFILL: nat := 32767

  predicate Acks(flags: byte) { flags % 2 == 1 }

  predicate EndsStream(flags: byte) { flags % 2 == 1 }

  predicate EndsHeaders(flags: byte) { flags / 4 % 2 == 1 }

  predicate IsPadded(flags: byte) { flags / 8 % 2 == 1 }

  // ---------------------------------------------------------------- one frame on the wire

  /** Nine bytes of header and the payload; the length field has 24 bits, the stream 31. */
  function FrameBytes(f: Frame): Str {
    var n, s := |f.payload|, f.stream;
    [n / 65536 % 256, n / 256 % 256, n % 256, f.kind, f.flags, s / 0x1_000000 % 128, s / 65536 % 256, s / 256 % 256, s % 256]
    + f.payload
  }

  function Big(a: nat, b: nat, c: nat): nat { a * 65536 + b * 256 + c }

  function Length(s: Str): nat
    requires |s| >= 9
  {
    Big(s[0], s[1], s[2])
  }

  predicate Whole(s: Str) { |s| >= 9 && |s| >= 9 + Length(s) }

  function First(s: Str): Frame
    requires Whole(s)
  {
    Frame(s[3], s[4], 0x1_000000 * (s[5] as int % 128) + Big(s[6], s[7], s[8]), s[9..9 + Length(s)])
  }

  function After(s: Str): Str
    requires Whole(s)
  {
    s[9 + Length(s)..]
  }

  lemma LengthBytes(n: nat)
    requires n < 0x1_000000
    ensures Big(n / 65536 % 256, n / 256 % 256, n % 256) == n
  {
    assert n / 65536 < 256;
    assert n / 256 == n / 65536 * 256 + n / 256 % 256;
  }

  lemma StreamBytes(s: nat)
    requires s < 0x8000_0000
    ensures s / 0x1_000000 % 128 * 0x1_000000 + Big(s / 65536 % 256, s / 256 % 256, s % 256) == s
  {
    assert s / 0x1_000000 < 128;
    assert s / 65536 == s / 0x1_000000 * 256 + s / 65536 % 256;
    assert s / 256 == s / 65536 * 256 + s / 256 % 256;
  }

  lemma FrameReads(f: Frame, rest: Str)
    requires |f.payload| < 0x1_000000 && f.stream < 0x8000_0000
    ensures Whole(FrameBytes(f) + rest) && First(FrameBytes(f) + rest) == f && After(FrameBytes(f) + rest) == rest
  {
    hide Big;
    var s, n := FrameBytes(f) + rest, |f.payload|;
    LengthBytes(n);
    StreamBytes(f.stream);
    assert s[0] == n / 65536 % 256 && s[1] == n / 256 % 256 && s[2] == n % 256;
    assert s[9..9 + n] == f.payload && s[9 + n..] == rest;
  }

  lemma ReadsAreSmall(s: Str)
    requires Whole(s)
    ensures |First(s).payload| < 0x1_000000 && First(s).stream < 0x8000_0000
  {
  }

  ghost predicate ReadBack(f: Frame, rest: Str) {
    var s := FrameBytes(f) + rest;
    Whole(s) && First(s) == f && After(s) == rest
  }

  /** A frame is read back, and what follows is left, exactly when its length and its stream fit their fields. */
  lemma FrameRoundTrip(f: Frame, rest: Str)
    ensures ReadBack(f, rest) <==> |f.payload| < 0x1_000000 && f.stream < 0x8000_0000
  {
    hide FrameBytes, Whole, First, After;
    if |f.payload| < 0x1_000000 && f.stream < 0x8000_0000 { FrameReads(f, rest); }
    if ReadBack(f, rest) { ReadsAreSmall(FrameBytes(f) + rest); }
  }

  /** Section 4.1 of RFC 7540: three bytes of length, one of type, one of flags, four of stream without their top bit. */
  lemma FrameLayout(s: Str)
    requires |s| >= 9
    ensures var n := 0x1_0000 * s[0] as int + 0x100 * s[1] as int + s[2];
            && (Whole(s) <==> |s| >= 9 + n)
            && (Whole(s) ==>
                  && First(s).kind == s[3] && First(s).flags == s[4] && First(s).payload == s[9..9 + n] && After(s) == s[9 + n..]
                  && First(s).stream == (0x100_0000 * s[5] as int + 0x1_0000 * s[6] as int + 0x100 * s[7] as int + s[8]) % 0x8000_0000)
  {
    TopBit(s[5], s[6], s[7], s[8]);
  }

  lemma TopBit(a: nat, b: nat, c: nat, d: nat)
    requires a < 256 && b < 256 && c < 256 && d < 256
    ensures (0x100_0000 * a + 0x1_0000 * b + 0x100 * c + d) % 0x8000_0000 == 0x1_000000 * (a % 128) + Big(b, c, d)
  {
    var low := 0x1_000000 * (a % 128) + Big(b, c, d);
    assert 0x100_0000 * a + 0x1_0000 * b + 0x100 * c + d == 0x8000_0000 * (a / 128) + low;
  }

  // ---------------------------------------------------------------- every whole frame of a buffer

  function Frames(s: Str): seq<Frame>
    decreases |s|
  {
    if Whole(s) then [First(s)] + Frames(After(s)) else []
  }

  function Rest(s: Str): Str
    decreases |s|
  {
    if Whole(s) then Rest(After(s)) else s
  }

  lemma WholeAppend(a: Str, b: Str)
    requires Whole(a)
    ensures Whole(a + b) && First(a + b) == First(a) && After(a + b) == After(a) + b
  {
  }

  /** Frames are found in the same places when bytes arrive later. */
  lemma {:induction false} FramesAppend(a: Str, b: Str)
    ensures Frames(a + b) == Frames(a) + Frames(Rest(a) + b) && Rest(a + b) == Rest(Rest(a) + b)
    decreases |a|
  {
    hide First, After;
    if Whole(a) {
      WholeAppend(a, b);
      AfterShorter(a);
      FramesAppend(After(a), b);
    }
  }

  lemma AfterShorter(a: Str)
    requires Whole(a)
    ensures |After(a)| < |a|
  {
  }

  /** A buffer splits where its first `k` frames end. */
  lemma {:induction false} FramesSplit(s: Str, k: nat) returns (p: Str, r: Str)
    requires k <= |Frames(s)|
    ensures s == p + r && Frames(p) == Frames(s)[..k] && Rest(p) == []
    decreases k
  {
    if k == 0 {
      p, r := [], s;
    } else {
      var q;
      q, r := FramesSplit(After(s), k - 1);
      p := s[..9 + Length(s)] + q;
      assert Whole(p) && First(p) == First(s) && After(p) == q;
    }
  }

  // ---------------------------------------------------------------- what a frame does

  datatype Message = SettingsAck | WindowUpdate(stream: nat, increment: nat) | Pong(payload: Str)

  /** The bytes of a message to the server. */
  function Wire(m: Message): Str {
    match m
    case SettingsAck => FrameBytes(Frame(SETTINGS, 1, 0, []))
    case WindowUpdate(s, n) =>
      FrameBytes(Frame(8, 0, s, [n / 0x1_000000 % 128, n / 65536 % 256, n / 256 % 256, n % 256]))
    case Pong(p) => FrameBytes(Frame(PING, 1, 0, p))
  }

  /** The bytes of the three messages: sections 6.5, 6.7 and 6.9 of RFC 7540. */
  lemma WireMeans(stream: nat, n: nat, p: Str)
    requires stream < 0x8000_0000 && n < 0x8000_0000 && |p| == 8
    ensures Wire(SettingsAck) == [0, 0, 0, 4, 1, 0, 0, 0, 0]
    ensures Wire(Pong(p)) == [0, 0, 8, 6, 1, 0, 0, 0, 0] + p
    ensures Wire(WindowUpdate(stream, n)) ==
            [0, 0, 4, 8, 0, stream / 0x100_0000, stream / 0x1_0000 % 256, stream / 0x100 % 256, stream % 256,
             n / 0x100_0000, n / 0x1_0000 % 256, n / 0x100 % 256, n % 256]
  {
  }

  datatype Response = Response(seen: Seen, body: Str, block: Str, got: bool, done: bool,
                               streamRecv: nat, connRecv: nat, sent: seq<Message>)

  const START: Response := Response(NOTHING, [], [], false, false, 0, 0, [])

  function Body(f: Frame): Str {
    if IsPadded(f.flags) && f.payload != [] then
      var end := if f.payload[0] <= |f.payload| then |f.payload| - f.payload[0] else 0;
      if end > 1 then f.payload[1..end] else []
    else f.payload
  }

  function AddBlock(s: Response, f: Frame, decode: Str -> Seen): Response {
    var block := s.block + f.payload;
    if EndsHeaders(f.flags) then s.(seen := decode(block), block := [], got := true)
    else s.(block := block)
  }

  function Saturate(n: nat): nat { if n < U32 then n else U32 - 1 }

  /** What a counter becomes, and the window update it sends, when `n` more bytes arrived. */
  function Counted(recv: nat, n: nat, stream: nat): (nat, seq<Message>) {
    var r := Saturate(recv + n);
    if r >= REFILL then (0, [WindowUpdate(stream, r)]) else (r, [])
  }

  function AddData(s: Response, f: Frame): Response {
    var (sr, m1) := Counted(s.streamRecv, |f.payload|, 1);
    var (cr, m0) := Counted(s.connRecv, |f.payload|, 0);
    s.(body := s.body + Body(f), streamRecv := sr, connRecv := cr, sent := s.sent + m1 + m0)
  }

  function Handle(s: Response, f: Frame, decode: Str -> Seen): Response {
    if f.kind == SETTINGS && !Acks(f.flags) then s.(sent := s.sent + [SettingsAck])
    else if f.kind == HEADERS && f.stream == 1 then
      var t := AddBlock(s, f, decode);
      if EndsStream(f.flags) then t.(done := true) else t
    else if f.kind == CONTINUATION && f.stream == 1 then AddBlock(s, f, decode)
    else if f.kind == DATA && f.stream == 1 then
      var t := AddData(s, f);
      if EndsStream(f.flags) then t.(done := true) else t
    else if f.kind == RST_STREAM || f.kind == GOAWAY then s.(done := true)
    else if f.kind == PING && !Acks(f.flags) then s.(sent := s.sent + [Pong(f.payload)])
    else s
  }

  function HandleAll(s: Response, fs: seq<Frame>, decode: Str -> Seen): Response
    decreases |fs|
  {
    if fs == [] then s else HandleAll(Handle(s, fs[0], decode), fs[1..], decode)
  }

  lemma {:induction false} HandleConcat(s: Response, a: seq<Frame>, b: seq<Frame>, decode: Str -> Seen)
    ensures HandleAll(s, a + b, decode) == HandleAll(HandleAll(s, a, decode), b, decode)
    decreases |a|
  {
    hide Handle;
    if a == [] {
      assert a + b == b;
    } else {
      assert (a + b)[1..] == a[1..] + b;
      HandleConcat(Handle(s, a[0], decode), a[1..], b, decode);
    }
  }

  // ---------------------------------------------------------------- flow control

  /** Bytes of data the server has been charged for. */
  function Charged(fs: seq<Frame>): nat {
    if fs == [] then 0
    else Charged(fs[..|fs| - 1]) + (if fs[|fs| - 1].kind == DATA && fs[|fs| - 1].stream == 1 then |fs[|fs| - 1].payload| else 0)
  }

  function Returned(ms: seq<Message>, stream: nat): nat {
    if ms == [] then 0
    else Returned(ms[..|ms| - 1], stream)
         + (if ms[|ms| - 1].WindowUpdate? && ms[|ms| - 1].stream == stream then ms[|ms| - 1].increment else 0)
  }

  lemma {:induction false} ReturnedConcat(a: seq<Message>, b: seq<Message>, stream: nat)
    ensures Returned(a + b, stream) == Returned(a, stream) + Returned(b, stream)
    decreases |b|
  {
    if b == [] {
      assert a + b == a;
    } else {
      assert (a + b)[..|a + b| - 1] == a + b[..|b| - 1];
      ReturnedConcat(a, b[..|b| - 1], stream);
    }
  }

  ghost predicate Short(fs: seq<Frame>) { forall k :: 0 <= k < |fs| ==> |fs[k].payload| < 0x1_000000 }

  lemma CountedKeeps(recv: nat, n: nat, stream: nat, other: nat)
    requires recv < REFILL && n < 0x1_000000
    ensures Counted(recv, n, stream).0 < REFILL
    ensures Counted(recv, n, stream).0 + Returned(Counted(recv, n, stream).1, stream) == recv + n
    ensures other != stream ==> Returned(Counted(recv, n, stream).1, other) == 0
  {
  }

  ghost predicate Balanced(s: Response, charged: nat) {
    && s.streamRecv < REFILL && s.connRecv < REFILL
    && Returned(s.sent, 1) + s.streamRecv == charged && Returned(s.sent, 0) + s.connRecv == charged
  }

  lemma HandleBalances(s: Response, f: Frame, decode: Str -> Seen, charged: nat)
    requires Balanced(s, charged) && |f.payload| < 0x1_000000
    ensures Balanced(Handle(s, f, decode), charged + (if f.kind == DATA && f.stream == 1 then |f.payload| else 0))
  {
    hide Counted, Returned, Body;
    var n := |f.payload|;
    var m1, m0 := Counted(s.streamRecv, n, 1).1, Counted(s.connRecv, n, 0).1;
    CountedKeeps(s.streamRecv, n, 1, 0);
    CountedKeeps(s.connRecv, n, 0, 1);
    ReturnedConcat(s.sent + m1, m0, 0);
    ReturnedConcat(s.sent + m1, m0, 1);
    ReturnedConcat(s.sent, m1, 0);
    ReturnedConcat(s.sent, m1, 1);
    QuietReturns(s.sent, SettingsAck);
    QuietReturns(s.sent, Pong(f.payload));
  }

  lemma QuietReturns(ms: seq<Message>, m: Message)
    requires !m.WindowUpdate?
    ensures Returned(ms + [m], 0) == Returned(ms, 0) && Returned(ms + [m], 1) == Returned(ms, 1)
  {
    assert (ms + [m])[..|ms|] == ms;
  }

  /**
   The window the server sees never closes for good: after any frames, on the
   stream and on the connection alike, all data received but for less than the
   refill mark has been granted again, and never a byte more.
   */
  lemma {:induction false} WindowsRefilled(fs: seq<Frame>, decode: Str -> Seen)
    requires Short(fs)
    ensures Balanced(HandleAll(START, fs, decode), Charged(fs))
    decreases |fs|
  {
    hide Handle;
    if fs != [] {
      var front, f := fs[..|fs| - 1], fs[|fs| - 1];
      assert fs == front + [f];
      WindowsRefilled(front, decode);
      HandleConcat(START, front, [f], decode);
      HandleBalances(HandleAll(START, front, decode), f, decode, Charged(front));
    }
  }

  lemma {:induction false} ParsedAreShort(s: Str)
    ensures Short(Frames(s))
    decreases |s|
  {
    if Whole(s) { ParsedAreShort(After(s)); }
  }

  // ---------------------------------------------------------------- chunks

  /** The loop: nothing more is received once a frame said the stream is done. */
  function Run(s: Response, buf: Str, chunks: seq<Str>, decode: Str -> Seen): Response
    decreases |chunks|
  {
    if s.done || chunks == [] then s
    else Run(HandleAll(s, Frames(buf + chunks[0]), decode), Rest(buf + chunks[0]), chunks[1..], decode)
  }

  function Joined(chunks: seq<Str>): Str { if chunks == [] then [] else chunks[0] + Joined(chunks[1..]) }

  function Handled(s: Str, decode: Str -> Seen): Response { HandleAll(START, Frames(s), decode) }

  /** Every run handles the frames of a prefix of the bytes: all of them, or one that reaches the end of the stream. */
  lemma {:induction false} RunHandlesPrefix(seen: Str, chunks: seq<Str>, decode: Str -> Seen) returns (k: nat)
    ensures k <= |Frames(seen + Joined(chunks))|
    ensures Run(Handled(seen, decode), Rest(seen), chunks, decode) == HandleAll(START, Frames(seen + Joined(chunks))[..k], decode)
    ensures k == |Frames(seen + Joined(chunks))| || Run(Handled(seen, decode), Rest(seen), chunks, decode).done
    decreases |chunks|
  {
    hide Frames, Rest, HandleAll;
    FramesAppend(seen, Joined(chunks));
    if Handled(seen, decode).done || chunks == [] {
      k := |Frames(seen)|;
      assert Frames(seen + Joined(chunks))[..k] == Frames(seen);
      assert chunks == [] ==> seen + Joined(chunks) == seen;
    } else {
      var c := chunks[0];
      FramesAppend(seen, c);
      HandleConcat(START, Frames(seen), Frames(Rest(seen) + c), decode);
      assert seen + c + Joined(chunks[1..]) == seen + Joined(chunks);
      k := RunHandlesPrefix(seen + c, chunks[1..], decode);
    }
  }

  function Received(chunks: seq<Str>, decode: Str -> Seen): Response { Run(START, [], chunks, decode) }

  lemma ReceivedPrefix(chunks: seq<Str>, decode: Str -> Seen) returns (k: nat)
    ensures k <= |Frames(Joined(chunks))|
    ensures Received(chunks, decode) == HandleAll(START, Frames(Joined(chunks))[..k], decode)
    ensures k == |Frames(Joined(chunks))| || Received(chunks, decode).done
  {
    hide Run, HandleAll;
    assert [] + Joined(chunks) == Joined(chunks);
    NoFrames(decode);
    k := RunHandlesPrefix([], chunks, decode);
  }

  /** Flow control over every run, however the bytes were cut. */
  lemma RunsRefill(chunks: seq<Str>, decode: Str -> Seen) returns (k: nat)
    ensures k <= |Frames(Joined(chunks))|
    ensures Received(chunks, decode) == HandleAll(START, Frames(Joined(chunks))[..k], decode)
    ensures Balanced(Received(chunks, decode), Charged(Frames(Joined(chunks))[..k]))
  {
    hide Run, HandleAll, Balanced, Frames;
    k := ReceivedPrefix(chunks, decode);
    ParsedAreShort(Joined(chunks));
    WindowsRefilled(Frames(Joined(chunks))[..k], decode);
  }

  /** The increment survives the wire: what was granted is what the server reads. */
  lemma UpdateReads(stream: nat, increment: nat)
    requires stream < 0x8000_0000 && increment < 0x8000_0000
    ensures Whole(Wire(WindowUpdate(stream, increment)))
    ensures var f := First(Wire(WindowUpdate(stream, increment)));
            f.kind == 8 && f.stream == stream && |f.payload| == 4
            && 0x1_000000 * (f.payload[0] as int) + Big(f.payload[1], f.payload[2], f.payload[3]) == increment
  {
    hide FrameBytes, Whole, First, After;
    var n := increment;
    var f := Frame(8, 0, stream, [n / 0x1_000000 % 128, n / 65536 % 256, n / 256 % 256, n % 256]);
    FrameReads(f, []);
    assert FrameBytes(f) + [] == FrameBytes(f);
    StreamBytes(n);
  }

  lemma NoFrames(decode: Str -> Seen)
    ensures Handled([], decode) == START && Rest([]) == []
  {
  }

  // ---------------------------------------------------------------- what the frames themselves say

  /** A frame that ends the stream. */
  predicate Closes(f: Frame) {
    || ((f.kind == HEADERS || f.kind == DATA) && f.stream == 1 && EndsStream(f.flags))
    || f.kind == RST_STREAM || f.kind == GOAWAY
  }

  ghost predicate AnyCloses(fs: seq<Frame>) { exists k :: 0 <= k < |fs| && Closes(fs[k]) }

  lemma HandleCloses(s: Response, f: Frame, decode: Str -> Seen)
    ensures Handle(s, f, decode).done <==> s.done || Closes(f)
  {
    hide Counted, Body;
  }

  lemma HandleLast(fs: seq<Frame>, decode: Str -> Seen)
    requires fs != []
    ensures HandleAll(START, fs, decode) == Handle(HandleAll(START, fs[..|fs| - 1], decode), fs[|fs| - 1], decode)
  {
    hide Handle;
    var front, f := fs[..|fs| - 1], fs[|fs| - 1];
    assert fs == front + [f];
    HandleConcat(START, front, [f], decode);
    assert HandleAll(HandleAll(START, front, decode), [f], decode) == HandleAll(Handle(HandleAll(START, front, decode), f, decode), [], decode);
  }

  /** The loop stops exactly for a closing frame. */
  lemma {:induction false} DoneIff(fs: seq<Frame>, decode: Str -> Seen)
    ensures HandleAll(START, fs, decode).done <==> AnyCloses(fs)
    decreases |fs|
  {
    hide Handle, Closes;
    if fs != [] {
      var front, f := fs[..|fs| - 1], fs[|fs| - 1];
      HandleLast(fs, decode);
      DoneIff(front, decode);
      HandleCloses(HandleAll(START, front, decode), f, decode);
      hide HandleAll;
      assert forall k :: 0 <= k < |front| ==> fs[k] == front[k];
      if AnyCloses(front) { var k :| 0 <= k < |front| && Closes(front[k]); assert Closes(fs[k]); }
      if AnyCloses(fs) { var k :| 0 <= k < |fs| && Closes(fs[k]); assert k < |front| ==> Closes(front[k]); }
    }
  }

  predicate IsHeader(f: Frame) { (f.kind == HEADERS || f.kind == CONTINUATION) && f.stream == 1 }

  /** Header bytes whose block has not ended. */
  function Pending(fs: seq<Frame>): Str {
    if fs == [] then []
    else
      var front, f := fs[..|fs| - 1], fs[|fs| - 1];
      if !IsHeader(f) then Pending(front) else if EndsHeaders(f.flags) then [] else Pending(front) + f.payload
  }

  /** The bytes of the last header block that ended. */
  function Finished(fs: seq<Frame>): Option<Str> {
    if fs == [] then None
    else
      var front, f := fs[..|fs| - 1], fs[|fs| - 1];
      if IsHeader(f) && EndsHeaders(f.flags) then Some(Pending(front) + f.payload) else Finished(front)
  }

  ghost predicate Tells(s: Response, fs: seq<Frame>, decode: Str -> Seen) {
    && s.streamRecv < REFILL && s.connRecv < REFILL && s.block == Pending(fs) && s.got == Finished(fs).Some?
    && s.seen == if Finished(fs).Some? then decode(Finished(fs).value) else NOTHING
  }

  lemma HandleTells(s: Response, front: seq<Frame>, f: Frame, decode: Str -> Seen)
    requires Tells(s, front, decode)
    ensures Tells(Handle(s, f, decode), front + [f], decode)
  {
    hide Pending, Finished, AddData;
    TellsNext(front, f);
    if IsHeader(f) {
      BlockTells(s, f, decode);
    } else {
      DataTells(s, f);
    }
  }

  lemma TellsNext(front: seq<Frame>, f: Frame)
    ensures Pending(front + [f]) ==
            if !IsHeader(f) then Pending(front) else if EndsHeaders(f.flags) then [] else Pending(front) + f.payload
    ensures Finished(front + [f]) ==
            if IsHeader(f) && EndsHeaders(f.flags) then Some(Pending(front) + f.payload) else Finished(front)
  {
    assert (front + [f])[..|front|] == front;
  }

  lemma BlockTells(s: Response, f: Frame, decode: Str -> Seen)
    ensures var t := AddBlock(s, f, decode);
            && t.streamRecv == s.streamRecv && t.connRecv == s.connRecv
            && t.block == (if EndsHeaders(f.flags) then [] else s.block + f.payload)
            && t.got == (s.got || EndsHeaders(f.flags))
            && t.seen == (if EndsHeaders(f.flags) then decode(s.block + f.payload) else s.seen)
  {
  }

  lemma DataTells(s: Response, f: Frame)
    ensures var t := AddData(s, f);
            t.streamRecv < REFILL && t.connRecv < REFILL && t.block == s.block && t.got == s.got && t.seen == s.seen
  {
    hide Counted, Body;
    LowAfter(s.streamRecv, |f.payload|, 1);
    LowAfter(s.connRecv, |f.payload|, 0);
  }

  lemma LowAfter(recv: nat, n: nat, stream: nat)
    ensures Counted(recv, n, stream).0 < REFILL
  {
  }

  lemma {:induction false} StateTells(fs: seq<Frame>, decode: Str -> Seen)
    ensures Tells(HandleAll(START, fs, decode), fs, decode)
    decreases |fs|
  {
    hide Handle;
    if fs != [] {
      var front, f := fs[..|fs| - 1], fs[|fs| - 1];
      HandleLast(fs, decode);
      StateTells(front, decode);
      HandleTells(HandleAll(START, front, decode), front, f, decode);
      assert front + [f] == fs;
    }
  }

  /** A frame that changes nothing behind the frames `before`: an acknowledgement, empty data, an empty unfinished header
      frame, a header block that says again what the last one said, or a frame of another kind or stream. */
  predicate Inert(before: seq<Frame>, f: Frame, decode: Str -> Seen) {
    if f.kind == SETTINGS || f.kind == PING then Acks(f.flags)
    else if IsHeader(f) then
      if EndsHeaders(f.flags)
      then Pending(before) == [] && Finished(before).Some?
           && decode(f.payload) == decode(Finished(before).value)
      else f.payload == []
    else f.kind == DATA && f.stream == 1 ==> f.payload == []
  }

  lemma DataChanges(s: Response, f: Frame)
    requires s.streamRecv < REFILL && s.connRecv < REFILL
    ensures AddData(s, f) == s <==> f.payload == []
  {
    if f.payload == [] {
      assert s.body + Body(f) == s.body && s.sent + [] + [] == s.sent;
    } else {
      var (sr, m1) := Counted(s.streamRecv, |f.payload|, 1);
      var (cr, m0) := Counted(s.connRecv, |f.payload|, 0);
      assert m1 == [] ==> sr > s.streamRecv;
      assert |s.sent + m1 + m0| == |s.sent| + |m1| + |m0|;
    }
  }

  lemma BlockChanges(s: Response, f: Frame, fs: seq<Frame>, decode: Str -> Seen)
    requires Tells(s, fs, decode) && IsHeader(f)
    ensures AddBlock(s, f, decode) == s <==> Inert(fs, f, decode)
  {
    assert |s.block + f.payload| == |s.block| + |f.payload|;
    assert f.payload == [] ==> s.block + f.payload == s.block;
    assert s.block == [] ==> s.block + f.payload == f.payload;
  }

  lemma InertIff(s: Response, fs: seq<Frame>, f: Frame, decode: Str -> Seen)
    requires Tells(s, fs, decode) && s.done
    ensures Handle(s, f, decode) == s <==> Inert(fs, f, decode)
  {
    hide AddData, AddBlock;
    if IsHeader(f) {
      BlockChanges(s, f, fs, decode);
      BlockKeepsDone(s, f, decode);
    } else {
      DataChanges(s, f);
      DataKeepsDone(s, f);
      assert |s.sent + [SettingsAck]| == |s.sent| + 1 && |s.sent + [Pong(f.payload)]| == |s.sent| + 1;
    }
  }

  lemma BlockKeepsDone(s: Response, f: Frame, decode: Str -> Seen)
    ensures AddBlock(s, f, decode).done == s.done
  {
  }

  lemma DataKeepsDone(s: Response, f: Frame)
    ensures AddData(s, f).done == s.done
  {
    hide Counted, Body;
  }

  function FirstClose(fs: seq<Frame>): (k: nat)
    ensures k <= |fs| && (k < |fs| ==> Closes(fs[k])) && forall j :: 0 <= j < k ==> !Closes(fs[j])
  {
    if fs == [] then 0
    else
      var k := FirstClose(fs[..|fs| - 1]);
      if k < |fs| - 1 || Closes(fs[|fs| - 1]) then k else |fs|
  }

  lemma DoneFrom(fs: seq<Frame>, k: nat, decode: Str -> Seen)
    requires k <= |fs|
    ensures HandleAll(START, fs[..k], decode).done <==> k > FirstClose(fs)
  {
    hide HandleAll, FirstClose, Closes;
    DoneIff(fs[..k], decode);
    var c := FirstClose(fs);
    if c < k {
      assert fs[..k][c] == fs[c];
    } else {
      assert forall j :: 0 <= j < k ==> fs[..k][j] == fs[j];
    }
  }

  /** Behind the frame that ends the stream only frames that change nothing. */
  ghost predicate Quiet(fs: seq<Frame>, decode: Str -> Seen) {
    forall j :: FirstClose(fs) < j < |fs| ==> Inert(fs[..FirstClose(fs) + 1], fs[j], decode)
  }

  /** Frames after the end of the stream change nothing. */
  ghost predicate Settles(fs: seq<Frame>, decode: Str -> Seen) {
    forall k :: 0 <= k <= |fs| && HandleAll(START, fs[..k], decode).done
                ==> HandleAll(START, fs[..k], decode) == HandleAll(START, fs, decode)
  }

  lemma {:induction false} QuietStays(fs: seq<Frame>, k: nat, decode: Str -> Seen)
    requires Quiet(fs, decode) && FirstClose(fs) < k <= |fs|
    ensures HandleAll(START, fs[..k], decode) == HandleAll(START, fs[..FirstClose(fs) + 1], decode)
    decreases k
  {
    hide HandleAll, Handle, FirstClose, Inert, Tells;
    var c := FirstClose(fs);
    if k > c + 1 {
      QuietStays(fs, k - 1, decode);
      HandleLast(fs[..k], decode);
      assert fs[..k][..k - 1] == fs[..k - 1];
      StateTells(fs[..c + 1], decode);
      DoneFrom(fs, c + 1, decode);
      InertIff(HandleAll(START, fs[..c + 1], decode), fs[..c + 1], fs[k - 1], decode);
    }
  }

  lemma SettlesAt(fs: seq<Frame>, k: nat, decode: Str -> Seen)
    requires Settles(fs, decode) && FirstClose(fs) < k <= |fs|
    ensures HandleAll(START, fs[..k], decode) == HandleAll(START, fs, decode) && HandleAll(START, fs[..k], decode).done
  {
    hide HandleAll, FirstClose;
    DoneFrom(fs, k, decode);
  }

  lemma SettledIsQuiet(fs: seq<Frame>, j: nat, decode: Str -> Seen)
    requires Settles(fs, decode) && FirstClose(fs) < j < |fs|
    ensures Inert(fs[..FirstClose(fs) + 1], fs[j], decode)
  {
    hide HandleAll, Handle, FirstClose, Inert, Tells, Settles;
    var c := FirstClose(fs);
    SettlesAt(fs, c + 1, decode);
    SettlesAt(fs, j, decode);
    SettlesAt(fs, j + 1, decode);
    HandleLast(fs[..j + 1], decode);
    assert fs[..j + 1][..j] == fs[..j];
    StateTells(fs[..c + 1], decode);
    InertIff(HandleAll(START, fs[..c + 1], decode), fs[..c + 1], fs[j], decode);
  }

  lemma SettlesIff(fs: seq<Frame>, decode: Str -> Seen)
    ensures Settles(fs, decode) <==> Quiet(fs, decode)
  {
    hide HandleAll, FirstClose, Inert;
    if Settles(fs, decode) {
      forall j | FirstClose(fs) < j < |fs| ensures Inert(fs[..FirstClose(fs) + 1], fs[j], decode) { SettledIsQuiet(fs, j, decode); }
    }
    if Quiet(fs, decode) {
      assert fs[..|fs|] == fs;
      forall k | 0 <= k <= |fs| && HandleAll(START, fs[..k], decode).done
        ensures HandleAll(START, fs[..k], decode) == HandleAll(START, fs, decode)
      {
        DoneFrom(fs, k, decode);
        QuietStays(fs, k, decode);
        QuietStays(fs, |fs|, decode);
      }
    }
  }

  // ---------------------------------------------------------------- however the bytes were cut

  ghost predicate SameForAll(bytes: Str, decode: Str -> Seen) {
    forall chunks: seq<Str> :: Joined(chunks) == bytes ==> Received(chunks, decode) == Handled(bytes, decode)
  }

  lemma SameIffSettles(bytes: Str, decode: Str -> Seen)
    ensures SameForAll(bytes, decode) <==> Settles(Frames(bytes), decode)
  {
    hide HandleAll, Run;
    var fs := Frames(bytes);
    assert fs[..|fs|] == fs;
    if Settles(fs, decode) {
      forall chunks: seq<Str> | Joined(chunks) == bytes ensures Received(chunks, decode) == Handled(bytes, decode) {
        var k := ReceivedPrefix(chunks, decode);
      }
    }
    if SameForAll(bytes, decode) {
      forall k | 0 <= k <= |fs| && HandleAll(START, fs[..k], decode).done
        ensures HandleAll(START, fs[..k], decode) == HandleAll(START, fs, decode)
      {
        var p, r := FramesSplit(bytes, k);
        StopsBetween(p, r, decode);
      }
    }
  }

  /** The response does not depend on how its bytes were cut exactly when only inert frames follow the one that ends the stream. */
  lemma ChunksDoNotMatter(bytes: Str, decode: Str -> Seen)
    ensures SameForAll(bytes, decode) <==> Quiet(Frames(bytes), decode)
  {
    hide SameForAll, Settles, Quiet;
    SameIffSettles(bytes, decode);
    SettlesIff(Frames(bytes), decode);
  }

  /** The frames a run handles, which stop behind a closing one. */
  ghost function Taken(seen: seq<Frame>, buf: Str, chunks: seq<Str>): seq<Frame>
    decreases |chunks|
  {
    if AnyCloses(seen) || chunks == [] then seen else Taken(seen + Frames(buf + chunks[0]), Rest(buf + chunks[0]), chunks[1..])
  }

  lemma {:induction false} RunTakes(seen: seq<Frame>, buf: Str, chunks: seq<Str>, decode: Str -> Seen)
    ensures Run(HandleAll(START, seen, decode), buf, chunks, decode) == HandleAll(START, Taken(seen, buf, chunks), decode)
    decreases |chunks|
  {
    hide HandleAll, Frames, Rest, AnyCloses;
    DoneIff(seen, decode);
    if !AnyCloses(seen) && chunks != [] {
      HandleConcat(START, seen, Frames(buf + chunks[0]), decode);
      RunTakes(seen + Frames(buf + chunks[0]), Rest(buf + chunks[0]), chunks[1..], decode);
    }
  }

  lemma {:induction false} TakenPrefix(seen: Str, chunks: seq<Str>) returns (k: nat)
    ensures k <= |Frames(seen + Joined(chunks))| && Taken(Frames(seen), Rest(seen), chunks) == Frames(seen + Joined(chunks))[..k]
    ensures k == |Frames(seen + Joined(chunks))| || AnyCloses(Frames(seen + Joined(chunks))[..k])
    decreases |chunks|
  {
    hide Frames, Rest, AnyCloses;
    FramesAppend(seen, Joined(chunks));
    if AnyCloses(Frames(seen)) || chunks == [] {
      k := |Frames(seen)|;
      assert Frames(seen + Joined(chunks))[..k] == Frames(seen);
      assert chunks == [] ==> seen + Joined(chunks) == seen;
    } else {
      var c := chunks[0];
      FramesAppend(seen, c);
      assert seen + c + Joined(chunks[1..]) == seen + Joined(chunks);
      k := TakenPrefix(seen + c, chunks[1..]);
    }
  }

  ghost predicate OnlyLastCloses(fs: seq<Frame>) { forall k :: 0 <= k < |fs| - 1 ==> !Closes(fs[k]) }

  ghost predicate AllTaken(bytes: Str) { forall chunks: seq<Str> :: Joined(chunks) == bytes ==> Taken([], [], chunks) == Frames(bytes) }

  lemma NothingTaken()
    ensures Frames([]) == [] && Rest([]) == []
  {
  }

  lemma TakenOf(chunks: seq<Str>) returns (k: nat)
    ensures k <= |Frames(Joined(chunks))| && Taken([], [], chunks) == Frames(Joined(chunks))[..k]
    ensures k == |Frames(Joined(chunks))| || AnyCloses(Frames(Joined(chunks))[..k])
  {
    hide Taken, Frames, AnyCloses;
    NothingTaken();
    assert [] + Joined(chunks) == Joined(chunks);
    k := TakenPrefix([], chunks);
  }

  lemma TakenStops(p: Str, r: Str)
    requires AnyCloses(Frames(p))
    ensures Joined([p, r]) == p + r && Taken([], [], [p, r]) == Frames(p)
  {
    hide Frames, Rest;
    assert [p, r][1..] == [r] && [r][1..] == [];
    assert Joined([r]) == r + Joined([]);
    assert [] + p == p && [] + Frames(p) == Frames(p);
    assert Taken([], [], [p, r]) == Taken(Frames(p), Rest(p), [r]);
  }

  /** Which frames are handled does not depend on how the bytes were cut exactly when no whole frame follows a closing one. */
  lemma FramesHandledIff(bytes: Str)
    ensures AllTaken(bytes) <==> OnlyLastCloses(Frames(bytes))
  {
    hide Taken, Frames, Closes;
    var fs := Frames(bytes);
    if OnlyLastCloses(fs) {
      forall chunks: seq<Str> | Joined(chunks) == bytes ensures Taken([], [], chunks) == fs {
        var k := TakenOf(chunks);
        EarlyNone(fs, k);
        assert fs[..|fs|] == fs;
      }
    }
    if AllTaken(bytes) {
      forall k | 0 <= k < |fs| - 1 ensures !Closes(fs[k]) {
        var p, r := FramesSplit(bytes, k + 1);
        if Closes(fs[k]) { ClosesThere(fs, k); TakenStops(p, r); }
      }
    }
  }

  lemma EarlyNone(fs: seq<Frame>, k: nat)
    requires OnlyLastCloses(fs) && k <= |fs|
    ensures k < |fs| ==> !AnyCloses(fs[..k])
  {
    hide Closes;
  }

  lemma ClosesThere(fs: seq<Frame>, k: nat)
    requires k < |fs| && Closes(fs[k])
    ensures AnyCloses(fs[..k + 1])
  {
    assert fs[..k + 1][k] == fs[k];
  }

  lemma StopsBetween(p: Str, r: Str, decode: Str -> Seen)
    requires Handled(p, decode).done
    ensures Joined([p, r]) == p + r && Received([p, r], decode) == Handled(p, decode)
  {
    hide HandleAll, Frames, Rest;
    assert [p, r][1..] == [r] && [r][1..] == [];
    assert Joined([r]) == r + Joined([]);
    assert [] + p == p;
    assert Run(START, [], [p, r], decode) == Run(Handled(p, decode), Rest(p), [r], decode);
  }

  lemma TogetherHandled(p: Str, decode: Str -> Seen)
    ensures Received([p], decode) == Handled(p, decode)
  {
    hide HandleAll, Frames, Rest;
    assert [] + p == p;
    assert Run(START, [], [p], decode) == Run(Handled(p, decode), Rest(p), [], decode);
  }

  /** A response in which only the last whole frame may end the stream is the same however it was cut. */
  lemma CutAnywhere(a: seq<Str>, b: seq<Str>, decode: Str -> Seen)
    requires Joined(a) == Joined(b) && OnlyLastCloses(Frames(Joined(a)))
    ensures Received(a, decode) == Received(b, decode) == Handled(Joined(a), decode)
  {
    hide Run, HandleAll, Taken, Frames, OnlyLastCloses;
    FramesHandledIff(Joined(a));
    RunTakes([], [], a, decode);
    RunTakes([], [], b, decode);
    assert HandleAll(START, [], decode) == START by { NoFrames(decode); NothingTaken(); }
  }

  const LAST: Str := [0, 0, 0, 0, 1, 0, 0, 0, 1]
  const LATE: Str := [0, 0, 1, 0, 0, 0, 0, 0, 1, 65]

  const LAST_FRAME: Frame := Frame(DATA, 1, 1, [])
  const LATE_FRAME: Frame := Frame(DATA, 0, 1, [65])

  lemma LateFrames()
    ensures Frames(LAST) == [LAST_FRAME] && Frames(LAST + LATE) == [LAST_FRAME, LATE_FRAME]
  {
    hide Whole, First, After;
    assert FrameBytes(LAST_FRAME) == LAST && FrameBytes(LATE_FRAME) == LATE;
    FrameReads(LAST_FRAME, []);
    FrameReads(LATE_FRAME, []);
    FrameReads(LAST_FRAME, LATE);
    assert LAST + [] == LAST && LATE + [] == LATE;
    NoneWhole();
    assert Frames(LATE) == [LATE_FRAME] + Frames([]);
    assert Frames(LAST) == [LAST_FRAME] + Frames([]);
  }

  lemma NoneWhole()
    ensures !Whole([])
  {
  }

  lemma LateBody(decode: Str -> Seen)
    ensures HandleAll(START, [LAST_FRAME], decode).done && HandleAll(START, [LAST_FRAME], decode).body == []
    ensures HandleAll(START, [LAST_FRAME, LATE_FRAME], decode).body == [65]
  {
    hide Handle;
    var s := Handle(START, LAST_FRAME, decode);
    LateSteps(s, decode);
    assert HandleAll(START, [LAST_FRAME], decode) == HandleAll(s, [], decode);
    HandleConcat(START, [LAST_FRAME], [LATE_FRAME], decode);
    assert [LAST_FRAME] + [LATE_FRAME] == [LAST_FRAME, LATE_FRAME];
    assert HandleAll(s, [LATE_FRAME], decode) == HandleAll(Handle(s, LATE_FRAME, decode), [], decode);
  }

  lemma LateSteps(s: Response, decode: Str -> Seen)
    requires s == Handle(START, LAST_FRAME, decode)
    ensures s.done && s.body == [] && Handle(s, LATE_FRAME, decode).body == [65]
  {
  }

  /** Data behind the end of the stream is kept when it comes with it and lost when it comes later. */
  lemma LateData(decode: Str -> Seen)
    ensures Received([LAST + LATE], decode).body == [65] && Received([LAST, LATE], decode).body == []
  {
    hide HandleAll, Run, Frames;
    LateFrames();
    LateBody(decode);
    TogetherHandled(LAST + LATE, decode);
    StopsBetween(LAST, LATE, decode);
  }

  // ---------------------------------------------------------------- what the caller is given

  /** The status, the location and the body, if any header block ended. */
  datatype Answer = Answer(seen: Seen, body: Str)

  function Answered(s: Response): Option<Answer> { if s.got then Some(Answer(s.seen, s.body)) else None }

  predicate EndsBlock(f: Frame) { IsHeader(f) && EndsHeaders(f.flags) }

  predicate IsData(f: Frame) { f.kind == DATA && f.stream == 1 }

  /** A frame behind `before` that the caller cannot notice: no block ends while none has, and afterwards only blocks
      that say the same again and data frames that hold nothing but padding. */
  predicate Unnoticed(first: Option<Str>, before: seq<Frame>, f: Frame, decode: Str -> Seen) {
    if first.None? then !EndsBlock(f)
    else (EndsBlock(f) ==> decode(Pending(before) + f.payload) == decode(first.value)) && (IsData(f) ==> Body(f) == [])
  }

  /** Behind the first frame that ends the stream only frames nobody notices. */
  ghost predicate Silent(fs: seq<Frame>, decode: Str -> Seen) {
    var c := FirstClose(fs);
    forall j :: c < j < |fs| ==> Unnoticed(Finished(fs[..c + 1]), fs[..j], fs[j], decode)
  }

  lemma HandleAnswers(s: Response, fs: seq<Frame>, f: Frame, decode: Str -> Seen)
    requires Tells(s, fs, decode)
    ensures var t := Handle(s, f, decode);
            && t.got == (s.got || EndsBlock(f))
            && t.seen == (if EndsBlock(f) then decode(Pending(fs) + f.payload) else s.seen)
            && t.body == (if IsData(f) then s.body + Body(f) else s.body)
  {
    hide Counted, Body;
  }

  /** Whether the next frame changes the answer, given that nothing since `first` has. */
  lemma NoticedIff(s: Response, fs: seq<Frame>, f: Frame, first: Option<Str>, decode: Str -> Seen)
    requires Tells(s, fs, decode) && s.got == first.Some? && (s.got ==> s.seen == decode(first.value))
    ensures Answered(Handle(s, f, decode)) == Answered(s) <==> Unnoticed(first, fs, f, decode)
  {
    hide Handle, Body, Pending, Finished;
    HandleAnswers(s, fs, f, decode);
    assert |s.body + Body(f)| == |s.body| + |Body(f)|;
    assert Body(f) == [] ==> s.body + Body(f) == s.body;
  }

  /** The answer after `k` frames. */
  function AnswerAt(fs: seq<Frame>, k: nat, decode: Str -> Seen): Option<Answer>
    requires k <= |fs|
  {
    Answered(HandleAll(START, fs[..k], decode))
  }

  lemma AnswerStep(fs: seq<Frame>, k: nat, decode: Str -> Seen)
    requires FirstClose(fs) < k < |fs| && AnswerAt(fs, k, decode) == AnswerAt(fs, FirstClose(fs) + 1, decode)
    ensures AnswerAt(fs, k + 1, decode) == AnswerAt(fs, k, decode)
            <==> Unnoticed(Finished(fs[..FirstClose(fs) + 1]), fs[..k], fs[k], decode)
  {
    hide HandleAll, Handle, FirstClose, Unnoticed, Pending, Finished;
    var c := FirstClose(fs);
    HandleLast(fs[..k + 1], decode);
    assert fs[..k + 1][..k] == fs[..k];
    StateTells(fs[..k], decode);
    StateTells(fs[..c + 1], decode);
    NoticedIff(HandleAll(START, fs[..k], decode), fs[..k], fs[k], Finished(fs[..c + 1]), decode);
  }

  lemma {:induction false} SilentStays(fs: seq<Frame>, k: nat, decode: Str -> Seen)
    requires Silent(fs, decode) && FirstClose(fs) < k <= |fs|
    ensures AnswerAt(fs, k, decode) == AnswerAt(fs, FirstClose(fs) + 1, decode)
    decreases k
  {
    hide AnswerAt, FirstClose, Unnoticed, Finished;
    if k > FirstClose(fs) + 1 {
      SilentStays(fs, k - 1, decode);
      AnswerStep(fs, k - 1, decode);
    }
  }

  /** Once the stream is done, no more frames change the answer. */
  ghost predicate AnswerSettles(fs: seq<Frame>, decode: Str -> Seen) {
    forall k :: FirstClose(fs) < k <= |fs| ==> AnswerAt(fs, k, decode) == AnswerAt(fs, |fs|, decode)
  }

  lemma AnswerSettlesIff(fs: seq<Frame>, decode: Str -> Seen)
    ensures AnswerSettles(fs, decode) <==> Silent(fs, decode)
  {
    hide AnswerAt, FirstClose, Unnoticed, Finished;
    var c := FirstClose(fs);
    if Silent(fs, decode) {
      forall k | c < k <= |fs| ensures AnswerAt(fs, k, decode) == AnswerAt(fs, |fs|, decode) {
        SilentStays(fs, k, decode);
        SilentStays(fs, |fs|, decode);
      }
    }
    if AnswerSettles(fs, decode) {
      forall j | c < j < |fs| ensures Unnoticed(Finished(fs[..c + 1]), fs[..j], fs[j], decode) {
        assert AnswerAt(fs, j, decode) == AnswerAt(fs, c + 1, decode) == AnswerAt(fs, j + 1, decode);
        AnswerStep(fs, j, decode);
      }
    }
  }

  ghost predicate SameAnswer(bytes: Str, decode: Str -> Seen) {
    forall chunks: seq<Str> :: Joined(chunks) == bytes ==> Answered(Received(chunks, decode)) == Answered(Handled(bytes, decode))
  }

  lemma SameAnswerSettles(bytes: Str, decode: Str -> Seen)
    ensures SameAnswer(bytes, decode) <==> AnswerSettles(Frames(bytes), decode)
  {
    hide HandleAll, Run, FirstClose, Answered;
    var fs := Frames(bytes);
    assert fs[..|fs|] == fs;
    if AnswerSettles(fs, decode) {
      forall chunks: seq<Str> | Joined(chunks) == bytes
        ensures Answered(Received(chunks, decode)) == Answered(Handled(bytes, decode))
      {
        var k := ReceivedPrefix(chunks, decode);
        DoneFrom(fs, k, decode);
        if k < |fs| { assert AnswerAt(fs, k, decode) == AnswerAt(fs, |fs|, decode); }
      }
    }
    if SameAnswer(bytes, decode) {
      forall k | FirstClose(fs) < k <= |fs| ensures AnswerAt(fs, k, decode) == AnswerAt(fs, |fs|, decode) {
        var p, r := FramesSplit(bytes, k);
        DoneFrom(fs, k, decode);
        StopsBetween(p, r, decode);
      }
    }
  }

  /** What the caller is given does not depend on how the bytes were cut exactly when nobody can notice the frames
      behind the one that ends the stream. */
  lemma AnswerCutIff(bytes: Str, decode: Str -> Seen)
    ensures SameAnswer(bytes, decode) <==> Silent(Frames(bytes), decode)
  {
    hide SameAnswer, AnswerSettles, Silent;
    SameAnswerSettles(bytes, decode);
    AnswerSettlesIff(Frames(bytes), decode);
  }

  /** The last header block that ended decides alone: trailers replace the status and the location of the response. */
  lemma LastBlockDecides(fs: seq<Frame>, f: Frame, decode: Str -> Seen)
    requires EndsBlock(f) && Pending(fs) == []
    ensures var a := Answered(HandleAll(START, fs + [f], decode)); a.Some? && a.value.seen == decode(f.payload)
  {
    hide HandleAll, Handle, Pending;
    HandleLast(fs + [f], decode);
    assert (fs + [f])[..|fs|] == fs;
    StateTells(fs, decode);
    HandleAnswers(HandleAll(START, fs, decode), fs, f, decode);
    assert [] + f.payload == f.payload;
  }

  // ---------------------------------------------------------------- the loop

  /** The decoding of blocks on which the code does not panic. */
  function Kept(huffman: Str -> Str, utf8: Str -> bool): Str -> Seen {
    (b: Str) => if Decoded(b, huffman, utf8).Panic? then NOTHING else Decoded(b, huffman, utf8).value
  }

  /** So a response with trailers is reported with status zero, whatever its status was. */
  lemma {:induction false} TrailersLoseStatus(fs: seq<Frame>, f: Frame, trailers: seq<Hpack.Header>, huffman: Str -> Str, utf8: Str -> bool)
    requires EndsBlock(f) && Pending(fs) == [] && f.payload == Hpack.BlockBytes(trailers) && |f.payload| < U64
    requires forall k :: 0 <= k < |trailers| ==> trailers[k].name != Hpack.Ascii(":status")
    ensures var a := Answered(HandleAll(START, fs + [f], Kept(huffman, utf8))); a.Some? && a.value.seen.status == 0
  {
    hide HandleAll, EndsBlock, Pending, Decoded, Summary, Hpack.BlockBytes, Hpack.Ascii;
    LastBlockDecides(fs, f, Kept(huffman, utf8));
    SummaryRoundTrip(trailers, huffman, utf8);
    StatusIs(trailers, utf8);
  }

  /** Every header block that ends can be decoded. */
  ghost predicate Decodable(fs: seq<Frame>, huffman: Str -> Str, utf8: Str -> bool) {
    forall k :: 0 <= k <= |fs| && Finished(fs[..k]).Some? ==> Decoded(Finished(fs[..k]).value, huffman, utf8).Done?
  }

  lemma DecodableStep(fs: seq<Frame>, f: Frame, huffman: Str -> Str, utf8: Str -> bool)
    ensures Decodable(fs + [f], huffman, utf8) <==>
            Decodable(fs, huffman, utf8) && (EndsBlock(f) ==> Decoded(Pending(fs) + f.payload, huffman, utf8).Done?)
  {
    hide Pending, Decoded;
    var gs := fs + [f];
    assert gs[..|gs|] == gs && gs[..|fs|] == fs;
    assert forall k :: 0 <= k <= |fs| ==> gs[..k] == fs[..k];
    FinishedLast(fs, f);
    assert fs[..|fs|] == fs;
  }

  lemma FinishedLast(fs: seq<Frame>, f: Frame)
    ensures Finished(fs + [f]) == if EndsBlock(f) then Some(Pending(fs) + f.payload) else Finished(fs)
  {
    hide Pending;
    assert (fs + [f])[..|fs|] == fs;
  }

  lemma DecodablePrefix(fs: seq<Frame>, gs: seq<Frame>, huffman: Str -> Str, utf8: Str -> bool)
    requires fs <= gs && Decodable(gs, huffman, utf8)
    ensures Decodable(fs, huffman, utf8)
  {
    hide Finished, Decoded;
    forall k | 0 <= k <= |fs| && Finished(fs[..k]).Some? ensures Decoded(Finished(fs[..k]).value, huffman, utf8).Done? {
      assert gs[..k] == fs[..k];
    }
  }

  lemma {:induction false} TakenExtends(seen: seq<Frame>, buf: Str, chunks: seq<Str>)
    ensures seen <= Taken(seen, buf, chunks)
    decreases |chunks|
  {
    hide Frames, Rest, AnyCloses;
    if !AnyCloses(seen) && chunks != [] {
      TakenExtends(seen + Frames(buf + chunks[0]), Rest(buf + chunks[0]), chunks[1..]);
    }
  }

  method HandleFrame(s: Response, f: Frame, huffman: Str -> Str, utf8: Str -> bool) returns (o: Outcome<Response>)
    ensures o == if EndsBlock(f) && Decoded(s.block + f.payload, huffman, utf8).Panic? then Panic
                 else Done(Handle(s, f, Kept(huffman, utf8)))
  {
    hide Decoded;
    var t := s;
    if f.kind == SETTINGS && !Acks(f.flags) {
      t := t.(sent := t.sent + [SettingsAck]);
    } else if (f.kind == HEADERS || f.kind == CONTINUATION) && f.stream == 1 {
      t := t.(block := t.block + f.payload);
      if EndsHeaders(f.flags) {
        var d := DecodeBlock(t.block, huffman, utf8);
        if d.Panic? { return Panic; }
        t := t.(seen := d.value, block := [], got := true);
      }
      if f.kind == HEADERS && EndsStream(f.flags) { t := t.(done := true); }
    } else if f.kind == DATA && f.stream == 1 {
      t := TakeData(t, f);
      if EndsStream(f.flags) { t := t.(done := true); }
    } else if f.kind == RST_STREAM || f.kind == GOAWAY {
      t := t.(done := true);
    } else if f.kind == PING && !Acks(f.flags) {
      t := t.(sent := t.sent + [Pong(f.payload)]);
    }
    return Done(t);
  }

  /** The frames of one buffer, and what is left of it. */
  method HandleBuffer(r0: Response, buf: Str, ghost seen0: seq<Frame>, huffman: Str -> Str, utf8: Str -> bool)
    returns (o: Outcome<Response>, rest: Str)
    requires r0 == HandleAll(START, seen0, Kept(huffman, utf8)) && Decodable(seen0, huffman, utf8)
    ensures rest == Rest(buf) || o.Panic?
    ensures o == if Decodable(seen0 + Frames(buf), huffman, utf8)
                 then Done(HandleAll(START, seen0 + Frames(buf), Kept(huffman, utf8))) else Panic
  {
    hide HandleAll, Handle, Decodable, Kept, Decoded, Pending, EndsBlock, First, After, Whole;
    ghost var decode, seen := Kept(huffman, utf8), seen0;
    var r, pos := r0, 0;
    assert buf[0..] == buf;
    while Whole(buf[pos..])
      invariant pos <= |buf| && Rest(buf[pos..]) == Rest(buf) && seen + Frames(buf[pos..]) == seen0 + Frames(buf)
      invariant r == HandleAll(START, seen, decode) && Decodable(seen, huffman, utf8)
      decreases |buf| - pos
    {
      var s := buf[pos..];
      StateTells(seen, decode);
      DecodableStep(seen, First(s), huffman, utf8);
      var t := HandleFrame(r, First(s), huffman, utf8);
      NextFrame(buf, pos);
      assert seen + ([First(s)] + Frames(After(s))) == seen + [First(s)] + Frames(After(s));
      if t.Panic? {
        if Decodable(seen0 + Frames(buf), huffman, utf8) {
          DecodablePrefix(seen + [First(s)], seen0 + Frames(buf), huffman, utf8);
        }
        return Panic, [];
      }
      r := t.value;
      HandleOne(seen, First(s), decode);
      seen := seen + [First(s)];
      pos := pos + 9 + Length(s);
    }
    assert seen + [] == seen;
    return Done(r), buf[pos..];
  }

  lemma NextFrame(buf: Str, pos: nat)
    requires pos <= |buf| && Whole(buf[pos..])
    ensures pos + 9 + Length(buf[pos..]) <= |buf| && buf[pos + 9 + Length(buf[pos..])..] == After(buf[pos..])
  {
  }

  /** The loop of the request: it ends in a panic exactly when a block of the frames it takes cannot be decoded. */
  method Receive(chunks: seq<Str>, huffman: Str -> Str, utf8: Str -> bool) returns (o: Outcome<Response>)
    ensures o == if Decodable(Taken([], [], chunks), huffman, utf8) then Done(Received(chunks, Kept(huffman, utf8))) else Panic
  {
    hide HandleAll, Frames, Rest, Handle, Decodable, Kept, Run, AnyCloses, Taken;
    ghost var decode := Kept(huffman, utf8);
    var r, buf: Str, i := START, [], 0;
    ghost var seen: seq<Frame> := [];
    assert chunks[0..] == chunks;
    NoneDecoded(huffman, utf8);
    while i < |chunks| && !r.done
      invariant i <= |chunks| && r == HandleAll(START, seen, decode) && Decodable(seen, huffman, utf8)
      invariant Taken(seen, buf, chunks[i..]) == Taken([], [], chunks)
    {
      DoneIff(seen, decode);
      TakenNext(seen, buf, chunks[i..]);
      buf := buf + chunks[i];
      assert chunks[i..][1..] == chunks[i + 1..];
      i := i + 1;
      var t, rest := HandleBuffer(r, buf, seen, huffman, utf8);
      seen := seen + Frames(buf);
      if t.Panic? {
        TakenExtends(seen, Rest(buf), chunks[i..]);
        if Decodable(Taken([], [], chunks), huffman, utf8) {
          DecodablePrefix(seen, Taken([], [], chunks), huffman, utf8);
        }
        return Panic;
      }
      r, buf := t.value, rest;
    }
    DoneIff(seen, decode);
    TakenNext(seen, buf, chunks[i..]);
    RunTakes([], [], chunks, decode);
    return Done(r);
  }

  lemma NoneDecoded(huffman: Str -> Str, utf8: Str -> bool)
    ensures Decodable([], huffman, utf8) && HandleAll(START, [], Kept(huffman, utf8)) == START
  {
    hide Kept, Decoded;
  }

  lemma TakenNext(seen: seq<Frame>, buf: Str, chunks: seq<Str>)
    ensures Taken(seen, buf, chunks) ==
            if AnyCloses(seen) || chunks == [] then seen
            else Taken(seen + Frames(buf + chunks[0]), Rest(buf + chunks[0]), chunks[1..])
  {
    hide AnyCloses, Frames, Rest;
  }

  lemma HandleOne(fs: seq<Frame>, f: Frame, decode: Str -> Seen)
    ensures HandleAll(START, fs + [f], decode) == Handle(HandleAll(START, fs, decode), f, decode)
  {
    hide HandleAll, Handle;
    HandleLast(fs + [f], decode);
    assert (fs + [f])[..|fs|] == fs;
  }

  method TakeData(s: Response, f: Frame) returns (t: Response)
    ensures t == AddData(s, f)
  {
    var body := s.body + f.payload;
    if IsPadded(f.flags) && f.payload != [] {
      var end := if f.payload[0] <= |f.payload| then |f.payload| - f.payload[0] else 0;
      body := if end > 1 then s.body + f.payload[1..end] else s.body;
    }
    var sr, cr, sent := Saturate(s.streamRecv + |f.payload|), Saturate(s.connRecv + |f.payload|), s.sent;
    if sr >= REFILL { sent, sr := sent + [WindowUpdate(1, sr)], 0; }
    if cr >= REFILL { sent, cr := sent + [WindowUpdate(0, cr)], 0; }
    t := s.(body := body, streamRecv := sr, connRecv := cr, sent := sent);
  }
}
