/**
  How the stream is cut into reads does not matter to a gt06 session: the resynchronising framer
  of gt06/frame.go, run over the accumulated buffer, always dispatches the same frames.
 */
module Gt06Session {
  import opened Bytes
  import opened Wrappers
  import opened Framing
  import opened Gt06Frame
  import opened TcpSession

  const NEXT: Framer := b => NextFrame(b)

  lemma Gt06IsSound()
    ensures Sound(NEXT)
  {
  }

  function DrainGt06(accept: Verdict, c: Conn): Conn {
    Gt06IsSound();
    Drain(NEXT, accept, c)
  }

  // ---- One framer step, with and without the bytes still to come ----

  lemma StartStable(a: bytes, b: bytes)
    ensures FirstStart(a, 0) >= 0 ==> FirstStart(a + b, 0) == FirstStart(a, 0)
    ensures FirstStart(a, 0) < 0 ==> FirstStart(a + b, 0) < 0 || FirstStart(a + b, 0) >= |a| - Keep(a)
  {
    var i, j := FirstStart(a, 0), FirstStart(a + b, 0);
    assert forall k: nat | k + 1 < |a| :: StartAt(a, k) == StartAt(a + b, k);
    if i >= 0 {
      assert StartAt(a + b, i);
    }
  }

  /** A step that knew where its frame starts does not change when more bytes arrive. */
  lemma StepStable(a: bytes, b: bytes)
    requires FirstStart(a, 0) >= 0 && !NextFrame(a).More?
    ensures NextFrame(a + b) == NextFrame(a)
  {
    StartStable(a, b);
    if FirstStart(a, 0) == 0 {
      assert HeaderSize(a + b) == HeaderSize(a);
      assert LengthField(a + b) == LengthField(a);
      var total := HeaderSize(a) + LengthField(a) + 2;
      if |a| >= total {
        assert (a + b)[..total] == a[..total];
      }
    }
  }

  lemma StartShift(a: bytes, n: nat)
    requires n <= |a| && forall k | 0 <= k < n :: !StartAt(a, k)
    ensures FirstStart(a, 0) == if FirstStart(a[n..], 0) < 0 then -1 else FirstStart(a[n..], 0) + n
    ensures n < |a| ==> Keep(a[n..]) == Keep(a)
  {
    var i, j := FirstStart(a, 0), FirstStart(a[n..], 0);
    assert forall k: nat | k + n < |a| :: StartAt(a[n..], k) == StartAt(a, k + n);
    if j >= 0 {
      assert StartAt(a, j + n);
    }
    if i >= 0 {
      assert StartAt(a[n..], i - n);
    }
    FirstStartRange(a, 0);
  }

  lemma {:induction false} FirstStartRange(a: bytes, i: nat)
    ensures FirstStart(a, i) >= -1
    decreases |a| - i
  {
    if i + 1 < |a| && !StartAt(a, i) {
      FirstStartRange(a, i + 1);
    }
  }

  /** Draining past a discard, which shows in no frame. */
  lemma BadStep(accept: Verdict, s: bytes, m: nat, log: seq<Piece>)
    requires s != [] && NextFrame(s) == Bad(m) && 0 < m <= |s|
    ensures var after := Conn(s[m..], log + [Junk(s[..m])], true);
      DrainGt06(accept, Conn(s, log, true)) == DrainGt06(accept, after) && Frames(after.log) == Frames(log)
  {
    hide NextFrame, Frames;
    Gt06IsSound();
    FramesSnoc(log, Junk(s[..m]));
    assert Frames(log) + [] == Frames(log);
  }

  /** Bytes in which no delimiter starts can be dropped early or late. */
  lemma GarbageDropsEither(accept: Verdict, s: bytes, n: nat, log: seq<Piece>, log': seq<Piece>)
    requires n <= |s| && forall k | 0 <= k < n :: !StartAt(s, k)
    requires n == |s| ==> Keep(s) == 0
    requires Frames(log) == Frames(log')
    ensures Same(DrainGt06(accept, Conn(s, log, true)), DrainGt06(accept, Conn(s[n..], log', true)))
  {
    hide NextFrame, Drain, Frames, StartAt, Keep;
    Gt06IsSound();
    var t := s[n..];
    if n == 0 {
      assert t == s;
      DrainSame(NEXT, accept, Conn(s, log, true), Conn(t, log', true));
    } else {
      NextOnGarbage(s, n);
      var m := NextFrame(s).n;
      var c := Conn(s[m..], log + [Junk(s[..m])], true);
      BadStep(accept, s, m, log);
      if m == n {
        DrainSame(NEXT, accept, c, Conn(t, log', true));
      } else {
        BadStep(accept, t, m - n, log');
        assert t[m - n..] == s[m..];
        DrainSame(NEXT, accept, c, Conn(t[m - n..], log' + [Junk(t[..m - n])], true));
      }
    }
  }

  /** On a buffer that begins with n > 0 garbage bytes the framer drops at least those. */
  lemma NextOnGarbage(s: bytes, n: nat)
    requires 0 < n <= |s| && forall k | 0 <= k < n :: !StartAt(s, k)
    requires n == |s| ==> Keep(s) == 0
    ensures NextFrame(s).Bad? && n <= NextFrame(s).n <= |s|
    ensures NextFrame(s).n > n ==> NextFrame(s[n..]) == Bad(NextFrame(s).n - n)
  {
    StartShift(s, n);
  }

  // ---- A whole buffer ----

  function ResumeGt06(accept: Verdict, c: Conn, more: bytes): Conn {
    Gt06IsSound();
    Resume(NEXT, accept, c, more)
  }

  /** Draining a prefix first and the rest later comes to the same. */
  lemma {:induction false} DrainSplits(accept: Verdict, a: bytes, b: bytes, log: seq<Piece>)
    ensures Same(DrainGt06(accept, Conn(a + b, log, true)),
              ResumeGt06(accept, DrainGt06(accept, Conn(a, log, true)), b))
    decreases |a|
  {
    hide NextFrame, Keep;
    Gt06IsSound();
    var whole, c := Conn(a + b, log, true), Conn(a, log, true);
    if a == [] {
      assert a + b == b;
    } else if !NextFrame(a).More? {
      StepAgain(a, b);
      var n := NextFrame(a).n;
      assert (a + b)[n..] == a[n..] + b && (a + b)[..n] == a[..n];
      var piece := if NextFrame(a).Bad? then Junk(a[..n]) else Dispatched(a[..n]);
      var c', whole' := Take(c, n, piece), Take(whole, n, piece);
      if FirstStart(a, 0) < 0 {
        assert c'.log[..|log|] == log;
        GarbageDropsEither(accept, a + b, n, log, c'.log);
      } else if piece.Dispatched? && !accept(Frames(c'.log)) {
        return;
      } else {
        assert DrainGt06(accept, whole) == DrainGt06(accept, whole');
      }
      DrainSplits(accept, a[n..], b, c'.log);
    }
  }

  /** What the first step on `a` says about the first step on `a + b`. */
  lemma StepAgain(a: bytes, b: bytes)
    requires a != [] && !NextFrame(a).More?
    ensures var s := NextFrame(a);
      && !s.Skip? && 0 < s.n <= |a| && (s.Frame? ==> s.frame == a[..s.n])
      && (FirstStart(a, 0) >= 0 ==> NextFrame(a + b) == s)
      && (FirstStart(a, 0) < 0 ==>
            && s.Bad? && (forall k | 0 <= k < s.n :: !StartAt(a + b, k))
            && (s.n == |a + b| ==> Keep(a + b) == 0))
  {
    if FirstStart(a, 0) >= 0 {
      StepStable(a, b);
    } else {
      StartStable(a, b);
      if |a| - Keep(a) == |a + b| {
        assert a + b == a;
      }
    }
  }

  // ---- A whole session ----

  /** After an open drain at most one unfinished frame is left. */
  lemma LeftoverBound(accept: Verdict, c: Conn)
    ensures DrainGt06(accept, c).open ==> |DrainGt06(accept, c).buf| <= 4101
  {
    Gt06IsSound();
    DrainExhausts(NEXT, accept, c);
  }

  /** The registry of the server, as far as a gt06 stream can tell: gt06 comes first. */
  ghost predicate Gt06First(cfg: Config) {
    && cfg.registry != []
    && cfg.registry[0].next == NEXT
    && forall b :: cfg.registry[0].detects(b) == DetectGt06(b)
  }

  /** Protocol.Detect of gt06/gt06.go. */
  predicate DetectGt06(b: bytes) {
    |b| >= 2 && IsStart(b[0]) && b[1] == b[0]
  }

  /** The session after it has received `t`, whichever way `t` was cut. */
  ghost predicate Received(cfg: Config, s: State, t: bytes)
    requires cfg.registry != []
  {
    if |t| < 2 then s == State(None, Conn(t, [], true))
    else s.proto == Some(cfg.registry[0]) && Same(s.conn, DrainGt06(cfg.accept, Conn(t, [], true)))
  }

  /** A stream whose gt06 delimiter no other adapter mistakes for its own on the first byte. */
  ghost predicate Gt06Stream(cfg: Config, t: bytes) {
    && (|t| >= 1 ==> IsStart(t[0]) && Detect(cfg.registry, t[..1]).None?)
    && (|t| >= 2 ==> DetectGt06(t))
  }

  /** The reads up to the one that shows the whole delimiter. */
  lemma ReceivedFirst(cfg: Config, s: State, t: bytes, chunk: bytes)
    requires Sane(cfg) && Gt06First(cfg) && cfg.maxPacketSize >= 4101 + READ_CHUNK && |t| < 2
    requires Received(cfg, s, t) && Gt06Stream(cfg, t + chunk) && 0 < |chunk| <= READ_CHUNK
    ensures Received(cfg, Receive(cfg, s, chunk), t + chunk)
  {
    hide Drain, Frames, NextFrame, IsStart;
    Gt06IsSound();
    if |t + chunk| == 1 {
      assert (t + chunk)[..1] == t + chunk;
    }
  }

  /** Any later read. */
  lemma ReceivedLater(cfg: Config, s: State, t: bytes, chunk: bytes)
    requires Sane(cfg) && Gt06First(cfg) && cfg.maxPacketSize >= 4101 + READ_CHUNK && |t| >= 2
    requires Received(cfg, s, t) && 0 < |chunk| <= READ_CHUNK
    ensures Received(cfg, Receive(cfg, s, chunk), t + chunk)
  {
    hide Drain, Frames, NextFrame, Detect;
    Gt06IsSound();
    LeftoverBound(cfg.accept, Conn(t, [], true));
    DrainSplits(cfg.accept, t, chunk, []);
    if s.conn.open {
      var c := DrainGt06(cfg.accept, Conn(t, [], true));
      DrainSame(NEXT, cfg.accept, s.conn.(buf := s.conn.buf + chunk), c.(buf := c.buf + chunk));
    }
  }

  lemma ReceivedMore(cfg: Config, s: State, t: bytes, chunk: bytes)
    requires Sane(cfg) && Gt06First(cfg) && cfg.maxPacketSize >= 4101 + READ_CHUNK
    requires Received(cfg, s, t) && Gt06Stream(cfg, t + chunk) && 0 < |chunk| <= READ_CHUNK
    ensures Received(cfg, Receive(cfg, s, chunk), t + chunk)
  {
    hide Received, Receive, Gt06Stream, Gt06First, Sane;
    if |t| < 2 {
      ReceivedFirst(cfg, s, t, chunk);
    } else {
      ReceivedLater(cfg, s, t, chunk);
    }
  }

  lemma {:induction false} ReceivedAll(cfg: Config, s: State, t: bytes, chunks: seq<bytes>)
    requires Sane(cfg) && Gt06First(cfg) && cfg.maxPacketSize >= 4101 + READ_CHUNK
    requires s.proto.Some? ==> s.proto.value in cfg.registry
    requires Received(cfg, s, t) && Gt06Stream(cfg, t + Concat(chunks))
    requires forall c | c in chunks :: 0 < |c| <= READ_CHUNK
    ensures Received(cfg, ReceiveAll(cfg, s, chunks), t + Concat(chunks))
    decreases |chunks|
  {
    if chunks == [] {
      assert t + Concat(chunks) == t;
    } else {
      var next := t + chunks[0];
      assert t + Concat(chunks) == next + Concat(chunks[1..]);
      assert (next + Concat(chunks[1..]))[..1] == next[..1];
      assert chunks[0] in chunks;
      ReceivedMore(cfg, s, t, chunks[0]);
      ReceivedAll(cfg, Receive(cfg, s, chunks[0]), next, chunks[1..]);
    }
  }

  /**
    Chunking does not matter. A gt06 stream, cut into reads in any way, leaves the session with
    the frames, the verdict and (while it is open) the leftover of one undivided drain; the
    oversize cut-off never fires.
   */
  lemma ChunkingDoesNotMatter(cfg: Config, chunks: seq<bytes>)
    requires Sane(cfg) && Gt06First(cfg) && cfg.maxPacketSize >= 4101 + READ_CHUNK
    requires |Concat(chunks)| >= 2 && Gt06Stream(cfg, Concat(chunks))
    requires forall c | c in chunks :: 0 < |c| <= READ_CHUNK
    ensures var r := ReceiveAll(cfg, FRESH, chunks);
      && r.proto == Some(cfg.registry[0])
      && Same(r.conn, DrainGt06(cfg.accept, Conn(Concat(chunks), [], true)))
      && (r.conn.open ==> |r.conn.buf| <= 4101)
  {
    assert [] + Concat(chunks) == Concat(chunks);
    ReceivedAll(cfg, FRESH, [], chunks);
    LeftoverBound(cfg.accept, Conn(Concat(chunks), [], true));
  }

  lemma TwoChunkingsAgree(cfg: Config, chunks: seq<bytes>, others: seq<bytes>)
    requires Sane(cfg) && Gt06First(cfg) && cfg.maxPacketSize >= 4101 + READ_CHUNK
    requires Concat(chunks) == Concat(others)
    requires |Concat(chunks)| >= 2 && Gt06Stream(cfg, Concat(chunks))
    requires forall c | c in chunks :: 0 < |c| <= READ_CHUNK
    requires forall c | c in others :: 0 < |c| <= READ_CHUNK
    ensures Same(ReceiveAll(cfg, FRESH, chunks).conn, ReceiveAll(cfg, FRESH, others).conn)
  {
    ChunkingDoesNotMatter(cfg, chunks);
    ChunkingDoesNotMatter(cfg, others);
  }

  /**
    Detection is where chunking could matter: a stream that begins with a gt06 delimiter is
    recognised as gt06 however it is cut exactly when no adapter claims its first byte alone
    (the capture adapter tkstar_v4, when enabled, claims anything).
   */
  lemma DetectionIff(cfg: Config, t: bytes)
    requires Sane(cfg) && Gt06First(cfg) && cfg.maxPacketSize >= 4101 + READ_CHUNK
    requires DetectGt06(t)
    ensures Detect(cfg.registry, t[..1]).None?
      <==> forall chunks: seq<bytes> | Cuts(chunks, t) :: ReceiveAll(cfg, FRESH, chunks).proto == Some(cfg.registry[0])
  {
    if Detect(cfg.registry, t[..1]).None? {
      forall chunks: seq<bytes> | Cuts(chunks, t)
        ensures ReceiveAll(cfg, FRESH, chunks).proto == Some(cfg.registry[0])
      {
        ChunkingDoesNotMatter(cfg, chunks);
      }
    } else {
      var chunks := [t[..1]] + Bytewise(t[1..]);
      BytewiseCuts(t[1..]);
      assert chunks[1..] == Bytewise(t[1..]);
      assert t == t[..1] + t[1..];
      assert Cuts(chunks, t);
      assert [] + t[..1] == t[..1];
      var a := Detect(cfg.registry, t[..1]).value;
      ProtocolSticks(cfg, Receive(cfg, FRESH, t[..1]), chunks[1..]);
      assert cfg.registry[0].detects(t[..1]) == DetectGt06(t[..1]);
    }
  }

  function Bytewise(t: bytes): seq<bytes> {
    if t == [] then [] else [[t[0]]] + Bytewise(t[1..])
  }

  lemma {:induction false} BytewiseCuts(t: bytes)
    ensures Cuts(Bytewise(t), t)
  {
    if t != [] {
      BytewiseCuts(t[1..]);
    }
  }

  /** A session never changes its protocol. */
  lemma {:induction false} ProtocolSticks(cfg: Config, s: State, chunks: seq<bytes>)
    requires Sane(cfg) && s.proto.Some? && s.proto.value in cfg.registry
    ensures ReceiveAll(cfg, s, chunks).proto == s.proto
    decreases |chunks|
  {
    if chunks != [] {
      ProtocolSticks(cfg, Receive(cfg, s, chunks[0]), chunks[1..]);
    }
  }

  // ---- Streams of frames and junk ----

  /** A frame on the wire, with either delimiter. */
  datatype Sent = Short(packet: Packet) | Long(packet: Packet)

  /** A frame, and the noise that came before it. */
  datatype Traffic = Traffic(junk: bytes, sent: Sent)

  predicate Deliverable(s: Sent) {
    |s.packet.content| <= match s case Short(_) => 250 case Long(_) => 4091
  }

  function Framed(s: Sent): (f: bytes)
    requires Deliverable(s)
    ensures f != []
  {
    match s
    case Short(p) =>
      BuiltShape(p.typ, p.content, p.serial);
      BuildFrame(p.typ, p.content, p.serial)
    case Long(p) => LongFrame(p.typ, p.content, p.serial)
  }

  /** Bytes of which none can belong to a delimiter. */
  predicate Quiet(junk: bytes) {
    forall i | 0 <= i < |junk| :: junk[i] != 0x78 && junk[i] != 0x79
  }

  predicate Clear(t: Traffic) {
    Quiet(t.junk) && Deliverable(t.sent)
  }

  function Wire(traffic: seq<Traffic>, tail: bytes): bytes
    requires forall i | 0 <= i < |traffic| :: Clear(traffic[i])
  {
    if traffic == [] then tail
    else
      assert Clear(traffic[0]);
      traffic[0].junk + (Framed(traffic[0].sent) + Wire(traffic[1..], tail))
  }

  function FramesOf(traffic: seq<Traffic>): (frames: seq<bytes>)
    requires forall i | 0 <= i < |traffic| :: Clear(traffic[i])
    ensures |frames| == |traffic|
  {
    if traffic == [] then []
    else
      assert Clear(traffic[0]);
      [Framed(traffic[0].sent)] + FramesOf(traffic[1..])
  }

  /** The framer takes these bytes for one frame, whatever follows, and they decode to the packet. */
  lemma FramedPasses(s: Sent, rest: bytes)
    requires Deliverable(s)
    ensures var f := Framed(s); NextFrame(f + rest) == Frame(f, |f|) && DecodeFrame(f) == Ok(s.packet)
  {
    hide NextFrame, DecodeFrame, BuildFrame, LongFrame;
    var p := s.packet;
    if s.Short? {
      FramerSeesBuiltIff(p.typ, p.content, p.serial, rest);
      DecodeBuilt(p.typ, p.content, p.serial);
    } else {
      FramerSeesLongIff(p.typ, p.content, p.serial, rest);
      DecodeLong(p.typ, p.content, p.serial);
    }
  }

  lemma FramedStarts(s: Sent, rest: bytes)
    requires Deliverable(s)
    ensures Doubled(Framed(s) + rest, 0)
  {
    var p := s.packet;
    if s.Short? {
      BuiltShape(p.typ, p.content, p.serial);
    } else {
      var f := LongFrame(p.typ, p.content, p.serial);
      assert f[0] == 0x79 && f[1] == 0x79;
    }
  }

  /** Noise is dropped in one step: up to the frame behind it, or to the end. */
  lemma JunkDrops(junk: bytes, rest: bytes)
    requires Quiet(junk) && junk != [] && (rest == [] || Doubled(rest, 0))
    ensures NextFrame(junk + rest) == Bad(|junk|) && (junk + rest)[|junk|..] == rest
  {
    hide NextFrame;
    var buf := junk + rest;
    assert forall k: nat | k < |junk| :: !Doubled(buf, k);
    assert rest != [] ==> Doubled(buf, |junk|);
    AnswerOtherwise(buf, |junk|);
  }

  lemma {:induction false} DrainTraffic(accept: Verdict, traffic: seq<Traffic>, tail: bytes, log: seq<Piece>)
    requires Quiet(tail) && forall i | 0 <= i < |traffic| :: Clear(traffic[i])
    requires forall h :: accept(h)
    ensures var r := DrainGt06(accept, Conn(Wire(traffic, tail), log, true));
      r.open && r.buf == [] && Frames(r.log) == Frames(log) + FramesOf(traffic)
    decreases |traffic|
  {
    hide Framed, Quiet, Frames, Drain, Deliverable;
    Gt06IsSound();
    if traffic == [] {
      DrainTail(accept, tail, log);
      assert Frames(log) + [] == Frames(log);
    } else {
      assert Clear(traffic[0]);
      var t, rest := traffic[0], Wire(traffic[1..], tail);
      var f := Framed(t.sent);
      var after := DrainOne(accept, t, rest, log);
      DrainTraffic(accept, traffic[1..], tail, after);
      assert Frames(log) + ([f] + FramesOf(traffic[1..])) == (Frames(log) + [f]) + FramesOf(traffic[1..]);
    }
  }

  /** One frame with the noise before it. */
  lemma DrainOne(accept: Verdict, t: Traffic, rest: bytes, log: seq<Piece>) returns (after: seq<Piece>)
    requires Clear(t) && forall h :: accept(h)
    ensures DrainGt06(accept, Conn(t.junk + (Framed(t.sent) + rest), log, true)) == DrainGt06(accept, Conn(rest, after, true))
    ensures Frames(after) == Frames(log) + [Framed(t.sent)]
  {
    hide NextFrame, Framed, Quiet, Frames, Drain, Deliverable;
    var f := Framed(t.sent);
    FramedPasses(t.sent, rest);
    FramedStarts(t.sent, rest);
    DrainPastJunk(accept, t.junk, f + rest, log);
    var middle := if t.junk == [] then log else log + [Junk(t.junk)];
    FrameStep(accept, f, rest, middle);
    after := middle + [Dispatched(f)];
    FramesSnoc(middle, Dispatched(f));
  }

  lemma DrainTail(accept: Verdict, tail: bytes, log: seq<Piece>)
    requires Quiet(tail)
    ensures var r := DrainGt06(accept, Conn(tail, log, true)); r.open && r.buf == [] && Frames(r.log) == Frames(log)
  {
    hide NextFrame, Quiet, Frames;
    Gt06IsSound();
    if tail != [] {
      JunkDrops(tail, []);
      assert tail + [] == tail;
      BadStep(accept, tail, |tail|, log);
    }
  }

  lemma DrainPastJunk(accept: Verdict, junk: bytes, rest: bytes, log: seq<Piece>)
    requires Quiet(junk) && Doubled(rest, 0)
    ensures var after := if junk == [] then log else log + [Junk(junk)];
      && DrainGt06(accept, Conn(junk + rest, log, true)) == DrainGt06(accept, Conn(rest, after, true))
      && Frames(after) == Frames(log)
  {
    hide NextFrame, Quiet, Frames, Drain;
    if junk == [] {
      assert junk + rest == rest;
    } else {
      JunkDrops(junk, rest);
      assert (junk + rest)[..|junk|] == junk;
      BadStep(accept, junk + rest, |junk|, log);
    }
  }

  /** Draining past a frame the verdict accepts. */
  lemma FrameStep(accept: Verdict, f: bytes, rest: bytes, log: seq<Piece>)
    requires f != [] && NextFrame(f + rest) == Frame(f, |f|) && forall h :: accept(h)
    ensures DrainGt06(accept, Conn(f + rest, log, true)) == DrainGt06(accept, Conn(rest, log + [Dispatched(f)], true))
  {
    hide NextFrame, Frames;
    Gt06IsSound();
    assert (f + rest)[|f|..] == rest;
  }

  /** Each frame decodes to the packet at its place. */
  predicate DecodesTo(frames: seq<bytes>, traffic: seq<Traffic>) {
    |frames| == |traffic| && forall i | 0 <= i < |traffic| :: DecodeFrame(frames[i]) == Ok(traffic[i].sent.packet)
  }

  /**
    Frames with either delimiter and noise between them, cut up anyhow, come out as exactly those frames,
    in order, each decoding to its packet. (The first frame starts the stream: that is how gt06 is recognised.)
   */
  lemma BuiltFramesArrive(cfg: Config, traffic: seq<Traffic>, tail: bytes, chunks: seq<bytes>)
    requires Sane(cfg) && Gt06First(cfg) && cfg.maxPacketSize >= 4101 + READ_CHUNK
    requires Quiet(tail) && forall i | 0 <= i < |traffic| :: Clear(traffic[i])
    requires traffic != [] && traffic[0].junk == [] && Cuts(chunks, Wire(traffic, tail))
    requires Detect(cfg.registry, Wire(traffic, tail)[..1]).None? && forall h :: cfg.accept(h)
    ensures var r := ReceiveAll(cfg, FRESH, chunks).conn;
      r.open && r.buf == [] && Frames(r.log) == FramesOf(traffic) && DecodesTo(Frames(r.log), traffic)
  {
    hide Framed, DecodeFrame, NextFrame, Quiet, ReceiveAll, Frames;
    var t, rest := Wire(traffic, tail), Wire(traffic[1..], tail);
    FramedStarts(traffic[0].sent, rest);
    assert t == Framed(traffic[0].sent) + rest;
    ChunkingDoesNotMatter(cfg, chunks);
    DrainTraffic(cfg.accept, traffic, tail, []);
    NoLog();
    assert [] + FramesOf(traffic) == FramesOf(traffic);
    DecodeAll(traffic);
  }

  lemma NoLog()
    ensures Frames([]) == []
  {
  }

  lemma {:induction false} DecodeAll(traffic: seq<Traffic>)
    requires forall i | 0 <= i < |traffic| :: Clear(traffic[i])
    ensures DecodesTo(FramesOf(traffic), traffic)
  {
    hide DecodeFrame, Framed, NextFrame;
    if traffic != [] {
      FramedPasses(traffic[0].sent, []);
      DecodeAll(traffic[1..]);
    }
  }

  // ---- Streams nobody recognises ----

  /** Up to seven bytes of an unrecognised stream are waited on; from eight on they are reported and the session ends. */
  lemma UnknownStream(cfg: Config, s: State, chunk: bytes)
    requires Sane(cfg) && s.proto.None? && s.conn.open
    requires |s.conn.buf + chunk| <= cfg.maxPacketSize && Detect(cfg.registry, s.conn.buf + chunk).None?
    ensures var r := Receive(cfg, s, chunk);
      && r.proto.None? && r.conn.open == (|s.conn.buf + chunk| < 8)
      && (if r.conn.open then r.conn.buf == s.conn.buf + chunk && r.conn.log == s.conn.log
          else r.conn.buf == [] && r.conn.log == s.conn.log + [Junk(s.conn.buf + chunk)])
  {
  }
}
