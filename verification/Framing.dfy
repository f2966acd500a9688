/**
  The contract between the TCP session and a protocol's framer (protocols/tracker.go), and the
  loop of tcp/session.go that drains the accumulated buffer through it.
 */
module Framing {
  import opened Bytes

  /** What NextFrame can answer about the front of the buffer. */
  datatype Step =
    | More                          // ErrIncompleteFrame: wait for the rest
    | Bad(n: nat)                   // an error: drop n bytes and report them
    | Skip(n: nat)                  // no frame and no error: drop n separator bytes
    | Frame(frame: bytes, n: nat)   // a complete frame of n bytes

  type Framer = bytes -> Step

  /** A framer never claims more than it was shown, and a frame is the bytes it consumes. */
  ghost predicate Sound(next: Framer) {
    forall b :: SoundStep(b, next(b))
  }

  predicate SoundStep(b: bytes, s: Step) {
    match s
    case More => true
    case Bad(n) => n <= |b|
    case Skip(n) => n <= |b|
    case Frame(f, n) => n <= |b| && f == b[..n]
  }

  /** What becomes of consumed bytes, in stream order. */
  datatype Piece =
    | Dispatched(data: bytes)
    | Junk(data: bytes)
    | Separator(data: bytes)

  function Frames(log: seq<Piece>): seq<bytes> {
    if log == [] then []
    else
      var last, before := log[|log| - 1], Frames(log[..|log| - 1]);
      if last.Dispatched? then before + [last.data] else before
  }

  lemma FramesSnoc(log: seq<Piece>, piece: Piece)
    ensures Frames(log + [piece]) == Frames(log) + if piece.Dispatched? then [piece.data] else []
  {
    assert (log + [piece])[..|log|] == log;
    assert Frames(log) + [] == Frames(log);
  }

  /** All consumed bytes, frames and discards alike. */
  function Flatten(log: seq<Piece>): bytes {
    if log == [] then [] else Flatten(log[..|log| - 1]) + log[|log| - 1].data
  }

  datatype Conn = Conn(buf: bytes, log: seq<Piece>, open: bool)

  /** Frames dispatched so far, this one last, to whether the session goes on. */
  type Verdict = seq<bytes> -> bool

  function Take(c: Conn, n: nat, piece: Piece): Conn
    requires n <= |c.buf|
  {
    c.(buf := c.buf[n..], log := c.log + [piece])
  }

  /** How the bytes a step consumes are logged. */
  function PieceOf(buf: bytes, s: Step): Piece
    requires SoundStep(buf, s) && !s.More?
  {
    match s
    case Bad(n) => Junk(buf[..n])
    case Skip(n) => Separator(buf[..n])
    case Frame(f, n) => Dispatched(f)
  }

  /** session.process once a protocol is known. */
  function Drain(next: Framer, accept: Verdict, c: Conn): (r: Conn)
    requires Sound(next)
    decreases |c.buf|
  {
    if !c.open || c.buf == [] then c
    else
      assert SoundStep(c.buf, next(c.buf));
      match next(c.buf)
      case More => c
      case Bad(n) =>
        if n == 0 then c.(open := false) else Drain(next, accept, Take(c, n, Junk(c.buf[..n])))
      case Skip(n) =>
        if n == 0 then c else Drain(next, accept, Take(c, n, Separator(c.buf[..n])))
      case Frame(f, n) =>
        if n == 0 then c
        else
          var d := Take(c, n, Dispatched(f));
          if accept(Frames(d.log)) then Drain(next, accept, d) else d.(open := false)
  }

  /** Nothing is lost or invented: consumed pieces and leftover spell the stream. */
  lemma {:induction false} DrainConserves(next: Framer, accept: Verdict, c: Conn)
    requires Sound(next)
    ensures var r := Drain(next, accept, c);
      Flatten(r.log) + r.buf == Flatten(c.log) + c.buf
    decreases |c.buf|
  {
    if c.open && c.buf != [] {
      assert SoundStep(c.buf, next(c.buf));
      var s := next(c.buf);
      if !s.More? && s.n > 0 {
        TakeConserves(c, s.n, PieceOf(c.buf, s));
        DrainConserves(next, accept, Take(c, s.n, PieceOf(c.buf, s)));
      }
    }
  }

  lemma TakeConserves(c: Conn, n: nat, piece: Piece)
    requires n <= |c.buf| && piece.data == c.buf[..n]
    ensures var d := Take(c, n, piece); Flatten(d.log) + d.buf == Flatten(c.log) + c.buf
  {
    assert (c.log + [piece])[..|c.log|] == c.log;
    assert c.buf[..n] + c.buf[n..] == c.buf;
  }

  /** Draining never stops on a buffer it could still advance on. */
  lemma {:induction false} DrainExhausts(next: Framer, accept: Verdict, c: Conn)
    requires Sound(next)
    ensures var r := Drain(next, accept, c);
      r.open && r.buf != [] ==> next(r.buf).More? || next(r.buf).n == 0
    decreases |c.buf|
  {
    if c.open && c.buf != [] {
      assert SoundStep(c.buf, next(c.buf));
      match next(c.buf)
      case More =>
      case Bad(n) =>
        if n > 0 {
          DrainExhausts(next, accept, Take(c, n, Junk(c.buf[..n])));
        }
      case Skip(n) =>
        if n > 0 {
          DrainExhausts(next, accept, Take(c, n, Separator(c.buf[..n])));
        }
      case Frame(f, n) =>
        if n > 0 {
          DrainExhausts(next, accept, Take(c, n, Dispatched(f)));
        }
    }
  }

  /** Equal for every observer of frames: how discards were grouped is not observed. */
  predicate Same(c: Conn, d: Conn) {
    && Frames(c.log) == Frames(d.log)
    && c.open == d.open
    && (c.open ==> c.buf == d.buf)
  }

  /** Draining is blind to how earlier discards were grouped. */
  lemma {:induction false} DrainSame(next: Framer, accept: Verdict, c: Conn, d: Conn)
    requires Sound(next) && Same(c, d)
    ensures Same(Drain(next, accept, c), Drain(next, accept, d))
    decreases |c.buf|
  {
    if c.open && c.buf != [] {
      assert SoundStep(c.buf, next(c.buf));
      match next(c.buf)
      case More =>
      case Bad(n) =>
        if n > 0 {
          DrainSame(next, accept, Take(c, n, Junk(c.buf[..n])), Take(d, n, Junk(c.buf[..n])));
        }
      case Skip(n) =>
        if n > 0 {
          DrainSame(next, accept, Take(c, n, Separator(c.buf[..n])), Take(d, n, Separator(c.buf[..n])));
        }
      case Frame(f, n) =>
        if n > 0 {
          DrainSame(next, accept, Take(c, n, Dispatched(f)), Take(d, n, Dispatched(f)));
        }
    }
  }

  /** Draining after more bytes have arrived. */
  function Resume(next: Framer, accept: Verdict, c: Conn, more: bytes): Conn
    requires Sound(next)
  {
    if c.open then Drain(next, accept, c.(buf := c.buf + more)) else c
  }

  /** A stream delivered in pieces, drained after each. */
  function FeedAll(next: Framer, accept: Verdict, c: Conn, chunks: seq<bytes>): Conn
    requires Sound(next)
    decreases |chunks|
  {
    if chunks == [] then c else FeedAll(next, accept, Resume(next, accept, c, chunks[0]), chunks[1..])
  }

  function Concat(chunks: seq<bytes>): bytes {
    if chunks == [] then [] else chunks[0] + Concat(chunks[1..])
  }

  // ---- The verdict only cuts the sequence of frames short ----

  const ALL: Verdict := _ => true

  lemma DrainAllStep(next: Framer, c: Conn)
    requires Sound(next) && c.open && c.buf != [] && !next(c.buf).More? && next(c.buf).n > 0
    ensures var s := next(c.buf);
      SoundStep(c.buf, s) && Drain(next, ALL, c) == Drain(next, ALL, Take(c, s.n, PieceOf(c.buf, s)))
  {
    assert SoundStep(c.buf, next(c.buf));
  }

  /** `frames` and `rest` foretell, step by step, what draining a buffer delivers and leaves. */
  ghost predicate Foretells(next: Framer, frames: bytes -> seq<bytes>, rest: bytes -> bytes) {
    frames([]) == [] && rest([]) == [] && forall s | s != [] :: ForetellsStep(next(s), frames, rest, s)
  }

  predicate ForetellsStep(step: Step, frames: bytes -> seq<bytes>, rest: bytes -> bytes, s: bytes) {
    if step.More? then frames(s) == [] && rest(s) == s
    else
      && 0 < step.n <= |s|
      && frames(s) == (if step.Frame? then [step.frame] else []) + frames(s[step.n..])
      && rest(s) == rest(s[step.n..])
  }

  lemma {:induction false} DrainForetold(
      next: Framer, frames: bytes -> seq<bytes>, rest: bytes -> bytes, s: bytes, log: seq<Piece>)
    requires Sound(next) && Foretells(next, frames, rest)
    ensures var r := Drain(next, ALL, Conn(s, log, true));
      r.open && r.buf == rest(s) && Frames(r.log) == Frames(log) + frames(s)
    decreases |s|
  {
    hide Frames;
    var step := next(s);
    assert Frames(log) + [] == Frames(log);
    if s != [] {
      assert ForetellsStep(step, frames, rest, s);
      assert SoundStep(s, step);
      if !step.More? {
        var piece := PieceOf(s, step);
        FramesSnoc(log, piece);
        DrainForetold(next, frames, rest, s[step.n..], log + [piece]);
        DrainAllStep(next, Conn(s, log, true));
      }
    }
  }

  /** `history` followed by `frames` up to and including the first refused one. */
  function Gate(accept: Verdict, history: seq<bytes>, frames: seq<bytes>): seq<bytes>
    decreases |frames|
  {
    if frames == [] then history
    else
      var h := history + [frames[0]];
      if accept(h) then Gate(accept, h, frames[1..]) else h
  }

  predicate Passes(accept: Verdict, history: seq<bytes>, frames: seq<bytes>)
    decreases |frames|
  {
    frames != [] ==>
      var h := history + [frames[0]];
      accept(h) && Passes(accept, h, frames[1..])
  }

  /** `c` is what `d`, a session that refuses nothing, becomes under `accept`. */
  ghost predicate Gated(accept: Verdict, c: Conn, d: Conn) {
    && Frames(c.log) == Gate(accept, [], Frames(d.log))
    && c.open == (d.open && Passes(accept, [], Frames(d.log)))
    && (c.open ==> c.buf == d.buf)
  }

  lemma {:induction false} GateAppend(accept: Verdict, h: seq<bytes>, fs: seq<bytes>, f: bytes)
    ensures Passes(accept, h, fs) ==> Gate(accept, h, fs) == h + fs
    ensures Passes(accept, h, fs + [f]) == (Passes(accept, h, fs) && accept(h + fs + [f]))
    ensures Gate(accept, h, fs + [f]) == Gate(accept, h, fs) + if Passes(accept, h, fs) then [f] else []
    decreases |fs|
  {
    if fs == [] {
      assert h + [] == h;
    } else {
      var h' := h + [fs[0]];
      assert h' + fs[1..] == h + fs;
      assert (fs + [f])[1..] == fs[1..] + [f];
      GateAppend(accept, h', fs[1..], f);
    }
  }

  lemma TakeGated(accept: Verdict, c: Conn, d: Conn, n: nat, piece: Piece)
    requires Gated(accept, c, d) && c.open && n <= |c.buf|
    ensures Gated(accept,
              if piece.Dispatched? && !accept(Frames(Take(c, n, piece).log))
              then Take(c, n, piece).(open := false) else Take(c, n, piece),
              Take(d, n, piece))
  {
    assert (c.log + [piece])[..|c.log|] == c.log && (d.log + [piece])[..|d.log|] == d.log;
    if piece.Dispatched? {
      GateAppend(accept, [], Frames(d.log), piece.data);
      assert [] + Frames(d.log) == Frames(d.log);
    }
  }

  lemma {:induction false} ClosedStaysGated(next: Framer, accept: Verdict, c: Conn, d: Conn)
    requires Sound(next) && Gated(accept, c, d) && !c.open
    ensures Gated(accept, c, Drain(next, ALL, d))
    decreases |d.buf|
  {
    if d.open && d.buf != [] {
      assert SoundStep(d.buf, next(d.buf));
      var s := next(d.buf);
      if !s.More? && s.n > 0 {
        var piece := PieceOf(d.buf, s);
        assert (d.log + [piece])[..|d.log|] == d.log;
        if s.Frame? {
          GateAppend(accept, [], Frames(d.log), s.frame);
        }
        ClosedStaysGated(next, accept, c, Take(d, s.n, piece));
      }
    }
  }

  lemma {:induction false} DrainGated(next: Framer, accept: Verdict, c: Conn, d: Conn)
    requires Sound(next) && Gated(accept, c, d)
    ensures Gated(accept, Drain(next, accept, c), Drain(next, ALL, d))
    decreases |d.buf|
  {
    if !c.open {
      ClosedStaysGated(next, accept, c, d);
    } else if d.buf != [] {
      assert SoundStep(d.buf, next(d.buf));
      var s := next(d.buf);
      if !s.More? && s.n > 0 {
        var piece := PieceOf(d.buf, s);
        TakeGated(accept, c, d, s.n, piece);
        var c' := Take(c, s.n, piece);
        if piece.Dispatched? && !accept(Frames(c'.log)) {
          ClosedStaysGated(next, accept, c'.(open := false), Take(d, s.n, piece));
        } else {
          DrainGated(next, accept, c', Take(d, s.n, piece));
        }
      }
    }
  }

  /** However the stream was cut, a verdict only shortens what would have been dispatched. */
  lemma {:induction false} FeedGated(next: Framer, accept: Verdict, c: Conn, d: Conn, chunks: seq<bytes>)
    requires Sound(next) && Gated(accept, c, d)
    ensures Gated(accept, FeedAll(next, accept, c, chunks), FeedAll(next, ALL, d, chunks))
    decreases |chunks|
  {
    if chunks != [] {
      var c', d' := Resume(next, accept, c, chunks[0]), Resume(next, ALL, d, chunks[0]);
      if d.open {
        var e := d.(buf := d.buf + chunks[0]);
        DrainGated(next, accept, if c.open then c.(buf := c.buf + chunks[0]) else c, e);
        if !c.open {
          ClosedStaysGated(next, accept, c, e);
        }
      }
      FeedGated(next, accept, c', d', chunks[1..]);
    }
  }
}
