/**
  When the way a stream is cut into reads shows in the frames, for framers that give up on a unit they
  have been waiting for too long. Everything is stated about the session of tcp/session.go once its
  protocol is known: reads of at most READ_CHUNK bytes, the size limit, the drain loop.
 */
module Chunking {
  import opened Bytes
  import opened Wrappers
  import opened Framing
  import opened TcpSession

  /** The longest unfinished unit a framer here waits on. */
  const WAIT := 1024

  /** The longest buffer it is ever shown. */
  const REACH := WAIT + READ_CHUNK

  /** What stands at the front of a stream. */
  datatype Unit =
    | Pass                              // a byte that vanishes whatever follows
    | Whole(n: nat, isFrame: bool)      // a unit of n bytes, delivered or discarded once it is complete
    | Open                              // a unit the stream does not complete

  datatype Theory = Theory(next: Framer, head: bytes -> Unit)

  function Head(th: Theory, t: bytes): (u: Unit)
    ensures u.Whole? ==> 0 < u.n <= |t|
  {
    var u := th.head(t);
    if u.Whole? && !(0 < u.n <= |t|) then Open else u
  }

  function Emits(u: Unit, t: bytes): seq<bytes>
    requires u.Whole? && u.n <= |t|
  {
    if u.isFrame then [t[..u.n]] else []
  }

  /** The frames of a buffer drained in one go. */
  function Delivered(th: Theory, a: bytes): seq<bytes>
    decreases |a|
  {
    if a == [] then []
    else
      var u := Head(th, a);
      match u
      case Pass => Delivered(th, a[1..])
      case Whole(n, _) => Emits(u, a) + Delivered(th, a[n..])
      case Open => []
  }

  /** What that leaves: an unfinished unit, unless it has grown too long. */
  function Left(th: Theory, a: bytes): (r: bytes)
    ensures |r| <= WAIT
    decreases |a|
  {
    if a == [] then []
    else
      match Head(th, a)
      case Pass => Left(th, a[1..])
      case Whole(n, _) => Left(th, a[n..])
      case Open => if |a| > WAIT then [] else a
  }

  /** The frames of a stream when every over-long unit is given up at the first opportunity. */
  function Canon(th: Theory, t: bytes): seq<bytes>
    decreases |t|
  {
    if t == [] then []
    else
      var u := Head(th, t);
      match u
      case Pass => Canon(th, t[1..])
      case Whole(n, _) => if n <= WAIT + 1 then Emits(u, t) + Canon(th, t[n..]) else Canon(th, t[WAIT + 1..])
      case Open => if |t| <= WAIT then [] else Canon(th, t[WAIT + 1..])
  }

  /** Giving up a unit later, at any point a read can reach, comes to the same. */
  predicate LateIsSame(th: Theory, t: bytes)
    requires |t| > WAIT
    decreases |t|, 0
  {
    forall d: nat | WAIT < d <= REACH && d <= |t| :: Canon(th, t[d..]) == Canon(th, t[WAIT + 1..]) && Calm(th, t[d..])
  }

  /**
    The streams whose frames no cut can change: no unit that a lucky read completes and an unlucky one
    cuts in two, and for longer ones, which every reading gives up, it makes no difference where.
   */
  predicate Calm(th: Theory, t: bytes)
    decreases |t|, 1
  {
    if t == [] then true
    else
      match Head(th, t)
      case Pass => Calm(th, t[1..])
      case Whole(n, _) =>
        if n <= WAIT + 1 then Calm(th, t[n..]) else n > REACH && LateIsSame(th, t)
      case Open => |t| > WAIT ==> LateIsSame(th, t)
  }

  // ---- What a framer must satisfy ----

  function DeliveredOf(th: Theory): bytes -> seq<bytes> {
    a => Delivered(th, a)
  }

  function LeftOf(th: Theory): bytes -> bytes {
    a => Left(th, a)
  }

  /** Later bytes complete an unfinished unit, and change nothing else about the front. */
  predicate Extends(th: Theory, a: bytes, b: bytes) {
    a != [] ==>
      match Head(th, a)
      case Pass => Head(th, a + b).Pass?
      case Whole(n, f) => Head(th, a + b) == Whole(n, f)
      case Open => !Head(th, a + b).Pass? && (Head(th, a + b).Whole? ==> Head(th, a + b).n > |a|)
  }

  /** A unit a read can just complete: completing it and losing all but its last byte differ. */
  predicate LastByteShows(th: Theory, t: bytes) {
    t != [] && Head(th, t).Whole? && WAIT + 1 < Head(th, t).n <= REACH ==>
      Emits(Head(th, t), t) + Canon(th, t[Head(th, t).n..]) != Canon(th, t[Head(th, t).n - 1..])
  }

  ghost predicate Lawful(th: Theory) {
    && Sound(th.next)
    && Foretells(th.next, DeliveredOf(th), LeftOf(th))
    && (forall a, b :: Extends(th, a, b))
    && (forall t :: LastByteShows(th, t))
  }

  /** The front of a prefix: the unit itself if it is all there, unfinished otherwise. */
  lemma HeadOfPrefix(th: Theory, t: bytes, k: nat)
    requires Lawful(th) && 0 < k <= |t| && !Head(th, t).Pass?
    ensures Head(th, t[..k]) == if Head(th, t).Whole? && Head(th, t).n <= k then Head(th, t) else Open
  {
    hide Head, Foretells, Sound, LastByteShows;
    assert t[..k] + t[k..] == t;
    assert Extends(th, t[..k], t[k..]);
  }

  /** A run of vanishing bytes vanishes. */
  lemma {:induction false} PassRun(th: Theory, s: bytes, n: nat)
    requires n <= |s| && forall k | 0 <= k < n :: Head(th, s[k..]).Pass?
    ensures Delivered(th, s) == Delivered(th, s[n..]) && Left(th, s) == Left(th, s[n..])
    decreases n
  {
    hide Head;
    assert s[0..] == s;
    if n > 0 {
      assert Head(th, s[0..]).Pass?;
      forall k | 0 <= k < n - 1 ensures Head(th, s[1..][k..]).Pass? {
        assert s[1..][k..] == s[k + 1..];
      }
      assert s[1..][n - 1..] == s[n..];
      PassRun(th, s[1..], n - 1);
    }
  }

  // ---- The session is the drain loop, and its buffer stays short ----

  lemma DrainLeaves(th: Theory, accept: Verdict, c: Conn)
    requires Lawful(th)
    ensures Drain(th.next, accept, c).open ==> |Drain(th.next, accept, c).buf| <= WAIT
  {
    hide Drain, Extends, LastByteShows;
    var r := Drain(th.next, accept, c);
    DrainExhausts(th.next, accept, c);
    if r.open && r.buf != [] {
      assert ForetellsStep(th.next(r.buf), DeliveredOf(th), LeftOf(th), r.buf);
      assert Left(th, r.buf) == r.buf;
    }
  }

  /** With room for one read beyond what the framer waits on, the size limit never closes the session. */
  lemma {:induction false} SessionIsFeed(th: Theory, cfg: Config, a: Adapter, c: Conn, chunks: seq<bytes>)
    requires Lawful(th) && Sane(cfg) && a in cfg.registry && a.next == th.next && cfg.maxPacketSize >= REACH
    requires forall k | 0 <= k < |chunks| :: 0 < |chunks[k]| <= READ_CHUNK
    requires c.open ==> |c.buf| <= WAIT
    ensures ReceiveAll(cfg, State(Some(a), c), chunks) == State(Some(a), FeedAll(th.next, cfg.accept, c, chunks))
    ensures var r := FeedAll(th.next, cfg.accept, c, chunks); r.open ==> |r.buf| <= WAIT
    decreases |chunks|
  {
    hide Drain, Lawful;
    LawfulIsSound(th);
    if chunks != [] {
      var next := Resume(th.next, cfg.accept, c, chunks[0]);
      if c.open {
        DrainLeaves(th, cfg.accept, c.(buf := c.buf + chunks[0]));
      }
      assert Receive(cfg, State(Some(a), c), chunks[0]) == State(Some(a), next);
      SessionIsFeed(th, cfg, a, next, chunks[1..]);
    }
  }

  lemma LawfulIsSound(th: Theory)
    requires Lawful(th)
    ensures Sound(th.next)
  {
  }

  const START := Conn([], [], true)

  /** The frames a session of this protocol dispatches. */
  function Received(cfg: Config, a: Adapter, chunks: seq<bytes>): seq<bytes>
    requires Sane(cfg) && a in cfg.registry
  {
    Frames(ReceiveAll(cfg, State(Some(a), START), chunks).conn.log)
  }

  /** Any two ways of cutting the stream into reads dispatch the same frames, under every verdict. */
  ghost predicate CutProof(cfg: Config, a: Adapter, t: bytes)
    requires Sane(cfg) && a in cfg.registry
  {
    forall chunks: seq<bytes>, others: seq<bytes>, accept: Verdict | Cuts(chunks, t) && Cuts(others, t) ::
      Received(cfg.(accept := accept), a, chunks) == Received(cfg.(accept := accept), a, others)
  }

  // ---- A calm stream ----

  lemma {:induction false} LeftIsSilent(th: Theory, a: bytes)
    ensures Canon(th, Left(th, a)) == []
    decreases |a|
  {
    if a != [] {
      match Head(th, a)
      case Pass => LeftIsSilent(th, a[1..]);
      case Whole(n, _) => LeftIsSilent(th, a[n..]);
      case Open =>
    }
  }

  /** On a calm stream, draining what one read brings loses and splits nothing. */
  lemma {:induction false} Splits(th: Theory, a: bytes, b: bytes)
    requires Lawful(th) && |a| <= REACH && Calm(th, a + b)
    ensures Canon(th, a + b) == Delivered(th, a) + Canon(th, Left(th, a) + b)
    ensures Calm(th, Left(th, a) + b)
    decreases |a|
  {
    hide Lawful, Head, Canon, Calm, Delivered, Left, Emits, LateIsSame;
    if a == [] {
      assert a + b == b;
      OnNothing(th);
    } else if Head(th, a).Open? {
      SplitsOpen(th, a, b);
    } else {
      var u := Head(th, a);
      var n := if u.Pass? then 1 else u.n;
      SplitsUnit(th, a, b, n);
      Splits(th, a[n..], b);
      if u.Whole? {
        Associates(Emits(u, a), Delivered(th, a[n..]), Canon(th, Left(th, a) + b));
      }
    }
  }

  lemma Associates(x: seq<bytes>, y: seq<bytes>, z: seq<bytes>)
    ensures (x + y) + z == x + (y + z)
  {
  }

  /** A finished unit at the front. */
  lemma SplitsUnit(th: Theory, a: bytes, b: bytes, n: nat)
    requires Lawful(th) && a != [] && |a| <= REACH && Calm(th, a + b)
    requires if Head(th, a).Pass? then n == 1 else Head(th, a).Whole? && n == Head(th, a).n
    ensures Calm(th, a[n..] + b) && Left(th, a) == Left(th, a[n..])
    ensures Head(th, a).Pass? ==> Canon(th, a + b) == Canon(th, a[n..] + b) && Delivered(th, a) == Delivered(th, a[n..])
    ensures Head(th, a).Whole? ==>
      && Canon(th, a + b) == Emits(Head(th, a), a) + Canon(th, a[n..] + b)
      && Delivered(th, a) == Emits(Head(th, a), a) + Delivered(th, a[n..])
  {
    hide Lawful, Head, Canon, Calm, Delivered, Left, LateIsSame;
    ExtendsAt(th, a, b);
    Unfold(th, a);
    Unfold(th, a + b);
    assert (a + b)[n..] == a[n..] + b && (a + b)[..n] == a[..n];
  }

  /** An unfinished unit: kept for later, or given up where the stream does not mind. */
  lemma SplitsOpen(th: Theory, a: bytes, b: bytes)
    requires Lawful(th) && a != [] && |a| <= REACH && Calm(th, a + b) && Head(th, a).Open?
    ensures Canon(th, a + b) == Delivered(th, a) + Canon(th, Left(th, a) + b)
    ensures Calm(th, Left(th, a) + b)
  {
    hide Lawful, Head, Canon, Calm, Delivered, Left;
    ExtendsAt(th, a, b);
    Unfold(th, a);
    Unfold(th, a + b);
    if |a| > WAIT {
      assert (a + b)[|a|..] == b && [] + b == b;
    }
    assert [] + Canon(th, Left(th, a) + b) == Canon(th, Left(th, a) + b);
  }

  lemma OnNothing(th: Theory)
    ensures Canon(th, []) == [] && Delivered(th, []) == [] && Left(th, []) == [] && Calm(th, [])
  {
  }

  lemma ExtendsAt(th: Theory, a: bytes, b: bytes)
    requires Lawful(th)
    ensures Extends(th, a, b)
  {
  }

  /** One unfolding of each recursion. */
  lemma Unfold(th: Theory, t: bytes)
    requires t != []
    ensures Head(th, t).Pass? ==>
      && Canon(th, t) == Canon(th, t[1..]) && Calm(th, t) == Calm(th, t[1..])
      && Delivered(th, t) == Delivered(th, t[1..]) && Left(th, t) == Left(th, t[1..])
    ensures Head(th, t).Whole? ==>
      var n, emits := Head(th, t).n, Emits(Head(th, t), t);
      && Canon(th, t) == (if n <= WAIT + 1 then emits + Canon(th, t[n..]) else Canon(th, t[WAIT + 1..]))
      && Calm(th, t) == (if n <= WAIT + 1 then Calm(th, t[n..]) else n > REACH && LateIsSame(th, t))
      && Delivered(th, t) == emits + Delivered(th, t[n..]) && Left(th, t) == Left(th, t[n..])
    ensures Head(th, t).Open? ==>
      && Canon(th, t) == (if |t| <= WAIT then [] else Canon(th, t[WAIT + 1..]))
      && Calm(th, t) == (|t| > WAIT ==> LateIsSame(th, t))
      && Delivered(th, t) == [] && Left(th, t) == (if |t| > WAIT then [] else t)
  {
    hide LateIsSame, Head;
  }

  lemma DrainIs(th: Theory, a: bytes, log: seq<Piece>)
    requires Lawful(th)
    ensures var r := Drain(th.next, ALL, Conn(a, log, true));
      r.open && r.buf == Left(th, a) && Frames(r.log) == Frames(log) + Delivered(th, a)
  {
    hide Drain, Frames, Foretells, Extends, LastByteShows, Delivered, Left;
    DrainForetold(th.next, DeliveredOf(th), LeftOf(th), a, log);
  }

  /** The frames read by read, starting with `b` in the buffer. */
  function Fed(th: Theory, b: bytes, chunks: seq<bytes>): seq<bytes>
    decreases |chunks|
  {
    if chunks == [] then []
    else Delivered(th, b + chunks[0]) + Fed(th, Left(th, b + chunks[0]), chunks[1..])
  }

  lemma {:induction false} FeedIsFed(th: Theory, b: bytes, log: seq<Piece>, chunks: seq<bytes>)
    requires Lawful(th)
    ensures Frames(FeedAll(th.next, ALL, Conn(b, log, true), chunks).log) == Frames(log) + Fed(th, b, chunks)
    ensures FeedAll(th.next, ALL, Conn(b, log, true), chunks).open
    decreases |chunks|
  {
    hide Drain, Frames, Delivered, Left, Lawful;
    LawfulIsSound(th);
    if chunks == [] {
      assert Frames(log) + [] == Frames(log);
    } else {
      var a := b + chunks[0];
      DrainIs(th, a, log);
      var d := Resume(th.next, ALL, Conn(b, log, true), chunks[0]);
      FeedIsFed(th, Left(th, a), d.log, chunks[1..]);
      var rest := Fed(th, Left(th, a), chunks[1..]);
      assert (Frames(log) + Delivered(th, a)) + rest == Frames(log) + (Delivered(th, a) + rest);
    }
  }

  lemma {:induction false} CalmFed(th: Theory, b: bytes, chunks: seq<bytes>)
    requires Lawful(th) && |b| <= WAIT && Canon(th, b) == [] && Calm(th, b + Concat(chunks))
    requires forall k | 0 <= k < |chunks| :: 0 < |chunks[k]| <= READ_CHUNK
    ensures Fed(th, b, chunks) == Canon(th, b + Concat(chunks))
    decreases |chunks|
  {
    hide Canon, Calm, Delivered, Left, Lawful;
    if chunks == [] {
      assert b + [] == b;
    } else {
      var a, rest := b + chunks[0], Concat(chunks[1..]);
      assert a + rest == b + Concat(chunks);
      Splits(th, a, rest);
      LeftIsSilent(th, a);
      CalmFed(th, Left(th, a), chunks[1..]);
    }
  }

  /** A session with room for one read more than the framer waits on, in terms of its reads. */
  lemma SessionIsFed(th: Theory, cfg: Config, a: Adapter, chunks: seq<bytes>, t: bytes)
    requires Lawful(th) && Sane(cfg) && a in cfg.registry && a.next == th.next && cfg.maxPacketSize >= REACH
    requires Cuts(chunks, t)
    ensures Received(cfg, a, chunks) == Gate(cfg.accept, [], Fed(th, [], chunks))
  {
    hide FeedAll, ReceiveAll, Lawful, Gate, Fed;
    LawfulIsSound(th);
    SizesOfCuts(chunks, t);
    FeedIsFed(th, [], [], chunks);
    GatedStart(cfg.accept);
    FeedGated(th.next, cfg.accept, START, START, chunks);
    SessionIsFeed(th, cfg, a, START, chunks);
    assert [] + Fed(th, [], chunks) == Fed(th, [], chunks);
  }

  /** Whatever the reads, a calm stream dispatches its canonical frames, cut short by the verdict. */
  lemma CalmSession(th: Theory, cfg: Config, a: Adapter, chunks: seq<bytes>, t: bytes)
    requires Lawful(th) && Sane(cfg) && a in cfg.registry && a.next == th.next && cfg.maxPacketSize >= REACH
    requires Cuts(chunks, t) && Calm(th, t)
    ensures Received(cfg, a, chunks) == Gate(cfg.accept, [], Canon(th, t))
  {
    hide Received, Calm, Canon, Lawful, Gate, Fed;
    OnNothing(th);
    assert [] + Concat(chunks) == t;
    SizesOfCuts(chunks, t);
    CalmFed(th, [], chunks);
    SessionIsFed(th, cfg, a, chunks, t);
  }

  lemma GatedStart(accept: Verdict)
    ensures Gated(accept, START, START) && Frames(START.log) == []
  {
  }

  lemma SizesOfCuts(chunks: seq<bytes>, t: bytes)
    requires Cuts(chunks, t)
    ensures forall k | 0 <= k < |chunks| :: 0 < |chunks[k]| <= READ_CHUNK
  {
    forall k | 0 <= k < |chunks| ensures 0 < |chunks[k]| <= READ_CHUNK {
      assert chunks[k] in chunks;
    }
  }

  // ---- Any other stream ----

  lemma CutsExtend(head: seq<bytes>, rest: seq<bytes>, t: bytes, k: nat)
    requires k <= |t| && Concat(head) == t[..k] && Cuts(rest, t[k..])
    requires forall i | 0 <= i < |head| :: 0 < |head[i]| <= READ_CHUNK
    ensures Cuts(head + rest, t)
  {
    ConcatSplit(head, rest);
  }

  lemma {:induction false} ConcatSplit(a: seq<bytes>, b: seq<bytes>)
    ensures Concat(a + b) == Concat(a) + Concat(b)
    decreases |a|
  {
    if a == [] {
      assert a + b == b;
    } else {
      assert (a + b)[1..] == a[1..] + b;
      ConcatSplit(a[1..], b);
    }
  }

  lemma ConcatOfTwo(a: bytes, b: bytes)
    ensures Concat([a]) == a && Concat([a, b]) == a + b
  {
    assert [a][1..] == [] && [a, b][1..] == [b] && [b][1..] == [];
  }

  lemma FedCons(th: Theory, b: bytes, chunk: bytes, rest: seq<bytes>)
    ensures Fed(th, b, [chunk] + rest) == Delivered(th, b + chunk) + Fed(th, Left(th, b + chunk), rest)
  {
    assert ([chunk] + rest)[1..] == rest;
  }

  /** A unit, or a vanishing byte, read on its own. */
  lemma OneRead(th: Theory, t: bytes, k: nat, rest: seq<bytes>)
    requires Lawful(th) && 0 < k <= |t| && k <= READ_CHUNK && Cuts(rest, t[k..])
    requires if Head(th, t).Pass? then k == 1 else Head(th, t).Whole? && Head(th, t).n == k
    ensures Cuts([t[..k]] + rest, t)
    ensures Fed(th, [], [t[..k]] + rest) == (if Head(th, t).Pass? then [] else Emits(Head(th, t), t)) + Fed(th, [], rest)
  {
    hide Lawful, Head, Delivered, Left, Fed;
    var chunk := t[..k];
    ConcatOfTwo(chunk, []);
    CutsExtend([chunk], rest, t, k);
    FedCons(th, [], chunk, rest);
    assert [] + chunk == chunk;
    OnNothing(th);
    Unfold(th, chunk);
    assert chunk[k..] == [] && chunk[..k] == t[..k];
    if Head(th, t).Pass? {
      PassOfPrefix(th, t, k);
    } else {
      HeadOfPrefix(th, t, k);
      assert Emits(Head(th, t), chunk) + [] == Emits(Head(th, t), t);
    }
  }

  lemma PassOfPrefix(th: Theory, t: bytes, k: nat)
    requires Lawful(th) && 0 < k <= |t| && Head(th, t).Pass? && k == 1
    ensures Head(th, t[..k]).Pass?
  {
    hide Head, Foretells, Sound, LastByteShows;
    assert t[..k] + t[k..] == t;
    assert Extends(th, t[..k], t[k..]);
  }

  /** An unfinished unit held back at WAIT bytes and continued up to `k`. */
  lemma TwoReads(th: Theory, t: bytes, k: nat, rest: seq<bytes>)
    requires Lawful(th) && WAIT < k <= REACH && k <= |t| && Cuts(rest, t[k..])
    requires !Head(th, t).Pass? && (Head(th, t).Whole? ==> Head(th, t).n >= k)
    ensures var chunks := [t[..WAIT], t[WAIT..k]] + rest;
      && Cuts(chunks, t)
      && Fed(th, [], chunks) ==
           (if Head(th, t).Whole? && Head(th, t).n == k then Emits(Head(th, t), t) else []) + Fed(th, [], rest)
  {
    hide Lawful, Head, Delivered, Left, Fed;
    var first, second := t[..WAIT], t[WAIT..k];
    ConcatOfTwo(first, second);
    assert first + second == t[..k];
    CutsExtend([first, second], rest, t, k);
    assert [first, second] + rest == [first] + ([second] + rest);
    FedCons(th, [], first, [second] + rest);
    assert [] + first == first;
    HeadOfPrefix(th, t, WAIT);
    Unfold(th, first);
    FedCons(th, first, second, rest);
    HeadOfPrefix(th, t, k);
    var whole := t[..k];
    Unfold(th, whole);
    OnNothing(th);
    assert whole[k..] == [];
    if Head(th, t).Whole? && Head(th, t).n == k {
      assert whole[..k] == t[..k];
      assert Emits(Head(th, t), whole) + [] == Emits(Head(th, t), t);
    }
  }

  /** Reads that give up every over-long unit at the first opportunity. */
  function Steady(th: Theory, t: bytes): seq<bytes>
    decreases |t|
  {
    if t == [] then []
    else
      var u := Head(th, t);
      if u.Pass? then [t[..1]] + Steady(th, t[1..])
      else if u.Whole? && u.n <= WAIT + 1 then [t[..u.n]] + Steady(th, t[u.n..])
      else if |t| <= WAIT then [t]
      else [t[..WAIT], t[WAIT..WAIT + 1]] + Steady(th, t[WAIT + 1..])
  }

  lemma {:induction false} SteadyIsCanon(th: Theory, t: bytes)
    requires Lawful(th)
    ensures Cuts(Steady(th, t), t) && Fed(th, [], Steady(th, t)) == Canon(th, t)
    decreases |t|
  {
    hide Lawful, Head, Canon, Fed, Cuts;
    if t == [] {
      FedNothing(th);
      OnNothing(th);
    } else {
      Unfold(th, t);
      var u := Head(th, t);
      if u.Pass? {
        SteadyIsCanon(th, t[1..]);
        OneRead(th, t, 1, Steady(th, t[1..]));
        assert [] + Canon(th, t[1..]) == Canon(th, t[1..]);
      } else if u.Whole? && u.n <= WAIT + 1 {
        SteadyIsCanon(th, t[u.n..]);
        OneRead(th, t, u.n, Steady(th, t[u.n..]));
      } else if |t| <= WAIT {
        LastRead(th, t);
      } else {
        SteadyIsCanon(th, t[WAIT + 1..]);
        TwoReads(th, t, WAIT + 1, Steady(th, t[WAIT + 1..]));
        assert [] + Canon(th, t[WAIT + 1..]) == Canon(th, t[WAIT + 1..]);
      }
    }
  }

  lemma FedNothing(th: Theory)
    ensures Fed(th, [], []) == [] && Cuts([], [])
  {
  }

  lemma LastRead(th: Theory, t: bytes)
    requires 0 < |t| <= WAIT && Head(th, t).Open?
    ensures Cuts([t], t) && Fed(th, [], [t]) == []
  {
    hide Head, Delivered, Left;
    ConcatOfTwo(t, []);
    assert [] + t == t && [t][1..] == [];
    Unfold(th, t);
  }

  /** Whatever is not calm can be read in a way that changes its frames. */
  lemma {:induction false} RestlessReads(th: Theory, t: bytes) returns (chunks: seq<bytes>)
    requires Lawful(th) && !Calm(th, t)
    ensures Cuts(chunks, t) && Fed(th, [], chunks) != Canon(th, t)
    decreases |t|
  {
    hide Lawful, Head, Canon, Calm, Fed, Cuts, LateIsSame;
    OnNothing(th);
    Unfold(th, t);
    var u := Head(th, t);
    if u.Pass? {
      var rest := RestlessReads(th, t[1..]);
      OneRead(th, t, 1, rest);
      assert [] + Fed(th, [], rest) == Fed(th, [], rest);
      chunks := [t[..1]] + rest;
    } else if u.Whole? && u.n <= WAIT + 1 {
      var rest := RestlessReads(th, t[u.n..]);
      OneRead(th, t, u.n, rest);
      Cancel(Emits(u, t), Fed(th, [], rest), Canon(th, t[u.n..]));
      chunks := [t[..u.n]] + rest;
    } else if u.Whole? && u.n <= REACH {
      chunks := EitherWay(th, t);
    } else {
      var d := WhereItMatters(th, t);
      if Canon(th, t[d..]) != Canon(th, t) {
        SteadyIsCanon(th, t[d..]);
        TwoReads(th, t, d, Steady(th, t[d..]));
        chunks := [t[..WAIT], t[WAIT..d]] + Steady(th, t[d..]);
        assert Fed(th, [], chunks) == [] + Canon(th, t[d..]) == Canon(th, t[d..]);
      } else {
        var rest := RestlessReads(th, t[d..]);
        TwoReads(th, t, d, rest);
        chunks := [t[..WAIT], t[WAIT..d]] + rest;
        assert Fed(th, [], chunks) == [] + Fed(th, [], rest) == Fed(th, [], rest);
      }
    }
  }

  lemma Cancel(e: seq<bytes>, a: seq<bytes>, b: seq<bytes>)
    requires a != b
    ensures e + a != e + b
  {
    assert (e + a)[|e|..] == a && (e + b)[|e|..] == b;
  }

  /** A unit that one read more completes is kept whole by some reads and cut before its last byte by others. */
  lemma EitherWay(th: Theory, t: bytes) returns (chunks: seq<bytes>)
    requires Lawful(th) && t != [] && Head(th, t).Whole? && WAIT + 1 < Head(th, t).n <= REACH
    ensures Cuts(chunks, t) && Fed(th, [], chunks) != Canon(th, t)
  {
    hide Foretells, Sound, Extends, Head, Canon, Fed, Cuts, Emits;
    assert LastByteShows(th, t);
    var n := Head(th, t).n;
    var whole := Emits(Head(th, t), t) + Canon(th, t[n..]);
    assert whole != Canon(th, t[n - 1..]);
    if whole != Canon(th, t) {
      SteadyIsCanon(th, t[n..]);
      TwoReads(th, t, n, Steady(th, t[n..]));
      chunks := [t[..WAIT], t[WAIT..n]] + Steady(th, t[n..]);
      assert Fed(th, [], chunks) == whole;
    } else {
      SteadyIsCanon(th, t[n - 1..]);
      TwoReads(th, t, n - 1, Steady(th, t[n - 1..]));
      chunks := [t[..WAIT], t[WAIT..n - 1]] + Steady(th, t[n - 1..]);
      assert Fed(th, [], chunks) == [] + Canon(th, t[n - 1..]) == Canon(th, t[n - 1..]);
    }
  }

  lemma WhereItMatters(th: Theory, t: bytes) returns (d: nat)
    requires |t| > WAIT && !LateIsSame(th, t)
    ensures WAIT < d <= REACH && d <= |t|
    ensures Canon(th, t[d..]) != Canon(th, t[WAIT + 1..]) || !Calm(th, t[d..])
  {
    hide Canon, Calm;
    d :| WAIT < d <= REACH && d <= |t| && !(Canon(th, t[d..]) == Canon(th, t[WAIT + 1..]) && Calm(th, t[d..]));
  }

  // ---- The exact condition ----

  /** A session with the protocol `a` and room for one read more than its framer waits on. */
  ghost predicate Serves(th: Theory, cfg: Config, a: Adapter) {
    Sane(cfg) && a in cfg.registry && a.next == th.next && cfg.maxPacketSize >= REACH
  }

  /** The cut of a stream into reads is invisible in its frames exactly when the stream is calm. */
  lemma CutProofIff(th: Theory, cfg: Config, a: Adapter, t: bytes)
    requires Lawful(th) && Serves(th, cfg, a)
    ensures CutProof(cfg, a, t) <==> Calm(th, t)
  {
    hide Lawful, Received, Calm, Canon, Fed, Cuts;
    if Calm(th, t) {
      forall chunks: seq<bytes>, others: seq<bytes>, accept: Verdict | Cuts(chunks, t) && Cuts(others, t)
        ensures Received(cfg.(accept := accept), a, chunks) == Received(cfg.(accept := accept), a, others)
      {
        CalmSession(th, cfg.(accept := accept), a, chunks, t);
        CalmSession(th, cfg.(accept := accept), a, others, t);
      }
    } else {
      var chunks := RestlessReads(th, t);
      SteadyIsCanon(th, t);
      var all := cfg.(accept := ALL);
      SessionIsFed(th, all, a, chunks, t);
      SessionIsFed(th, all, a, Steady(th, t), t);
      GateOfAll([], Fed(th, [], chunks));
      GateOfAll([], Canon(th, t));
      assert [] + Fed(th, [], chunks) == Fed(th, [], chunks) && [] + Canon(th, t) == Canon(th, t);
      assert Received(all, a, chunks) != Received(all, a, Steady(th, t));
    }
  }

  lemma {:induction false} GateOfAll(history: seq<bytes>, frames: seq<bytes>)
    ensures Gate(ALL, history, frames) == history + frames
    decreases |frames|
  {
    if frames == [] {
      assert history + [] == history;
    } else {
      GateOfAll(history + [frames[0]], frames[1..]);
      assert history + [frames[0]] + frames[1..] == history + frames;
    }
  }

  /** Every unit met has at most `limit` bytes, and an unfinished one at the end at most WAIT. */
  predicate UnitsWithin(th: Theory, t: bytes, limit: nat)
    decreases |t|
  {
    if t == [] then true
    else
      match Head(th, t)
      case Pass => UnitsWithin(th, t[1..], limit)
      case Whole(n, _) => n <= limit && UnitsWithin(th, t[n..], limit)
      case Open => |t| <= WAIT
  }

  /** Short units make a calm stream, and for units that fit into a buffer there is no other way. */
  lemma {:induction false} ShortUnitsAreCalm(th: Theory, t: bytes)
    ensures UnitsWithin(th, t, WAIT + 1) ==> Calm(th, t)
    ensures UnitsWithin(th, t, REACH) ==> (Calm(th, t) <==> UnitsWithin(th, t, WAIT + 1))
    decreases |t|
  {
    hide Calm, Head;
    OnNothing(th);
    if t != [] {
      Unfold(th, t);
      match Head(th, t)
      case Pass => ShortUnitsAreCalm(th, t[1..]);
      case Whole(n, _) => ShortUnitsAreCalm(th, t[n..]);
      case Open =>
    }
  }

  /** Two reads within the limit, the second of which delivers nothing. */
  lemma LimitKept(th: Theory, cfg: Config, a: Adapter, f: bytes, g: bytes)
    requires Lawful(th) && Sane(cfg) && a in cfg.registry && a.next == th.next && cfg.accept == ALL
    requires Left(th, f) == [] && Delivered(th, g) == [] && |f| <= cfg.maxPacketSize && |g| <= cfg.maxPacketSize
    ensures Received(cfg, a, [f, g]) == Delivered(th, f)
  {
    hide Lawful, Delivered, Left, Frames, Drain, Receive, ReceiveAll;
    LawfulIsSound(th);
    NoFrames();
    assert START.buf + f == f;
    ReadInLimit(th, cfg, a, START, f);
    var c := Drain(th.next, ALL, Conn(f, [], true));
    assert c.buf + g == g;
    ReadInLimit(th, cfg, a, c, g);
    TwoReceived(cfg, State(Some(a), START), f, g);
    assert [] + Delivered(th, f) == Delivered(th, f) && Delivered(th, f) + [] == Delivered(th, f);
  }

  /** A read that breaks the limit closes the session before anything is delivered. */
  lemma LimitBroken(th: Theory, cfg: Config, a: Adapter, front: bytes, rest: bytes)
    requires Lawful(th) && Sane(cfg) && a in cfg.registry && a.next == th.next && cfg.accept == ALL
    requires Delivered(th, front) == [] && Left(th, front) == front
    requires |front| <= cfg.maxPacketSize < |front + rest|
    ensures Received(cfg, a, if front == [] then [rest] else [front, rest]) == []
  {
    hide Lawful, Delivered, Left, Frames, Drain, ReceiveAll;
    LawfulIsSound(th);
    NoFrames();
    var s := State(Some(a), START);
    if front == [] {
      assert [] + rest == rest;
      OneReceived(cfg, s, rest);
    } else {
      assert START.buf + front == front;
      ReadInLimit(th, cfg, a, START, front);
      TwoReceived(cfg, s, front, rest);
      assert Frames([]) + [] == [];
    }
  }

  /**
    With less room the cut does show: bytes that two reads deliver in full can be lost when the first
    `k` of them are waited on and the rest arrives with enough of what follows to break the limit.
   */
  lemma LimitShows(th: Theory, cfg: Config, a: Adapter, f: bytes, g: bytes, k: nat)
    requires Lawful(th) && Sane(cfg) && a in cfg.registry && a.next == th.next && cfg.accept == ALL
    requires Left(th, f) == [] && Delivered(th, g) == []
    requires k < |f| && Delivered(th, f[..k]) == [] && Left(th, f[..k]) == f[..k] && |f[k..] + g| <= READ_CHUNK
    requires g != [] && |f| <= cfg.maxPacketSize && |g| <= cfg.maxPacketSize < |f + g| && |f| <= READ_CHUNK
    ensures Cuts([f, g], f + g) && Cuts(LateCut(f, g, k), f + g)
    ensures Received(cfg, a, LateCut(f, g, k)) == [] && Received(cfg, a, [f, g]) == Delivered(th, f)
  {
    hide Lawful, Delivered, Left, Received;
    ConcatOfTwo(f, g);
    ConcatOfTwo(f[..k], f[k..] + g);
    ConcatOfTwo(f[k..] + g, []);
    assert f[..k] + (f[k..] + g) == f + g;
    assert k == 0 ==> f[k..] + g == f + g;
    LimitKept(th, cfg, a, f, g);
    LimitBroken(th, cfg, a, f[..k], f[k..] + g);
  }

  /** The two reads that break the limit, or the single one if nothing is waited on. */
  function LateCut(f: bytes, g: bytes, k: nat): seq<bytes>
    requires k <= |f|
  {
    if k == 0 then [f + g] else [f[..k], f[k..] + g]
  }

  lemma OneReceived(cfg: Config, s: State, chunk: bytes)
    requires Sane(cfg) && (s.proto.Some? ==> s.proto.value in cfg.registry)
    ensures ReceiveAll(cfg, s, [chunk]) == Receive(cfg, s, chunk)
  {
    hide Receive;
    assert [chunk][1..] == [];
    assert ReceiveAll(cfg, Receive(cfg, s, chunk), []) == Receive(cfg, s, chunk);
  }

  lemma TwoReceived(cfg: Config, s: State, first: bytes, second: bytes)
    requires Sane(cfg) && (s.proto.Some? ==> s.proto.value in cfg.registry)
    ensures ReceiveAll(cfg, s, [first, second]) == Receive(cfg, Receive(cfg, s, first), second)
  {
    hide Receive;
    assert [first, second][1..] == [second];
    OneReceived(cfg, Receive(cfg, s, first), second);
  }

  /** One read within the limit, by a session that refuses nothing. */
  lemma ReadInLimit(th: Theory, cfg: Config, a: Adapter, c: Conn, chunk: bytes)
    requires Lawful(th) && Sane(cfg) && a in cfg.registry && a.next == th.next && cfg.accept == ALL
    requires c.open && |c.buf + chunk| <= cfg.maxPacketSize
    ensures var r := Drain(th.next, ALL, Conn(c.buf + chunk, c.log, true));
      && Receive(cfg, State(Some(a), c), chunk) == State(Some(a), r)
      && r.open && r.buf == Left(th, c.buf + chunk) && Frames(r.log) == Frames(c.log) + Delivered(th, c.buf + chunk)
  {
    hide Lawful, Delivered, Left, Frames, Drain;
    LawfulIsSound(th);
    DrainIs(th, c.buf + chunk, c.log);
  }

  lemma NoFrames()
    ensures Frames([]) == []
  {
  }
}
