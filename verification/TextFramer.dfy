/**
  tkstar/parser.go: frames separated by a terminator byte. Unlike gt06 this framer can depend on how
  the stream is cut; the lemmas say exactly for which streams.
 */
module TextFramer {
  import opened Bytes
  import opened Framing
  import opened TcpSession
  import opened Text
  import opened Chunking

  const MAX_TEXT_FRAME := 1024

  /** '\r', '\n' and ' '. */
  predicate IsBlank(b: byte) {
    b == 0x0D || b == 0x0A || b == 0x20
  }

  function Blanks(buf: bytes): (n: nat)
    ensures n <= |buf|
    ensures forall i | 0 <= i < n :: IsBlank(buf[i])
    ensures n < |buf| ==> !IsBlank(buf[n])
  {
    if buf == [] || !IsBlank(buf[0]) then 0 else 1 + Blanks(buf[1..])
  }

  function NextText(terminator: byte, buf: bytes): (s: Step)
    ensures SoundStep(buf, s)
    ensures buf != [] && !s.More? ==> s.n > 0
  {
    var skip := Blanks(buf);
    if skip > 0 then Skip(skip)
    else
      var idx := IndexOf(buf, terminator);
      if idx < 0 then
        if |buf| > MAX_TEXT_FRAME then Bad(|buf|) else More
      else if idx + 1 > MAX_TEXT_FRAME then Bad(idx + 1)
      else Frame(buf[..idx + 1], idx + 1)
  }

  /** textFramer.nextFrame with its two scan loops. */
  method NextTextFrame(terminator: byte, buf: bytes) returns (s: Step)
    ensures s == NextText(terminator, buf)
  {
    var skip := 0;
    while skip < |buf| && IsBlank(buf[skip])
      invariant skip <= |buf| && Blanks(buf) == skip + Blanks(buf[skip..])
    {
      assert buf[skip..][1..] == buf[skip + 1..];
      skip := skip + 1;
    }
    if skip > 0 {
      return Skip(skip);
    }
    var idx := -1;
    var i := 0;
    while i < |buf|
      invariant i <= |buf| && forall k | 0 <= k < i :: buf[k] != terminator
      invariant idx == -1
    {
      if buf[i] == terminator {
        idx := i;
        break;
      }
      i := i + 1;
    }
    FirstIsIndexOf(terminator, buf, i);
    if idx < 0 {
      return if |buf| > MAX_TEXT_FRAME then Bad(|buf|) else More;
    }
    return if idx + 1 > MAX_TEXT_FRAME then Bad(idx + 1) else Frame(buf[..idx + 1], idx + 1);
  }

  // ---- Its units ----

  /** A blank vanishes; anything else starts a line, delivered if it has at most 1024 bytes. */
  function TextHead(terminator: byte, t: bytes): (u: Unit)
    ensures u.Whole? ==> 0 < u.n <= |t|
  {
    if t == [] then Open
    else if IsBlank(t[0]) then Pass
    else
      var i := IndexOf(t, terminator);
      if i < 0 then Open else Whole(i + 1, i + 1 <= MAX_TEXT_FRAME)
  }

  function Framer(terminator: byte): Framer {
    buf => NextText(terminator, buf)
  }

  function TextTheory(terminator: byte): Theory {
    Theory(Framer(terminator), t => TextHead(terminator, t))
  }

  lemma HeadIs(terminator: byte, t: bytes)
    ensures Head(TextTheory(terminator), t) == TextHead(terminator, t)
  {
  }

  lemma TextExtends(terminator: byte, a: bytes, b: bytes)
    ensures Extends(TextTheory(terminator), a, b)
  {
    hide Head, IndexOf;
    HeadIs(terminator, a);
    HeadIs(terminator, a + b);
    IndexInConcat(terminator, a, b);
  }

  /** One framer step in terms of the lines still to come. */
  lemma TextStep(terminator: byte, s: bytes)
    requires s != []
    ensures var th := TextTheory(terminator); ForetellsStep(th.next(s), DeliveredOf(th), LeftOf(th), s)
  {
    hide Head, IndexOf, Delivered, Left, Blanks;
    var th := TextTheory(terminator);
    var step := NextText(terminator, s);
    HeadIs(terminator, s);
    Unfold(th, s);
    OnNothing(th);
    if Blanks(s) > 0 {
      BlanksPass(terminator, s);
    }
    if !step.More? {
      assert [] + Delivered(th, s[step.n..]) == Delivered(th, s[step.n..]);
      assert step.n == |s| ==> s[step.n..] == [];
    }
  }

  lemma BlanksPass(terminator: byte, s: bytes)
    ensures var th, n := TextTheory(terminator), Blanks(s);
      Delivered(th, s) == Delivered(th, s[n..]) && Left(th, s) == Left(th, s[n..])
  {
    hide Head, IndexOf, Delivered, Left;
    var th, n := TextTheory(terminator), Blanks(s);
    forall k | 0 <= k < n ensures Head(th, s[k..]).Pass? {
      HeadIs(terminator, s[k..]);
      assert s[k..][0] == s[k];
    }
    PassRun(th, s, n);
  }

  lemma LoneTerminator(terminator: byte, last: bytes)
    requires !IsBlank(terminator) && last != [] && last[0] == terminator
    ensures var th := TextTheory(terminator); |Canon(th, last)| == 1 + |Canon(th, last[1..])|
  {
    hide Head, Canon, IndexOf;
    HeadIs(terminator, last);
    FirstIsIndexOf(terminator, last, 0);
    Unfold(TextTheory(terminator), last);
  }

  /** A line too long to be delivered, cut just before its terminator, yields the terminator as a frame. */
  lemma TerminatorShows(terminator: byte, t: bytes)
    requires !IsBlank(terminator)
    ensures LastByteShows(TextTheory(terminator), t)
  {
    hide Head, Canon, IndexOf;
    var th := TextTheory(terminator);
    HeadIs(terminator, t);
    if t != [] && Head(th, t).Whole? && WAIT + 1 < Head(th, t).n <= REACH {
      var n := Head(th, t).n;
      IndexMeans(terminator, t);
      LoneTerminator(terminator, t[n - 1..]);
      assert t[n - 1..][1..] == t[n..];
      assert Emits(Head(th, t), t) == [];
    }
  }

  lemma TextIsLawful(terminator: byte)
    requires !IsBlank(terminator)
    ensures Lawful(TextTheory(terminator))
  {
    hide Extends, LastByteShows, ForetellsStep;
    var th := TextTheory(terminator);
    OnNothing(th);
    forall a, b ensures Extends(th, a, b) {
      TextExtends(terminator, a, b);
    }
    forall t ensures LastByteShows(th, t) {
      TerminatorShows(terminator, t);
    }
    forall s: bytes | s != [] ensures ForetellsStep(th.next(s), DeliveredOf(th), LeftOf(th), s) {
      TextStep(terminator, s);
    }
  }

  // ---- Exactly when chunking does not matter ----

  /**
    In a session with room for one read beyond 1024 bytes, the frames of a stream do not depend on how
    it is cut into reads exactly when it is calm.
   */
  lemma ChunkingIff(terminator: byte, cfg: Config, a: Adapter, t: bytes)
    requires !IsBlank(terminator) && Serves(TextTheory(terminator), cfg, a)
    ensures CutProof(cfg, a, t) <==> Calm(TextTheory(terminator), t)
  {
    hide CutProof, Calm, Lawful;
    TextIsLawful(terminator);
    CutProofIff(TextTheory(terminator), cfg, a, t);
  }

  /** For streams of lines that fit into a buffer: exactly when every line has at most 1025 bytes. */
  lemma ShortLinesIff(terminator: byte, cfg: Config, a: Adapter, t: bytes)
    requires !IsBlank(terminator) && Serves(TextTheory(terminator), cfg, a)
    requires UnitsWithin(TextTheory(terminator), t, REACH)
    ensures CutProof(cfg, a, t) <==> UnitsWithin(TextTheory(terminator), t, WAIT + 1)
  {
    hide CutProof, Calm, UnitsWithin, Serves;
    ChunkingIff(terminator, cfg, a, t);
    ShortUnitsAreCalm(TextTheory(terminator), t);
  }

  // ---- A long line that no cut can change ----

  function Run(b: byte, n: nat): (s: bytes)
    ensures |s| == n && forall i | 0 <= i < n :: s[i] == b
  {
    seq(n, _ => b)
  }

  lemma {:induction false} BlanksThenTerminator(terminator: byte, n: nat)
    requires !IsBlank(terminator)
    ensures var th, t := TextTheory(terminator), Run(0x20, n) + [terminator];
      Calm(th, t) && Canon(th, t) == [[terminator]]
  {
    hide Head, IndexOf, Canon, Calm;
    var th, t := TextTheory(terminator), Run(0x20, n) + [terminator];
    HeadIs(terminator, t);
    Unfold(th, t);
    OnNothing(th);
    if n == 0 {
      FirstIsIndexOf(terminator, t, 0);
      assert t[1..] == [] && t[..1] == [terminator];
    } else {
      assert t[1..] == Run(0x20, n - 1) + [terminator];
      BlanksThenTerminator(terminator, n - 1);
    }
  }

  /** Text that overflows, blanks beyond any single read, then the terminator: every cut delivers the same. */
  lemma LongLineCanBeCalm(terminator: byte, x: byte, n: nat)
    requires !IsBlank(terminator) && !IsBlank(x) && x != terminator && terminator != 0x20 && n >= READ_CHUNK
    ensures Calm(TextTheory(terminator), Run(x, WAIT + 1) + Run(0x20, n) + [terminator])
  {
    hide Head, IndexOf, Canon, Calm;
    var th, t := TextTheory(terminator), Run(x, WAIT + 1) + Run(0x20, n) + [terminator];
    HeadIs(terminator, t);
    Unfold(th, t);
    FirstIsIndexOf(terminator, t, WAIT + 1 + n);
    forall d: nat | WAIT < d <= REACH ensures Calm(th, t[d..]) && Canon(th, t[d..]) == [[terminator]] {
      assert t[d..] == Run(0x20, WAIT + 1 + n - d) + [terminator];
      BlanksThenTerminator(terminator, WAIT + 1 + n - d);
    }
  }

  // ---- Why the room is needed ----

  /** A line just too long to be delivered, and a short one. */
  function Crowded(terminator: byte, x: byte): bytes {
    Run(x, WAIT) + [terminator] + [x, terminator]
  }

  lemma CrowdedDelivers(terminator: byte, x: byte)
    requires !IsBlank(terminator) && !IsBlank(x) && x != terminator
    ensures var th, f := TextTheory(terminator), Crowded(terminator, x);
      |f| == WAIT + 3 && Delivered(th, f) == [[x, terminator]] && Left(th, f) == []
  {
    hide Head, IndexOf, Delivered, Left;
    var th, f, last: bytes := TextTheory(terminator), Crowded(terminator, x), [x, terminator];
    HeadIs(terminator, f);
    FirstIsIndexOf(terminator, f, WAIT);
    Unfold(th, f);
    assert f[WAIT + 1..] == last;
    HeadIs(terminator, last);
    FirstIsIndexOf(terminator, last, 1);
    Unfold(th, last);
    OnNothing(th);
    assert last[2..] == [] && last[..2] == last;
  }

  lemma FrontWaits(terminator: byte, x: byte, k: nat)
    requires !IsBlank(terminator) && !IsBlank(x) && x != terminator && k <= WAIT
    ensures var th, front := TextTheory(terminator), Crowded(terminator, x)[..k];
      Delivered(th, front) == [] && Left(th, front) == front
  {
    hide Head, IndexOf, Delivered, Left;
    var th, front := TextTheory(terminator), Crowded(terminator, x)[..k];
    OnNothing(th);
    if k > 0 {
      HeadIs(terminator, front);
      FirstIsIndexOf(terminator, front, k);
      Unfold(th, front);
    }
  }

  lemma {:induction false} BlanksDeliverNothing(terminator: byte, n: nat)
    ensures Delivered(TextTheory(terminator), Run(0x20, n)) == []
  {
    hide Head, IndexOf, Delivered, Left;
    var th, t := TextTheory(terminator), Run(0x20, n);
    OnNothing(th);
    if n > 0 {
      HeadIs(terminator, t);
      Unfold(th, t);
      assert t[1..] == Run(0x20, n - 1);
      BlanksDeliverNothing(terminator, n - 1);
    }
  }

  /** Bytes of which a late cut loses a line: a crowded front, or with a smaller limit just one line. */
  function Front(terminator: byte, x: byte, limit: nat): bytes {
    if limit < WAIT + 3 then [x, terminator] else Crowded(terminator, x)
  }

  lemma FrontDelivers(terminator: byte, x: byte, limit: nat)
    requires !IsBlank(terminator) && !IsBlank(x) && x != terminator
    ensures var th, f := TextTheory(terminator), Front(terminator, x, limit);
      Delivered(th, f) == [[x, terminator]] && Left(th, f) == [] && |f| == if limit < WAIT + 3 then 2 else WAIT + 3
  {
    hide Head, IndexOf, Delivered, Left, Crowded;
    var th, line: bytes := TextTheory(terminator), [x, terminator];
    CrowdedDelivers(terminator, x);
    HeadIs(terminator, line);
    FirstIsIndexOf(terminator, line, 1);
    Unfold(th, line);
    OnNothing(th);
    assert line[2..] == [] && line[..2] == line;
  }

  /** For every packet limit below 3072 bytes that the configuration accepts, some calm stream's frames depend on the cut. */
  lemma RoomIsNeeded(terminator: byte, x: byte, limit: nat, k: nat)
    requires !IsBlank(terminator) && !IsBlank(x) && x != terminator
    requires 512 <= limit < REACH && k == (if limit < READ_CHUNK then 0 else limit + 1 - READ_CHUNK)
    ensures Sane(Config([Adapter(_ => true, Framer(terminator))], ALL, limit))
    ensures var a := Adapter(_ => true, Framer(terminator));
      var f := Front(terminator, x, limit);
      |f| <= limit &&
      var g := Run(0x20, limit + 1 - |f|);
      && k <= |f| && Calm(TextTheory(terminator), f + g) && Cuts([f, g], f + g) && Cuts(LateCut(f, g, k), f + g)
      && Received(Config([a], ALL, limit), a, LateCut(f, g, k)) == []
      && Received(Config([a], ALL, limit), a, [f, g]) == [[x, terminator]]
  {
    hide Lawful, Delivered, Left, Received, Cuts, Crowded, Front, Calm;
    var th, f := TextTheory(terminator), Front(terminator, x, limit);
    TextIsLawful(terminator);
    LawfulIsSound(th);
    FrontDelivers(terminator, x, limit);
    var g := Run(0x20, limit + 1 - |f|);
    BlanksDeliverNothing(terminator, |g|);
    FrontIsCalm(terminator, x, limit, |g|);
    OnNothing(th);
    if k > 0 {
      FrontIsCrowded(terminator, x, limit);
      FrontWaits(terminator, x, k);
    } else {
      assert f[..0] == [];
    }
    var a := Adapter(_ => true, Framer(terminator));
    LimitShows(th, Config([a], ALL, limit), a, f, g, k);
  }

  lemma {:induction false} BlanksAreCalm(terminator: byte, n: nat)
    ensures Calm(TextTheory(terminator), Run(0x20, n))
  {
    hide Head, IndexOf, Calm;
    var th, t := TextTheory(terminator), Run(0x20, n);
    OnNothing(th);
    if n > 0 {
      HeadIs(terminator, t);
      Unfold(th, t);
      assert t[1..] == Run(0x20, n - 1);
      BlanksAreCalm(terminator, n - 1);
    }
  }

  /** Yet the stream is calm: it is the limit, not the framer, that lets the cut show. */
  lemma FrontIsCalm(terminator: byte, x: byte, limit: nat, n: nat)
    requires !IsBlank(terminator) && !IsBlank(x) && x != terminator
    ensures Calm(TextTheory(terminator), Front(terminator, x, limit) + Run(0x20, n))
  {
    hide Head, IndexOf, Calm;
    var th, line: bytes := TextTheory(terminator), [x, terminator] + Run(0x20, n);
    BlanksAreCalm(terminator, n);
    HeadIs(terminator, line);
    FirstIsIndexOf(terminator, line, 1);
    Unfold(th, line);
    assert line[2..] == Run(0x20, n);
    if limit >= WAIT + 3 {
      var t := Front(terminator, x, limit) + Run(0x20, n);
      HeadIs(terminator, t);
      FirstIsIndexOf(terminator, t, WAIT);
      Unfold(th, t);
      assert t[WAIT + 1..] == line;
    }
  }

  lemma FrontIsCrowded(terminator: byte, x: byte, limit: nat)
    ensures limit >= WAIT + 3 ==> Front(terminator, x, limit) == Crowded(terminator, x)
  {
  }
}
