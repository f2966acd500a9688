/** The H02 framer (h02/h02.go:113-157, 184-200): texts from '*' to '#', binaries of a configured size after '$'. */
module H02Framer {
  import opened Bytes
  import opened Text
  import opened Framing
  import opened TcpSession
  import opened Chunking
  import H02Binary

  const MARKER_BINARY: byte := 0x24
  const MARKER_TEXT: byte := 0x2A
  const MAX_FRAME := 1024

  predicate IsMarker(b: byte) {
    b == MARKER_BINARY || b == MARKER_TEXT
  }

  function Marker(buf: bytes): (i: int)
    ensures -1 <= i < |buf|
    ensures i < 0 ==> forall k | 0 <= k < |buf| :: !IsMarker(buf[k])
    ensures i >= 0 ==> IsMarker(buf[i]) && forall k | 0 <= k < i :: !IsMarker(buf[k])
  {
    if buf == [] then -1
    else if IsMarker(buf[0]) then 0
    else
      var i := Marker(buf[1..]);
      if i < 0 then -1 else i + 1
  }

  /** indexOfMarker. */
  method IndexOfMarker(buf: bytes) returns (i: int)
    ensures i == Marker(buf)
  {
    i := 0;
    while i < |buf|
      invariant 0 <= i <= |buf| && forall k | 0 <= k < i :: !IsMarker(buf[k])
    {
      if IsMarker(buf[i]) {
        return;
      }
      i := i + 1;
    }
    i := -1;
  }

  /** Protocol.NextFrame; `size` is the configured BinaryFrameLength. */
  function NextH02(size: nat, buf: bytes): (s: Step)
    ensures SoundStep(buf, s)
    ensures buf != [] && !s.More? ==> s.n > 0
  {
    var start := Marker(buf);
    if start < 0 then
      if buf == [] then More else Bad(|buf|)
    else if start > 0 then Bad(start)
    else if buf[0] == MARKER_TEXT then
      var end := IndexOf(buf, HASH);
      if end >= 0 then Frame(buf[..end + 1], end + 1)
      else if |buf| > MAX_FRAME then Bad(|buf|)
      else More
    else if size > 0 then
      if size > MAX_FRAME then Bad(|buf|)
      else if |buf| < size then More
      else Frame(buf[..size], size)
    else if |buf| < H02Binary.MIN_BINARY_PAYLOAD then More
    else if |buf| > MAX_FRAME then Bad(|buf|)
    else Frame(buf, |buf|)
  }

  /** Behind '$' with no length configured: the whole buffer from 29 to 1024 bytes is one frame. */
  lemma UnsetLength(buf: bytes)
    requires buf != [] && buf[0] == 0x24
    ensures NextH02(0, buf) == if |buf| < 29 then More else if |buf| <= 1024 then Frame(buf, |buf|) else Bad(|buf|)
  {
  }

  // ---- Its units ----

  /** A configured binary length the framer accepts. */
  predicate Fixed(size: nat) {
    1 <= size <= MAX_FRAME
  }

  /** A byte before a marker vanishes; a text ends at its '#', a binary after `size` bytes. */
  function H02Head(size: nat, t: bytes): (u: Unit)
    requires Fixed(size)
    ensures u.Whole? ==> 0 < u.n <= |t|
  {
    if t == [] then Open
    else if !IsMarker(t[0]) then Pass
    else if t[0] == MARKER_TEXT then
      var i := IndexOf(t, HASH);
      if i < 0 then Open else Whole(i + 1, true)
    else if |t| < size then Open
    else Whole(size, true)
  }

  function Framer(size: nat): Framer {
    buf => NextH02(size, buf)
  }

  function H02Theory(size: nat): Theory
    requires Fixed(size)
  {
    Theory(Framer(size), t => H02Head(size, t))
  }

  lemma HeadIs(size: nat, t: bytes)
    requires Fixed(size)
    ensures Head(H02Theory(size), t) == H02Head(size, t)
  {
  }

  lemma H02Extends(size: nat, a: bytes, b: bytes)
    requires Fixed(size)
    ensures Extends(H02Theory(size), a, b)
  {
    hide Head, IndexOf;
    HeadIs(size, a);
    HeadIs(size, a + b);
    IndexInConcat(HASH, a, b);
  }

  /** One framer step in terms of the units still to come. */
  lemma H02Step(size: nat, s: bytes)
    requires Fixed(size) && s != []
    ensures var th := H02Theory(size); ForetellsStep(th.next(s), DeliveredOf(th), LeftOf(th), s)
  {
    hide Head, IndexOf, Delivered, Left, Marker;
    var th := H02Theory(size);
    var step := NextH02(size, s);
    HeadIs(size, s);
    Unfold(th, s);
    OnNothing(th);
    if Marker(s) != 0 {
      GarbagePasses(size, s, if Marker(s) < 0 then |s| else Marker(s));
    }
    if !step.More? {
      assert [] + Delivered(th, s[step.n..]) == Delivered(th, s[step.n..]);
      assert step.n == |s| ==> s[step.n..] == [];
    }
  }

  lemma GarbagePasses(size: nat, s: bytes, n: nat)
    requires Fixed(size) && n <= |s| && forall k | 0 <= k < n :: !IsMarker(s[k])
    ensures var th := H02Theory(size);
      Delivered(th, s) == Delivered(th, s[n..]) && Left(th, s) == Left(th, s[n..])
  {
    hide Head, IndexOf, Delivered, Left, Marker;
    var th := H02Theory(size);
    forall k | 0 <= k < n ensures Head(th, s[k..]).Pass? {
      HeadIs(size, s[k..]);
      assert s[k..][0] == s[k];
    }
    PassRun(th, s, n);
  }

  /** A text cut just before its '#', and given up, leaves nothing of itself. */
  lemma HashShows(size: nat, t: bytes)
    requires Fixed(size)
    ensures LastByteShows(H02Theory(size), t)
  {
    hide Head, Canon, IndexOf;
    var th := H02Theory(size);
    HeadIs(size, t);
    if t != [] && Head(th, t).Whole? && WAIT + 1 < Head(th, t).n <= REACH {
      var n := Head(th, t).n;
      var last := t[n - 1..];
      IndexMeans(HASH, t);
      HeadIs(size, last);
      Unfold(th, last);
      assert last[1..] == t[n..];
      assert |Emits(Head(th, t), t) + Canon(th, t[n..])| == 1 + |Canon(th, last)|;
    }
  }

  lemma H02IsLawful(size: nat)
    requires Fixed(size)
    ensures Lawful(H02Theory(size))
  {
    hide Extends, LastByteShows, ForetellsStep;
    var th := H02Theory(size);
    OnNothing(th);
    forall a, b ensures Extends(th, a, b) {
      H02Extends(size, a, b);
    }
    forall t ensures LastByteShows(th, t) {
      HashShows(size, t);
    }
    forall s: bytes | s != [] ensures ForetellsStep(th.next(s), DeliveredOf(th), LeftOf(th), s) {
      H02Step(size, s);
    }
  }

  // ---- Exactly when chunking does not matter ----

  /**
    In a session with room for one read beyond 1024 bytes, and with a fixed binary length, the frames of
    a stream do not depend on how it is cut into reads exactly when it is calm.
   */
  lemma ChunkingIff(size: nat, cfg: Config, a: Adapter, t: bytes)
    requires Fixed(size) && Serves(H02Theory(size), cfg, a)
    ensures CutProof(cfg, a, t) <==> Calm(H02Theory(size), t)
  {
    hide CutProof, Calm, Lawful;
    H02IsLawful(size);
    CutProofIff(H02Theory(size), cfg, a, t);
  }

  /** For streams of texts that fit into a buffer: exactly when every text has at most 1025 bytes. */
  lemma ShortTextsIff(size: nat, cfg: Config, a: Adapter, t: bytes)
    requires Fixed(size) && Serves(H02Theory(size), cfg, a)
    requires UnitsWithin(H02Theory(size), t, REACH)
    ensures CutProof(cfg, a, t) <==> UnitsWithin(H02Theory(size), t, WAIT + 1)
  {
    hide CutProof, Calm, UnitsWithin, Serves;
    ChunkingIff(size, cfg, a, t);
    ShortUnitsAreCalm(H02Theory(size), t);
  }
}
