/**
  Streams of text lines (tkstar/parser.go) and of H02 texts and binaries (h02/h02.go) with gaps and
  noise in between: what a session dispatches of them, however they are cut into reads.
 */
module TextStreams {
  import opened Bytes
  import opened Wrappers
  import opened Framing
  import opened TcpSession
  import opened Text
  import opened Chunking
  import TextFramer
  import H02Framer

  // ---- Lines ----

  /** A line without its terminator, and the line ends and blanks before it. */
  datatype Line = Line(gap: bytes, body: bytes)

  predicate IsGap(b: byte) {
    b == 13 || b == 10 || b == 32
  }

  predicate Stands(terminator: byte, l: Line) {
    && (forall i | 0 <= i < |l.gap| :: IsGap(l.gap[i]))
    && terminator !in l.body && |l.body| <= 1024 && (l.body != [] ==> !IsGap(l.body[0]))
  }

  function Typed(terminator: byte, lines: seq<Line>): bytes {
    if lines == [] then [] else lines[0].gap + (lines[0].body + [terminator] + Typed(terminator, lines[1..]))
  }

  /** The lines that fit: at most 1024 bytes with the terminator. */
  function Fitting(terminator: byte, lines: seq<Line>): seq<bytes> {
    if lines == [] then []
    else (if |lines[0].body| < 1024 then [lines[0].body + [terminator]] else []) + Fitting(terminator, lines[1..])
  }

  lemma {:induction false} GapPasses(terminator: byte, gap: bytes, rest: bytes)
    requires forall i | 0 <= i < |gap| :: IsGap(gap[i])
    ensures var th := TextFramer.TextTheory(terminator);
      Canon(th, gap + rest) == Canon(th, rest) && Calm(th, gap + rest) == Calm(th, rest)
  {
    hide Head, Canon, Calm;
    var th := TextFramer.TextTheory(terminator);
    if gap == [] {
      assert gap + rest == rest;
    } else {
      TextFramer.HeadIs(terminator, gap + rest);
      Unfold(th, gap + rest);
      assert (gap + rest)[1..] == gap[1..] + rest;
      GapPasses(terminator, gap[1..], rest);
    }
  }

  lemma LineIsUnit(terminator: byte, body: bytes, rest: bytes)
    requires terminator !in body && |body| <= 1024 && (body != [] ==> !IsGap(body[0])) && !IsGap(terminator)
    ensures var th := TextFramer.TextTheory(terminator);
      var t := body + [terminator] + rest;
      && Canon(th, t) == (if |body| < 1024 then [body + [terminator]] else []) + Canon(th, rest)
      && Calm(th, t) == Calm(th, rest)
  {
    hide Head, Canon, Calm, IndexOf;
    var th := TextFramer.TextTheory(terminator);
    var t := body + [terminator] + rest;
    TextFramer.HeadIs(terminator, t);
    FirstIsIndexOf(terminator, t, |body|);
    Unfold(th, t);
    assert t[|body| + 1..] == rest && t[..|body| + 1] == body + [terminator];
  }

  lemma {:induction false} LinesAreCalm(terminator: byte, lines: seq<Line>)
    requires !IsGap(terminator) && forall k | 0 <= k < |lines| :: Stands(terminator, lines[k])
    ensures var th, t := TextFramer.TextTheory(terminator), Typed(terminator, lines);
      Calm(th, t) && Canon(th, t) == Fitting(terminator, lines)
  {
    hide Canon, Calm;
    var th := TextFramer.TextTheory(terminator);
    if lines == [] {
      OnNothing(th);
    } else {
      var rest := Typed(terminator, lines[1..]);
      assert Stands(terminator, lines[0]);
      GapPasses(terminator, lines[0].gap, lines[0].body + [terminator] + rest);
      LineIsUnit(terminator, lines[0].body, rest);
      LinesAreCalm(terminator, lines[1..]);
    }
  }

  /**
    However the stream is cut into reads, a session that refuses nothing dispatches every line of at most
    1024 bytes, in order and whole, and nothing else.
   */
  lemma LinesArrive(terminator: byte, lines: seq<Line>, cfg: Config, a: Adapter, chunks: seq<bytes>)
    requires !IsGap(terminator) && forall k | 0 <= k < |lines| :: Stands(terminator, lines[k])
    requires Sane(cfg) && a in cfg.registry && a.next == TextFramer.Framer(terminator)
    requires cfg.maxPacketSize >= 3072 && cfg.accept == ALL
    requires Concat(chunks) == Typed(terminator, lines) && forall c | c in chunks :: 0 < |c| <= 2048
    ensures Received(cfg, a, chunks) == Fitting(terminator, lines)
  {
    hide Lawful, Calm, Canon, Received, Typed, Fitting;
    var th := TextFramer.TextTheory(terminator);
    LinesAreCalm(terminator, lines);
    TextFramer.TextIsLawful(terminator);
    CalmSession(th, cfg, a, chunks, Typed(terminator, lines));
    GateOfAll([], Fitting(terminator, lines));
    assert [] + Fitting(terminator, lines) == Fitting(terminator, lines);
  }

  // ---- H02 texts and binaries ----

  /** A text between '*' and '#', or a binary behind '$', and the noise before it. */
  datatype Item =
    | Text(noise: bytes, body: bytes)
    | Binary(noise: bytes, body: bytes)

  predicate Spellable(size: nat, x: Item) {
    && 0x24 !in x.noise && 0x2A !in x.noise
    && (match x case Text(_, body) => 0x23 !in body && |body| <= 1023 case Binary(_, body) => |body| + 1 == size)
  }

  function Spelled(x: Item): bytes {
    match x
    case Text(_, body) => [0x2A] + body + [0x23]
    case Binary(_, body) => [0x24] + body
  }

  function Spoken(items: seq<Item>): bytes {
    if items == [] then [] else items[0].noise + (Spelled(items[0]) + Spoken(items[1..]))
  }

  function AllSpelled(items: seq<Item>): seq<bytes> {
    if items == [] then [] else [Spelled(items[0])] + AllSpelled(items[1..])
  }

  lemma {:induction false} NoisePasses(size: nat, noise: bytes, rest: bytes)
    requires 1 <= size <= 1024 && 0x24 !in noise && 0x2A !in noise
    ensures var th := H02Framer.H02Theory(size);
      Canon(th, noise + rest) == Canon(th, rest) && Calm(th, noise + rest) == Calm(th, rest)
  {
    hide Head, Canon, Calm;
    var th := H02Framer.H02Theory(size);
    if noise == [] {
      assert noise + rest == rest;
    } else {
      H02Framer.HeadIs(size, noise + rest);
      Unfold(th, noise + rest);
      assert (noise + rest)[1..] == noise[1..] + rest;
      NoisePasses(size, noise[1..], rest);
    }
  }

  lemma ItemIsUnit(size: nat, x: Item, rest: bytes)
    requires 1 <= size <= 1024 && Spellable(size, x)
    ensures var th, t := H02Framer.H02Theory(size), Spelled(x) + rest;
      Canon(th, t) == [Spelled(x)] + Canon(th, rest) && Calm(th, t) == Calm(th, rest)
  {
    hide Head, Canon, Calm, IndexOf;
    var th, t, n := H02Framer.H02Theory(size), Spelled(x) + rest, |Spelled(x)|;
    H02Framer.HeadIs(size, t);
    Unfold(th, t);
    assert t[n..] == rest && t[..n] == Spelled(x);
    if x.Text? {
      HashEnds(x.body, rest);
    }
  }

  lemma HashEnds(body: bytes, rest: bytes)
    requires 0x23 !in body
    ensures IndexOf([0x2A] + body + [0x23] + rest, 0x23) == |body| + 1
  {
    FirstIsIndexOf(0x23, [0x2A] + body + [0x23] + rest, |body| + 1);
  }

  lemma {:induction false} ItemsAreCalm(size: nat, items: seq<Item>)
    requires 1 <= size <= 1024 && forall k | 0 <= k < |items| :: Spellable(size, items[k])
    ensures var th, t := H02Framer.H02Theory(size), Spoken(items);
      Calm(th, t) && Canon(th, t) == AllSpelled(items)
  {
    hide Canon, Calm, Spelled;
    var th := H02Framer.H02Theory(size);
    if items == [] {
      OnNothing(th);
    } else {
      var rest := Spoken(items[1..]);
      assert Spellable(size, items[0]);
      NoisePasses(size, items[0].noise, Spelled(items[0]) + rest);
      ItemIsUnit(size, items[0], rest);
      ItemsAreCalm(size, items[1..]);
    }
  }

  /**
    However the stream is cut into reads, a session that refuses nothing dispatches every text of at most
    1025 bytes and every binary of the configured size, in order and whole, and nothing of the noise.
   */
  lemma ItemsArrive(size: nat, items: seq<Item>, cfg: Config, a: Adapter, chunks: seq<bytes>)
    requires 1 <= size <= 1024 && forall k | 0 <= k < |items| :: Spellable(size, items[k])
    requires Sane(cfg) && a in cfg.registry && a.next == H02Framer.Framer(size)
    requires cfg.maxPacketSize >= 3072 && cfg.accept == ALL
    requires Concat(chunks) == Spoken(items) && forall c | c in chunks :: 0 < |c| <= 2048
    ensures Received(cfg, a, chunks) == AllSpelled(items)
  {
    hide Lawful, Calm, Canon, Received, Spoken, AllSpelled;
    var th := H02Framer.H02Theory(size);
    ItemsAreCalm(size, items);
    H02Framer.H02IsLawful(size);
    CalmSession(th, cfg, a, chunks, Spoken(items));
    GateOfAll([], AllSpelled(items));
    assert [] + AllSpelled(items) == AllSpelled(items);
  }
}
