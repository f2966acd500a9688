/**
  Which protocol the server (cmd/server/main.go, protocols/tracker.go) takes a stream for, from its
  first bytes and however they are cut into reads.
 */
module Detection {
  import opened Bytes
  import opened Wrappers
  import opened Text
  import opened Tracker
  import opened Framing
  import opened TcpSession
  import opened Gt06Frame
  import opened Gt06Session
  import opened Server
  import TextFramer

  /** Ten to twenty decimal digits, the first not zero. */
  predicate Identifier(id: bytes) {
    10 <= |id| <= 20 && id[0] != 48 && forall i | 0 <= i < |id| :: 48 <= id[i] <= 57
  }

  // ---- What each adapter claims ----

  /** gt06, then H02, then tkstar, then the capture adapter if it is on. */
  lemma Order(size: nat, capture: bool, b: bytes)
    ensures var registry := Protocols(size, capture);
      Detect(registry, b) ==
        if DetectGt06(b) then Some(registry[0]) else if DetectH02(b) then Some(registry[1])
        else if DetectV1(b) then Some(registry[2]) else if capture && b != [] then Some(registry[4]) else None
  {
    hide NextFrame, DetectGt06, DetectH02, DetectV1, Detect;
    var r := Protocols(size, capture);
    DetectStep(r, b);
    DetectStep(r[1..], b);
    DetectStep(r[2..], b);
    DetectStep(r[3..], b);
    DetectStep(r[4..], b);
    assert r[1..][1..] == r[2..] && r[2..][1..] == r[3..] && r[3..][1..] == r[4..] && r[4..][1..] == [];
    assert Detect([], b).None?;
  }

  lemma DetectStep(registry: seq<Adapter>, b: bytes)
    requires registry != []
    ensures Detect(registry, b) == if registry[0].detects(b) then Some(registry[0]) else Detect(registry[1..], b)
  {
  }

  /** Two equal delimiter bytes, 0x78 or 0x79. */
  lemma Gt06Claims(b: bytes)
    ensures DetectGt06(b) <==> |b| >= 2 && ((b[0] == 0x78 && b[1] == 0x78) || (b[0] == 0x79 && b[1] == 0x79))
  {
  }

  /** '$' at once; '*' while the first field is short, and then on a plausible identifier in the second. */
  lemma H02Claims(maker: bytes, id: bytes, rest: bytes)
    requires COMMA !in maker && COMMA !in id
    ensures DetectH02([0x24] + rest)
    ensures DetectH02([0x2A] + maker) <==> |maker| < 31
    ensures DetectH02([0x2A] + maker + [0x2C] + id + [0x2C] + rest) <==> ValidIMEI(Trim(id))
    ensures (id != [] ==> id[|id| - 1] != HASH) ==> (DetectH02([0x2A] + maker + [0x2C] + id) <==> ValidIMEI(Trim(id)))
  {
    hide Split, ValidIMEI, Trim;
    var first: bytes := [0x2A] + maker;
    SplitField(first, []);
    SplitField(first[..|first| - 1], []);
    var b := first + [0x2C] + id + [0x2C] + rest;
    var cut := if b[|b| - 1] == HASH then b[..|b| - 1] else b;
    var tail := if rest != [] && rest[|rest| - 1] == HASH then rest[..|rest| - 1] else rest;
    assert cut == first + [COMMA] + (id + [COMMA] + tail);
    SplitField(first, id + [COMMA] + tail);
    SplitField(id, tail);
    assert first + [0x2C] + id == first + [COMMA] + id;
    SplitField(first, id);
  }

  lemma NoGap(s: bytes)
    requires s != [] && s[0] != 13 && s[0] != 10 && s[0] != 32
    ensures TextFramer.Blanks(s) == 0 && s[TextFramer.Blanks(s)..] == s
  {
  }

  lemma GapIsSkipped(gap: bytes, s: bytes)
    requires forall i | 0 <= i < |gap| :: gap[i] == 13 || gap[i] == 10 || gap[i] == 32
    requires s != [] ==> s[0] != 13 && s[0] != 10 && s[0] != 32
    ensures DetectV1(gap + s) <==> DetectV1(s)
  {
    hide ValidIMEI, AllDigits;
    GapIsBlanks(gap, s);
    GapIsBlanks([], s);
    assert [] + s == s;
    assert (gap + s)[|gap|..] == s && s[TextFramer.Blanks(s)..] == s;
  }

  lemma {:induction false} GapIsBlanks(gap: bytes, s: bytes)
    requires forall i | 0 <= i < |gap| :: gap[i] == 13 || gap[i] == 10 || gap[i] == 32
    requires s != [] ==> s[0] != 13 && s[0] != 10 && s[0] != 32
    ensures TextFramer.Blanks(gap + s) == |gap|
  {
    if gap == [] {
      assert gap + s == s;
    } else {
      assert (gap + s)[1..] == gap[1..] + s;
      GapIsBlanks(gap[1..], s);
    }
  }

  /** The two prefixes of tkstar lines, letter by letter. */
  predicate TkstarLine(t: bytes) {
    [0x23, 0x23, 0x2C, 0x69, 0x6D, 0x65, 0x69, 0x3A] <= t || [0x69, 0x6D, 0x65, 0x69, 0x3A] <= t
  }

  lemma V1ClaimsLines(t: bytes)
    requires TkstarLine(t)
    ensures DetectV1(t)
  {
    assert LOGIN_PREFIX == [0x23, 0x23, 0x2C, 0x69, 0x6D, 0x65, 0x69, 0x3A];
    NoGap(t);
  }

  /** A bare identifier closed by ';', and every beginning of one. */
  lemma V1ClaimsIdentifiers(id: bytes, rest: bytes, k: nat)
    requires Identifier(id) && 0 < k <= |id|
    ensures DetectV1(id[..k]) && DetectV1(id + [0x3B] + rest)
  {
    hide Trim, ValidIMEI, TextFramer.Blanks;
    NoGap(id[..k]);
    FirstIsIndexOf(0x3B, id[..k], k);
    var t := id + [0x3B] + rest;
    NoGap(t);
    FirstIsIndexOf(0x3B, t, |id|);
    assert t[..|id|] == id;
    IdentifierIsValid(id);
  }

  lemma IdentifierIsValid(id: bytes)
    requires Identifier(id)
    ensures ValidIMEI(id) && Trim(id) == id
  {
    hide Trim;
    TrimNothing(id);
  }

  // ---- However the stream is cut ----

  /** Every beginning of the stream is claimed by `a`, or is under eight bytes and claimed by nobody. */
  ghost predicate Settles(registry: seq<Adapter>, a: Adapter, t: bytes) {
    && t != [] && Detect(registry, t) == Some(a)
    && forall k | 0 < k <= |t| :: Detect(registry, t[..k]) == Some(a) || (Detect(registry, t[..k]).None? && k < 8)
  }

  lemma {:induction false} SettledUnderEveryCut(cfg: Config, a: Adapter, t: bytes, b: bytes, chunks: seq<bytes>)
    requires Sane(cfg) && Settles(cfg.registry, a, t) && cfg.maxPacketSize >= 2056
    requires b + Concat(chunks) == t && |b| < 8 && (b == [] || Detect(cfg.registry, b).None?)
    requires forall k | 0 <= k < |chunks| :: 0 < |chunks[k]| <= 2048
    ensures ReceiveAll(cfg, State(None, Conn(b, [], true)), chunks).proto == Some(a)
    decreases |chunks|
  {
    hide Detect, Drain;
    assert b + [] == b;
    if chunks != [] {
      var s, grown := State(None, Conn(b, [], true)), b + chunks[0];
      assert grown == t[..|grown|] && grown + Concat(chunks[1..]) == t;
      var after := Receive(cfg, s, chunks[0]);
      if Detect(cfg.registry, grown).None? {
        SettledUnderEveryCut(cfg, a, t, grown, chunks[1..]);
      } else {
        ProtocolSticks(cfg, after, chunks[1..]);
      }
    }
  }

  lemma SettledFresh(cfg: Config, a: Adapter, t: bytes, chunks: seq<bytes>)
    requires Sane(cfg) && Settles(cfg.registry, a, t) && cfg.maxPacketSize >= 2056 && Cuts(chunks, t)
    ensures ReceiveAll(cfg, FRESH, chunks).proto == Some(a)
  {
    hide Settles, Detect, ReceiveAll;
    assert [] + Concat(chunks) == t;
    forall k | 0 <= k < |chunks| ensures 0 < |chunks[k]| <= 2048 {
      assert chunks[k] in chunks;
    }
    SettledUnderEveryCut(cfg, a, t, [], chunks);
  }

  /** A stream that begins with '$' is H02, however it is cut. */
  lemma DollarIsH02(size: nat, capture: bool, accept: Verdict, limit: nat, t: bytes, chunks: seq<bytes>)
    requires t != [] && t[0] == 0x24 && Cuts(chunks, t) && limit >= 2056
    ensures var cfg := Config(Protocols(size, capture), accept, limit);
      Sane(cfg) && ReceiveAll(cfg, FRESH, chunks).proto == Some(cfg.registry[1])
  {
    hide Protocols, Detect, ReceiveAll, Settles, DetectV1, Cuts;
    var cfg := Config(Protocols(size, capture), accept, limit);
    ServerIsSane(size, capture, accept, limit);
    DollarSettles(size, capture, t);
    SettledFresh(cfg, cfg.registry[1], t, chunks);
  }

  lemma DollarSettles(size: nat, capture: bool, t: bytes)
    requires t != [] && t[0] == 0x24
    ensures Settles(Protocols(size, capture), Protocols(size, capture)[1], t)
  {
    hide Protocols, Detect, DetectV1;
    forall k: nat | 0 < k <= |t| ensures Detect(Protocols(size, capture), t[..k]) == Some(Protocols(size, capture)[1]) {
      Order(size, capture, t[..k]);
    }
    assert t[..|t|] == t;
  }

  /** A stream that begins with a tkstar login or report is tkstar, however it is cut, while the capture adapter is off. */
  lemma LineIsTkstar(size: nat, accept: Verdict, limit: nat, t: bytes, chunks: seq<bytes>)
    requires TkstarLine(t) && Cuts(chunks, t) && limit >= 2056
    ensures var cfg := Config(Protocols(size, false), accept, limit);
      Sane(cfg) && ReceiveAll(cfg, FRESH, chunks).proto == Some(cfg.registry[2])
  {
    hide Protocols, Detect, ReceiveAll, Settles, DetectV1, Cuts, TkstarLine;
    var cfg := Config(Protocols(size, false), accept, limit);
    ServerIsSane(size, false, accept, limit);
    LineSettles(size, t);
    SettledFresh(cfg, cfg.registry[2], t, chunks);
  }

  lemma LineSettles(size: nat, t: bytes)
    requires TkstarLine(t)
    ensures Settles(Protocols(size, false), Protocols(size, false)[2], t)
  {
    hide Protocols, Detect, DetectV1, TkstarLine;
    LineStarts(t);
    forall k: nat | 0 < k <= |t|
      ensures Detect(Protocols(size, false), t[..k]) == Some(Protocols(size, false)[2])
        || (Detect(Protocols(size, false), t[..k]).None? && k < 8)
    {
      Order(size, false, t[..k]);
      if k >= 8 {
        LineStays(t, k);
        V1ClaimsLines(t[..k]);
      }
    }
    Order(size, false, t);
    V1ClaimsLines(t);
    assert t[..|t|] == t;
  }

  lemma LineStarts(t: bytes)
    requires TkstarLine(t)
    ensures t != [] && (t[0] == 0x23 || t[0] == 0x69)
  {
  }

  lemma LineStays(t: bytes, k: nat)
    requires TkstarLine(t) && 8 <= k <= |t|
    ensures TkstarLine(t[..k])
  {
  }

  /** A stream that begins with a bare identifier and ';' is tkstar, however it is cut. */
  lemma IdentifierIsTkstar(size: nat, capture: bool, accept: Verdict, limit: nat, id: bytes, rest: bytes, chunks: seq<bytes>)
    requires Identifier(id) && Cuts(chunks, id + [0x3B] + rest) && limit >= 2056
    ensures var cfg := Config(Protocols(size, capture), accept, limit);
      Sane(cfg) && ReceiveAll(cfg, FRESH, chunks).proto == Some(cfg.registry[2])
  {
    hide Protocols, Detect, ReceiveAll, Settles, Cuts, Identifier;
    var cfg := Config(Protocols(size, capture), accept, limit);
    ServerIsSane(size, capture, accept, limit);
    IdentifierSettles(size, capture, id, rest);
    SettledFresh(cfg, cfg.registry[2], id + [0x3B] + rest, chunks);
  }

  lemma IdentifierSettles(size: nat, capture: bool, id: bytes, rest: bytes)
    requires Identifier(id)
    ensures Settles(Protocols(size, capture), Protocols(size, capture)[2], id + [0x3B] + rest)
  {
    hide Protocols, Detect, DetectV1;
    var t := id + [0x3B] + rest;
    forall k: nat | 0 < k <= |t| ensures Detect(Protocols(size, capture), t[..k]) == Some(Protocols(size, capture)[2]) {
      Order(size, capture, t[..k]);
      if k <= |id| {
        V1ClaimsIdentifiers(id, rest, k);
        assert t[..k] == id[..k];
      } else {
        V1ClaimsIdentifiers(id, rest[..k - |id| - 1], 1);
        assert t[..k] == id + [0x3B] + rest[..k - |id| - 1];
      }
    }
    assert t[..|t|] == t;
  }

  // ---- An H02 text depends on its first read ----

  /** '*', a maker's code, the identifier, and whatever follows. */
  function H02Text(maker: bytes, id: bytes, rest: bytes): bytes {
    [0x2A] + maker + [0x2C] + id + [0x2C] + rest
  }

  /** Codes such as HQ: a few letters. */
  predicate MakerCode(maker: bytes) {
    |maker| <= 30 && forall i | 0 <= i < |maker| :: 65 <= maker[i] <= 90
  }

  /**
    What the first read of an H02 text decides: H02 while no comma has come, or once ten digits of the
    identifier have; in between the session waits under eight bytes, and from eight on closes the
    connection as unknown.
   */
  lemma H02FirstRead(size: nat, accept: Verdict, limit: nat, maker: bytes, id: bytes, rest: bytes, k: nat)
    requires MakerCode(maker) && Identifier(id) && 0 < k <= |H02Text(maker, id, rest)| && k <= 2048 <= limit
    ensures Sane(Config(Protocols(size, false), accept, limit))
    ensures var cfg := Config(Protocols(size, false), accept, limit);
      var r := Receive(cfg, FRESH, H02Text(maker, id, rest)[..k]);
      if k <= |maker| + 1 || k >= |maker| + 12 then r.proto == Some(cfg.registry[1])
      else r.proto.None? && r.conn.open == (k < 8)
  {
    hide Protocols, Detect, Drain, DetectH02, DetectV1, MakerCode, Identifier;
    var t := H02Text(maker, id, rest);
    ServerIsSane(size, false, accept, limit);
    assert [] + t[..k] == t[..k];
    Order(size, false, t[..k]);
    H02ClaimsFront(maker, id, rest, k);
    StarIsNotTkstar(t[..k]);
  }

  lemma StarIsNotTkstar(b: bytes)
    requires b != [] && b[0] == 0x2A
    ensures !DetectV1(b) && !DetectGt06(b)
  {
    hide Trim;
    NoGap(b);
    var idx := IndexOf(b, SEMICOLON);
    if idx > 9 {
      StarIsNoIdentifier(b[..idx]);
    }
  }

  lemma StarIsNoIdentifier(s: bytes)
    requires s != [] && s[0] == 0x2A
    ensures !ValidIMEI(s)
  {
    var left := TrimLeft(s);
    assert left == s;
    var t := Trim(s);
    assert t != [] ==> t[0] == s[0];
  }

  lemma H02ClaimsFront(maker: bytes, id: bytes, rest: bytes, k: nat)
    requires MakerCode(maker) && Identifier(id) && 0 < k <= |H02Text(maker, id, rest)|
    ensures DetectH02(H02Text(maker, id, rest)[..k]) <==> k <= |maker| + 1 || k >= |maker| + 12
  {
    hide DetectH02, Split, ValidIMEI, Trim;
    var t, m := H02Text(maker, id, rest), |maker|;
    NoCommas(maker, id);
    if k <= m + 1 {
      assert t[..k] == [0x2A] + maker[..k - 1];
      H02Claims(maker[..k - 1], [], []);
    } else if k <= m + 2 + |id| {
      var front := id[..k - m - 2];
      assert t[..k] == [0x2A] + maker + [0x2C] + front;
      H02Claims(maker, front, []);
      FrontIsValidIff(id, k - m - 2);
    } else {
      var tail := rest[..k - m - 3 - |id|];
      assert t[..k] == [0x2A] + maker + [0x2C] + id + [0x2C] + tail;
      H02Claims(maker, id, tail);
      FrontIsValidIff(id, |id|);
      assert id[..|id|] == id;
    }
  }

  lemma NoCommas(maker: bytes, id: bytes)
    requires MakerCode(maker) && Identifier(id)
    ensures COMMA !in maker && COMMA !in id && HASH !in id
    ensures forall k | 0 <= k <= |maker| :: COMMA !in maker[..k]
    ensures forall k | 0 <= k <= |id| :: COMMA !in id[..k] && HASH !in id[..k]
  {
  }

  lemma FrontIsValidIff(id: bytes, n: nat)
    requires Identifier(id) && n <= |id|
    ensures ValidIMEI(Trim(id[..n])) <==> n >= 10
  {
    hide Trim;
    TrimNothing(id[..n]);
  }

  /** So every H02 text has a cut that is recognised and a cut that loses the connection. */
  lemma H02TextDependsOnCut(size: nat, accept: Verdict, limit: nat, maker: bytes, id: bytes, rest: bytes)
    requires MakerCode(maker) && Identifier(id) && 2048 <= limit
    ensures Sane(Config(Protocols(size, false), accept, limit))
    ensures var cfg, t, k := Config(Protocols(size, false), accept, limit), H02Text(maker, id, rest), |maker| + 11;
      && Receive(cfg, FRESH, t[..1]).proto == Some(cfg.registry[1])
      && Receive(cfg, FRESH, t[..k]).proto.None? && !Receive(cfg, FRESH, t[..k]).conn.open
  {
    hide Protocols, Receive;
    H02FirstRead(size, accept, limit, maker, id, rest, 1);
    H02FirstRead(size, accept, limit, maker, id, rest, |maker| + 11);
  }
}
