/** The protocols in the order the server tries them: cmd/server/main.go:89-95. */
module Server {
  import opened Bytes
  import opened Wrappers
  import opened Text
  import opened Tracker
  import opened Framing
  import opened Gt06Frame
  import opened TcpSession
  import opened Gt06Session
  import H02Framer
  import TextFramer

  /** h02.Protocol.Detect. */
  predicate DetectH02(b: bytes) {
    if b == [] then false
    else if b[0] == H02Framer.MARKER_BINARY then true
    else if b[0] == H02Framer.MARKER_TEXT then
      var parts := Split(if b[|b| - 1] == HASH then b[..|b| - 1] else b);
      if |parts| < 2 then |b| < 32 else ValidIMEI(Trim(parts[1]))
    else false
  }

  const IMEI_PREFIX: bytes := [0x69, 0x6D, 0x65, 0x69, 0x3A]                          // imei:
  const LOGIN_PREFIX: bytes := [0x23, 0x23, 0x2C] + IMEI_PREFIX                       // ##,imei:
  const SEMICOLON: byte := 0x3B

  /** tkstar.ProtocolV1.Detect, shared by V1 and V1.8. */
  predicate DetectV1(b: bytes) {
    var s := b[TextFramer.Blanks(b)..];
    if s == [] then false
    else if LOGIN_PREFIX <= s || IMEI_PREFIX <= s then true
    else
      var idx := IndexOf(s, SEMICOLON);
      if idx > 9 then ValidIMEI(s[..idx]) else |s| <= 20 && AllDigits(s)
  }

  /** tkstar.ProtocolV4.NextFrame: whatever has arrived is one frame. */
  function NextV4(b: bytes): Step {
    if b == [] then More else Frame(b, |b|)
  }

  /** `size` is H02_BINARY_FRAME_LENGTH, `capture` TKSTAR_V4_CAPTURE. */
  function Protocols(size: nat, capture: bool): (registry: seq<Adapter>)
    ensures |registry| == 5
  {
    var v1 := Adapter(b => DetectV1(b), TextFramer.Framer(SEMICOLON));
    [Adapter(b => DetectGt06(b), NEXT),
     Adapter(b => DetectH02(b), H02Framer.Framer(size)),
     v1,
     v1,
     Adapter(b => capture && |b| > 0, b => NextV4(b))]
  }

  /** Every framer of the server consumes only what it was shown. */
  lemma ServerIsSane(size: nat, capture: bool, accept: Verdict, limit: nat)
    ensures Sane(Config(Protocols(size, capture), accept, limit))
    ensures Gt06First(Config(Protocols(size, capture), accept, limit))
  {
    hide NextFrame, H02Framer.NextH02, TextFramer.NextText, DetectGt06, DetectH02, DetectV1;
  }

  /** Half a gt06 delimiter is claimed by nobody but the capture adapter. */
  lemma LoneDelimiter(size: nat, capture: bool, b: byte)
    requires IsStart(b)
    ensures Detect(Protocols(size, capture), [b]).None? <==> !capture
  {
    hide NextFrame, H02Framer.NextH02, TextFramer.NextText, DetectGt06, DetectH02, DetectV1, Detect;
    var registry := Protocols(size, capture);
    Declined(b);
    assert registry[4].detects([b]) == capture;
    assert forall k | 0 <= k < 4 :: !registry[k].detects([b]);
    assert forall a | a in registry :: a == registry[0] || a == registry[1] || a == registry[2] || a == registry[4];
  }

  lemma Declined(b: byte)
    requires IsStart(b)
    ensures !DetectGt06([b]) && !DetectH02([b]) && !DetectV1([b])
  {
    assert TextFramer.Blanks([b]) == 0;
    assert [b][0..] == [b];
    assert !IsDigit([b][0]);
    assert |LOGIN_PREFIX| == 8 && |IMEI_PREFIX| == 5;
  }

  /**
    The server recognises a gt06 stream as gt06, however it is cut into reads, exactly when the capture
    of unknown protocols is off.
   */
  lemma DetectsGt06Iff(size: nat, capture: bool, accept: Verdict, limit: nat, t: bytes)
    requires limit >= 4101 + READ_CHUNK && DetectGt06(t)
    ensures var cfg := Config(Protocols(size, capture), accept, limit);
      && Sane(cfg)
      && (!capture <==>
            forall chunks: seq<bytes> | Cuts(chunks, t) :: ReceiveAll(cfg, FRESH, chunks).proto == Some(cfg.registry[0]))
  {
    hide Protocols, Detect, ReceiveAll, NextFrame;
    ServerIsSane(size, capture, accept, limit);
    LoneDelimiter(size, capture, t[0]);
    assert t[..1] == [t[0]];
    DetectionIff(Config(Protocols(size, capture), accept, limit), t);
  }

  /** With capture off, any two ways of cutting a gt06 stream leave the server's session the same. */
  lemma Gt06StreamsAgree(size: nat, accept: Verdict, limit: nat, chunks: seq<bytes>, others: seq<bytes>, t: bytes)
    requires limit >= 4101 + READ_CHUNK && DetectGt06(t) && Cuts(chunks, t) && Cuts(others, t)
    ensures var cfg := Config(Protocols(size, false), accept, limit);
      Sane(cfg) && Same(ReceiveAll(cfg, FRESH, chunks).conn, ReceiveAll(cfg, FRESH, others).conn)
  {
    hide Protocols, Detect, ReceiveAll, NextFrame;
    ServerIsSane(size, false, accept, limit);
    LoneDelimiter(size, false, t[0]);
    assert t[..1] == [t[0]];
    TwoChunkingsAgree(Config(Protocols(size, false), accept, limit), chunks, others);
  }
}
