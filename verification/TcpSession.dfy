/** tcp/session.go: one connection, from raw reads to dispatched frames. */
module TcpSession {
  import opened Bytes
  import opened Wrappers
  import opened Framing

  /** What a session needs of a protocol (protocols.TrackerProtocol). */
  datatype Adapter = Adapter(detects: bytes -> bool, next: Framer)

  /** `accept` stands for dispatch: parsing, acknowledging and handing over one frame. */
  datatype Config = Config(registry: seq<Adapter>, accept: Verdict, maxPacketSize: nat)

  ghost predicate Sane(cfg: Config) {
    forall a | a in cfg.registry :: Sound(a.next)
  }

  const READ_CHUNK := 2048
  const DETECT_MIN_BYTES := 8

  datatype State = State(proto: Option<Adapter>, conn: Conn)

  const FRESH := State(None, Conn([], [], true))

  /** ProtocolRegistry.Detect: the first adapter that recognises the front of the stream. */
  function Detect(registry: seq<Adapter>, buf: bytes): (r: Option<Adapter>)
    ensures r.Some? ==> r.value in registry && r.value.detects(buf)
    ensures r.None? <==> forall a | a in registry :: !a.detects(buf)
  {
    if registry == [] then None
    else if registry[0].detects(buf) then Some(registry[0])
    else Detect(registry[1..], buf)
  }

  /** One successful Read followed by session.process. */
  function Receive(cfg: Config, s: State, chunk: bytes): (r: State)
    requires Sane(cfg) && (s.proto.Some? ==> s.proto.value in cfg.registry)
    ensures r.proto.Some? ==> r.proto.value in cfg.registry
  {
    if !s.conn.open then s
    else
      var conn := s.conn.(buf := s.conn.buf + chunk);
      if |conn.buf| > cfg.maxPacketSize then State(s.proto, conn.(open := false))
      else
        var proto := if s.proto.Some? then s.proto else Detect(cfg.registry, conn.buf);
        if proto.Some? then State(proto, Drain(proto.value.next, cfg.accept, conn))
        else if |conn.buf| < DETECT_MIN_BYTES then State(None, conn)
        else State(None, Conn([], conn.log + [Junk(conn.buf)], false))
  }

  /** A whole session: the stream as the socket happened to cut it. */
  function ReceiveAll(cfg: Config, s: State, chunks: seq<bytes>): State
    requires Sane(cfg) && (s.proto.Some? ==> s.proto.value in cfg.registry)
    decreases |chunks|
  {
    if chunks == [] then s else ReceiveAll(cfg, Receive(cfg, s, chunks[0]), chunks[1..])
  }

  /** A way of cutting a stream into successful reads. */
  predicate Cuts(chunks: seq<bytes>, t: bytes) {
    Concat(chunks) == t && forall c | c in chunks :: 0 < |c| <= READ_CHUNK
  }

  /** The session object of the code, its buffer re-sliced in place. */
  class Session {
    const cfg: Config
    var proto: Option<Adapter>
    var buf: bytes
    var log: seq<Piece>
    var open: bool

    ghost predicate Valid()
      reads this
    {
      Sane(cfg) && (proto.Some? ==> proto.value in cfg.registry)
    }

    function Line(): Conn
      reads this
    {
      Conn(buf, log, open)
    }

    function View(): State
      reads this
    {
      State(proto, Line())
    }

    constructor (cfg: Config)
      requires Sane(cfg)
      ensures Valid() && this.cfg == cfg && View() == FRESH
    {
      this.cfg := cfg;
      proto := None;
      buf := [];
      log := [];
      open := true;
    }

    /** session.process after detection: false ends the session. */
    method Process() returns (more: bool)
      requires Valid() && open && proto.Some?
      modifies this`buf, this`log, this`open
      ensures Valid() && more == open
      ensures Line() == Drain(proto.value.next, cfg.accept, old(Line()))
    {
      var next := proto.value.next;
      ghost var goal := Drain(next, cfg.accept, Line());
      while |buf| > 0
        invariant open && Drain(next, cfg.accept, Line()) == goal
        decreases |buf|
      {
        assert SoundStep(buf, next(buf));
        match next(buf) {
          case More =>
            return true;
          case Bad(n) =>
            if n == 0 {
              open := false;
              return false;
            }
            log := log + [Junk(buf[..n])];
            buf := buf[n..];
          case Skip(n) =>
            if n == 0 {
              return true;
            }
            log := log + [Separator(buf[..n])];
            buf := buf[n..];
          case Frame(frame, n) =>
            if n == 0 {
              return true;
            }
            buf := buf[n..];
            log := log + [Dispatched(frame)];
            if !cfg.accept(Frames(log)) {
              open := false;
              return false;
            }
        }
      }
      return true;
    }

    /** The body of the read loop: append, check the bound, detect once, process. */
    method Read(chunk: bytes) returns (more: bool)
      requires Valid() && open
      modifies this
      ensures Valid() && more == open
      ensures View() == Receive(cfg, old(View()), chunk)
    {
      buf := buf + chunk;
      if |buf| > cfg.maxPacketSize {
        open := false;
        return false;
      }
      if proto.None? {
        proto := Detect(cfg.registry, buf);
        if proto.None? {
          if |buf| < DETECT_MIN_BYTES {
            return true;
          }
          log := log + [Junk(buf)];
          buf := [];
          open := false;
          return false;
        }
      }
      more := Process();
    }
  }
}
