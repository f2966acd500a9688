/** Online commands and their replies: gt06/commands.go, gt06/simulate.go:126-154. */
module Gt06Commands {
  import opened Bytes
  import opened Wrappers
  import opened Text
  import opened Tracker
  import opened Framing
  import opened Gt06Frame
  import opened Gt06Codec

  const DYD: bytes := [0x44, 0x59, 0x44]
  const HFYD: bytes := [0x48, 0x46, 0x59, 0x44]
  const WHERE: bytes := [0x57, 0x48, 0x45, 0x52, 0x45]
  const STATUS: bytes := [0x53, 0x54, 0x41, 0x54, 0x55, 0x53]
  const RESET: bytes := [0x52, 0x45, 0x53, 0x45, 0x54]
  const TIMER: bytes := [0x54, 0x49, 0x4D, 0x45, 0x52]
  const HBT: bytes := [0x48, 0x42, 0x54]
  const SERVER: bytes := [0x53, 0x45, 0x52, 0x56, 0x45, 0x52]

  const MAX_COMMAND_TEXT := 200

  datatype CommandType =
    | EngineCut | EngineResume | RequestPosition | RequestStatus | Reboot
    | SetInterval | SetHeartbeat | SetServer | Custom | OtherCommand

  datatype Command = Command(
    typ: CommandType, raw: bytes, password: bytes, params: map<string, bytes>, correlationKey: dword)

  datatype CommandError =
    | BadPassword | NotNumeric | OutOfRange | BadHost | CustomNeedsRaw | Unsupported | BadCharacter | TextTooLong

  function Param(cmd: Command, key: string): bytes {
    if key in cmd.params then cmd.params[key] else []
  }

  /** strconv.Atoi on 64-bit integers. */
  function Atoi(s: bytes): Option<int> {
    var negative := s != [] && s[0] == 0x2D;
    var digits := if s != [] && (s[0] == 0x2D || s[0] == 0x2B) then s[1..] else s;
    if digits == [] || !AllDigits(digits) then None
    else
      var magnitude: int := DigitsValue(digits);
      var n := if negative then -magnitude else magnitude;
      if -0x8000_0000_0000_0000 <= n < 0x8000_0000_0000_0000 then Some(n) else None
  }

  function PositiveInt(raw: bytes, min: nat, max: nat): (r: Result<int, CommandError>)
    ensures r.Ok? ==> min <= r.value <= max && Atoi(Trim(raw)) == Some(r.value)
  {
    match Atoi(Trim(raw))
    case None => Err(NotNumeric)
    case Some(v) => if v < min || v > max then Err(OutOfRange) else Ok(v)
  }

  predicate SafePassword(pwd: bytes) {
    1 <= |pwd| <= 16 && forall i | 0 <= i < |pwd| :: IsAlphanumeric(pwd[i])
  }

  predicate SafeHost(host: bytes) {
    1 <= |host| <= 64 && forall i | 0 <= i < |host| :: IsAlphanumeric(host[i]) || host[i] == 0x2E || host[i] == 0x2D
  }

  /** The free-text rule: 1 to 200 printable ASCII characters. */
  predicate SafeText(text: bytes) {
    1 <= |text| <= 200 && forall i | 0 <= i < |text| :: IsPrintable(text[i])
  }

  function WithPwd(base: bytes, pwd: bytes): bytes {
    if pwd == [] then base + [HASH] else base + [COMMA] + pwd + [HASH]
  }

  function IntervalText(pwd: bytes, seconds: nat): bytes {
    if pwd == [] then TIMER + [COMMA] + Decimal(seconds) + [HASH]
    else TIMER + [COMMA] + pwd + [COMMA] + Decimal(seconds) + [HASH]
  }

  function HeartbeatText(minutes: nat): bytes {
    HBT + [COMMA] + Decimal(minutes) + [HASH]
  }

  function ServerText(host: bytes, port: nat): bytes {
    SERVER + [COMMA, 0x31, COMMA] + host + [COMMA] + Decimal(port) + [COMMA, 0x30, HASH]
  }

  /** The text of a command without override; `pwd` is the trimmed password. */
  function GeneratedText(cmd: Command, pwd: bytes): Result<bytes, CommandError> {
    match cmd.typ
    case EngineCut => Ok(WithPwd(DYD, pwd))
    case EngineResume => Ok(WithPwd(HFYD, pwd))
    case RequestPosition => Ok(WithPwd(WHERE, pwd))
    case RequestStatus => Ok(WithPwd(STATUS, pwd))
    case Reboot => Ok(WithPwd(RESET, pwd))
    case SetInterval =>
      var seconds := PositiveInt(Param(cmd, "seconds"), 5, 18000);
      if seconds.Err? then Err(seconds.error) else Ok(IntervalText(pwd, seconds.value))
    case SetHeartbeat =>
      var minutes := PositiveInt(Param(cmd, "minutes"), 1, 360);
      if minutes.Err? then Err(minutes.error) else Ok(HeartbeatText(minutes.value))
    case SetServer =>
      var host := Trim(Param(cmd, "host"));
      if !SafeHost(host) then Err(BadHost)
      else
        var port := PositiveInt(Param(cmd, "port"), 1, 65535);
        if port.Err? then Err(port.error) else Ok(ServerText(host, port.value))
    case Custom => Err(CustomNeedsRaw)
    case OtherCommand => Err(Unsupported)
  }

  function CommandText(cmd: Command): Result<bytes, CommandError> {
    var raw, pwd := Trim(cmd.raw), Trim(cmd.password);
    if raw != [] then Ok(raw)
    else if pwd != [] && !SafePassword(pwd) then Err(BadPassword)
    else GeneratedText(cmd, pwd)
  }

  /** What EncodeCommand sends, given the serial number it draws. */
  function CommandFrame(cmd: Command, serial: word): Result<bytes, CommandError> {
    var text := CommandText(cmd);
    if text.Err? then Err(text.error)
    else if !SafeText(text.value) then Err(BadCharacter)
    else if |text.value| > MAX_COMMAND_TEXT then Err(TextTooLong)
    else Ok(BuildFrame(MSG_COMMAND, TextContent(cmd.correlationKey, text.value), serial))
  }

  /** The server's encoder and its frame counter. */
  class Encoder {
    var counter: dword

    constructor ()
      ensures counter == 0
    {
      counter := 0;
    }

    /** serialCounter.Add(1), truncated to 16 bits. */
    method NextSerial() returns (serial: word)
      modifies this
      ensures counter == (old(counter) + 1) % 0x1_0000_0000
      ensures serial == (old(counter) + 1) % 0x1_0000
    {
      counter := (counter + 1) % 0x1_0000_0000;
      serial := counter % 0x1_0000;
    }

    /** A refused command draws no serial number. */
    method EncodeCommand(cmd: Command) returns (r: Result<bytes, CommandError>)
      modifies this
      ensures r == CommandFrame(cmd, (old(counter) + 1) % 0x1_0000)
      ensures counter == if r.Ok? then (old(counter) + 1) % 0x1_0000_0000 else old(counter)
    {
      hide CommandText, BuildFrame, PutDword, SafeText;
      var text := CommandText(cmd);
      if text.Err? {
        return Err(text.error);
      }
      if !SafeText(text.value) {
        return Err(BadCharacter);
      }
      if |text.value| > MAX_COMMAND_TEXT {
        return Err(TextTooLong);
      }
      var content: bytes := [];
      content := content + [Truncate8(|text.value| + 4)];
      content := content + PutDword(cmd.correlationKey);
      content := content + text.value;
      content := content + [0x00, 0x02];
      assert content == TextContent(cmd.correlationKey, text.value);
      var serial := NextSerial();
      var frame := AssembleFrame(MSG_COMMAND, content, serial);
      return Ok(frame);
    }
  }

  // ---- The tracker's side ----

  datatype ServerCommand = ServerCommand(key: dword, text: bytes)

  datatype ReadError = NotAFrame(why: FrameError) | NotACommand | CommandTooShort

  function DecodeServerCommand(frame: bytes): Result<ServerCommand, ReadError> {
    var decoded := DecodeFrame(frame);
    if decoded.Err? then Err(NotAFrame(decoded.error))
    else if decoded.value.typ != MSG_COMMAND then Err(NotACommand)
    else if |decoded.value.content| < 5 then Err(CommandTooShort)
    else
      var content := decoded.value.content;
      Ok(ServerCommand(GetDword(content[1..]), content[5..TextEnd(content)]))
  }

  /** The shared layout of commands and replies reads back up to the reach of its length byte. */
  lemma TextContentReads(key: dword, text: bytes)
    requires |text| <= 251
    ensures var c := TextContent(key, text);
      && |c| == |text| + 7 && TextEnd(c) == 5 + |text|
      && GetDword(c[1..]) == key && c[5..5 + |text|] == text
  {
    hide PutDword, GetDword;
    var c := TextContent(key, text);
    DwordRoundTrip(key, text + [0x00, 0x02]);
    assert c[1..] == PutDword(key) + (text + [0x00, 0x02]);
  }

  /** Every command the server accepts reaches the tracker whole, with its own key and text. */
  lemma CommandRoundTrip(cmd: Command, serial: word, rest: bytes)
    ensures CommandFrame(cmd, serial).Ok? ==>
      var frame := CommandFrame(cmd, serial).value;
      && DecodeServerCommand(frame) == Ok(ServerCommand(cmd.correlationKey, CommandText(cmd).value))
      && NextFrame(frame + rest) == Frame(frame, |frame|)
  {
    hide CommandText, BuildFrame, DecodeFrame, NextFrame, TextContent, TextEnd, GetDword;
    if CommandFrame(cmd, serial).Err? {
      return;
    }
    var text := CommandText(cmd).value;
    var content := TextContent(cmd.correlationKey, text);
    TextContentReads(cmd.correlationKey, text);
    DecodeBuilt(MSG_COMMAND, content, serial);
    FramerSeesBuiltIff(MSG_COMMAND, content, serial, rest);
  }

  // ---- Command texts ----

  predicate SafeWord(w: bytes) {
    forall i | 0 <= i < |w| :: IsAlphanumeric(w[i]) || w[i] == 0x2E || w[i] == 0x2D
  }

  function Join(words: seq<bytes>): bytes {
    if words == [] then [] else if |words| == 1 then words[0] else words[0] + [COMMA] + Join(words[1..])
  }

  lemma NoCommaInside(w: bytes)
    requires SafeWord(w)
    ensures COMMA !in w
  {
  }

  lemma {:induction false} SplitJoin(words: seq<bytes>)
    requires words != [] && forall i | 0 <= i < |words| :: SafeWord(words[i])
    ensures Split(Join(words)) == words
  {
    hide Split, SafeWord;
    assert SafeWord(words[0]);
    NoCommaInside(words[0]);
    if |words| == 1 {
      SplitField(words[0], []);
    } else {
      SplitJoin(words[1..]);
      SplitField(words[0], Join(words[1..]));
    }
  }

  lemma {:induction false} JoinIsClean(words: seq<bytes>, i: nat)
    requires forall i | 0 <= i < |words| :: SafeWord(words[i])
    requires i < |Join(words)|
    ensures Join(words)[i] != HASH && IsPrintable(Join(words)[i])
  {
    if |words| > 1 {
      var head := words[0] + [COMMA];
      if i >= |head| {
        JoinIsClean(words[1..], i - |head|);
      }
    }
  }

  function Optional(pwd: bytes): seq<bytes> {
    if pwd == [] then [] else [pwd]
  }

  /** The fields a device is meant to see: the command's name, then its arguments. */
  function Words(cmd: Command): seq<bytes> {
    var pwd := Optional(Trim(cmd.password));
    match cmd.typ
    case EngineCut => [DYD] + pwd
    case EngineResume => [HFYD] + pwd
    case RequestPosition => [WHERE] + pwd
    case RequestStatus => [STATUS] + pwd
    case Reboot => [RESET] + pwd
    case SetInterval => [TIMER] + pwd + [Number(cmd, "seconds")]
    case SetHeartbeat => [HBT, Number(cmd, "minutes")]
    case SetServer => [SERVER, [0x31], Trim(Param(cmd, "host")), Number(cmd, "port"), [0x30]]
    case Custom => []
    case OtherCommand => []
  }

  /** A numeric parameter, in canonical decimal. */
  function Number(cmd: Command, key: string): bytes {
    match Atoi(Trim(Param(cmd, key)))
    case None => []
    case Some(v) => if v < 0 then [] else Decimal(v)
  }

  predicate Generated(cmd: Command) {
    Trim(cmd.raw) == [] && CommandText(cmd).Ok?
  }

  lemma DecimalIsSafe(n: nat)
    ensures SafeWord(Decimal(n))
  {
  }

  lemma NamesAreSafe()
    ensures SafeWord(DYD) && SafeWord(HFYD) && SafeWord(WHERE) && SafeWord(STATUS) && SafeWord(RESET)
    ensures SafeWord(TIMER) && SafeWord(HBT) && SafeWord(SERVER) && SafeWord([0x31]) && SafeWord([0x30])
  {
  }

  /** A password or a host carries no separator. */
  lemma ArgumentIsSafe(w: bytes)
    ensures w == [] || SafePassword(w) || SafeHost(w) ==> SafeWord(w)
  {
  }

  lemma WordsAreSafe(cmd: Command)
    requires Generated(cmd)
    ensures Words(cmd) != [] && forall i | 0 <= i < |Words(cmd)| :: SafeWord(Words(cmd)[i])
  {
    hide SafeWord, SafePassword, SafeHost, Trim, Atoi, Decimal, DYD, HFYD, WHERE, STATUS, RESET, TIMER, HBT, SERVER;
    NamesAreSafe();
    ArgumentIsSafe(Trim(cmd.password));
    ArgumentIsSafe(Trim(Param(cmd, "host")));
    NumberIsSafe(cmd, "seconds");
    NumberIsSafe(cmd, "minutes");
    NumberIsSafe(cmd, "port");
  }

  lemma NumberIsSafe(cmd: Command, key: string)
    ensures SafeWord(Number(cmd, key))
  {
    var v := Atoi(Trim(Param(cmd, key)));
    if v.Some? && v.value >= 0 {
      DecimalIsSafe(v.value);
    }
  }

  lemma JoinCons(w: bytes, rest: seq<bytes>)
    ensures Join([w]) == w
    ensures rest != [] ==> Join([w] + rest) == w + [COMMA] + Join(rest)
  {
    assert rest != [] ==> ([w] + rest)[1..] == rest;
  }

  lemma WithPwdIsWords(name: bytes, pwd: bytes)
    ensures WithPwd(name, pwd) == Join([name] + Optional(pwd)) + [HASH]
  {
    hide Join;
    JoinCons(name, [pwd]);
    JoinCons(pwd, []);
    assert pwd == [] ==> [name] + Optional(pwd) == [name];
  }

  lemma HeartbeatIsWords(minutes: nat)
    ensures HeartbeatText(minutes) == Join([HBT, Decimal(minutes)]) + [HASH]
  {
    hide Join, Decimal, HBT;
    JoinCons(HBT, [Decimal(minutes)]);
    JoinCons(Decimal(minutes), []);
    assert [HBT] + [Decimal(minutes)] == [HBT, Decimal(minutes)];
  }

  lemma IntervalIsWords(pwd: bytes, seconds: nat)
    ensures IntervalText(pwd, seconds) == Join([TIMER] + Optional(pwd) + [Decimal(seconds)]) + [HASH]
  {
    hide Join, Decimal, TIMER;
    var n := Decimal(seconds);
    JoinCons(n, []);
    if pwd == [] {
      JoinCons(TIMER, [n]);
      assert [TIMER] + Optional(pwd) + [n] == [TIMER] + [n];
    } else {
      JoinCons(pwd, [n]);
      JoinCons(TIMER, [pwd] + [n]);
      assert [TIMER] + Optional(pwd) + [n] == [TIMER] + ([pwd] + [n]);
      assert TIMER + [COMMA] + (pwd + [COMMA] + n) == TIMER + [COMMA] + pwd + [COMMA] + n;
    }
  }

  lemma ServerIsWords(host: bytes, port: nat)
    ensures ServerText(host, port) == Join([SERVER, [0x31], host, Decimal(port), [0x30]]) + [HASH]
  {
    hide Join, Decimal, SERVER;
    var n := Decimal(port);
    JoinCons([0x30], []);
    JoinCons(n, [[0x30]]);
    assert [n] + [[0x30]] == [n, [0x30]];
    JoinCons(host, [n, [0x30]]);
    assert [host] + [n, [0x30]] == [host, n, [0x30]];
    JoinCons([0x31], [host, n, [0x30]]);
    assert [[0x31]] + [host, n, [0x30]] == [[0x31], host, n, [0x30]];
    JoinCons(SERVER, [[0x31], host, n, [0x30]]);
    assert [SERVER] + [[0x31], host, n, [0x30]] == [SERVER, [0x31], host, n, [0x30]];
    assert SERVER + [COMMA] + ([0x31] + [COMMA] + (host + [COMMA] + (n + [COMMA] + [0x30]))) + [HASH]
        == SERVER + [COMMA, 0x31, COMMA] + host + [COMMA] + n + [COMMA, 0x30, HASH];
  }

  /** The text the server writes is its fields joined by commas, closed by one '#'. */
  lemma TextIsWords(cmd: Command)
    requires Generated(cmd)
    ensures CommandText(cmd).value == Join(Words(cmd)) + [HASH]
  {
    hide Join, Trim, Atoi, Decimal, SafePassword, SafeHost, WithPwd, IntervalText, HeartbeatText, ServerText;
    hide DYD, HFYD, WHERE, STATUS, RESET, TIMER, HBT, SERVER;
    var pwd := Trim(cmd.password);
    match cmd.typ
    case EngineCut => WithPwdIsWords(DYD, pwd);
    case EngineResume => WithPwdIsWords(HFYD, pwd);
    case RequestPosition => WithPwdIsWords(WHERE, pwd);
    case RequestStatus => WithPwdIsWords(STATUS, pwd);
    case Reboot => WithPwdIsWords(RESET, pwd);
    case SetInterval => IntervalIsWords(pwd, PositiveInt(Param(cmd, "seconds"), 5, 18000).value);
    case SetHeartbeat => HeartbeatIsWords(PositiveInt(Param(cmd, "minutes"), 1, 360).value);
    case SetServer =>
      ServerIsWords(Trim(Param(cmd, "host")), PositiveInt(Param(cmd, "port"), 1, 65535).value);
    case Custom =>
    case OtherCommand =>
  }

  /**
    No parameter can smuggle in a field or a second command: a device that reads up to the '#' and
    splits at the commas sees exactly the intended fields.
   */
  lemma GeneratedReadsBack(cmd: Command)
    requires Generated(cmd)
    ensures var text := CommandText(cmd).value;
      && |text| > 0 && text[|text| - 1] == HASH && HASH !in text[..|text| - 1]
      && Split(text[..|text| - 1]) == Words(cmd)
      && (forall i | 0 <= i < |text| :: IsPrintable(text[i]))
  {
    hide CommandText, Join, Split, Words, SafeWord, Trim;
    var text, body := CommandText(cmd).value, Join(Words(cmd));
    TextIsWords(cmd);
    WordsAreSafe(cmd);
    SplitJoin(Words(cmd));
    assert text[..|text| - 1] == body;
    forall i | 0 <= i < |body| ensures body[i] != HASH && IsPrintable(body[i]) {
      JoinIsClean(Words(cmd), i);
    }
  }

  /** Different generated commands have different texts: no other type can be read as an engine cut. */
  lemma TextTellsType(a: Command, b: Command)
    ensures Generated(a) && Generated(b) && CommandText(a) == CommandText(b) ==> a.typ == b.typ && Words(a) == Words(b)
  {
    hide CommandText, Split, Trim, Number;
    if !Generated(a) || !Generated(b) || CommandText(a) != CommandText(b) {
      return;
    }
    GeneratedReadsBack(a);
    GeneratedReadsBack(b);
    SupportedType(a);
    SupportedType(b);
    NameTellsType(a);
    NameTellsType(b);
  }

  /**
    The safety rule of the server looks at the type alone. A command of another type carries the text of
    an engine cut exactly when that text is its override.
   */
  lemma CutTextIsRawIff(cut: Command, other: Command)
    requires cut.typ == EngineCut && other.typ != EngineCut
    ensures Generated(cut) ==> (CommandText(other) == CommandText(cut) <==> Trim(other.raw) == CommandText(cut).value)
  {
    hide Words, GeneratedText, Trim;
    if !Generated(cut) {
      return;
    }
    if CommandText(other) == CommandText(cut) && Trim(other.raw) == [] {
      TextTellsType(cut, other);
    }
    if Trim(other.raw) == CommandText(cut).value {
      GeneratedFits(cut);
    }
  }

  /** A free-text command with the override "DYD#" is sent, and reads as the cut. */
  lemma RawCutIsSent(key: dword, serial: word)
    ensures var cut, raw := Command(EngineCut, [], [], map[], key), Command(Custom, DYD + [HASH], [], map[], key);
      && Generated(cut) && CommandText(raw) == CommandText(cut) && CommandFrame(raw, serial) == CommandFrame(cut, serial)
      && CommandFrame(raw, serial).Ok?
  {
    hide Trim, BuildFrame, Words;
    var cut, raw := Command(EngineCut, [], [], map[], key), Command(Custom, DYD + [HASH], [], map[], key);
    TrimNothing([]);
    TrimNothing(DYD + [HASH]);
    AcceptedIff(cut, serial);
  }

  lemma SupportedType(cmd: Command)
    requires Generated(cmd)
    ensures !cmd.typ.Custom? && !cmd.typ.OtherCommand?
  {
    hide Trim, SafePassword, WithPwd, IntervalText, HeartbeatText, ServerText, PositiveInt;
  }

  function TypeOfName(name: bytes): CommandType {
    if name == DYD then EngineCut else if name == HFYD then EngineResume
    else if name == WHERE then RequestPosition else if name == STATUS then RequestStatus
    else if name == RESET then Reboot else if name == TIMER then SetInterval
    else if name == HBT then SetHeartbeat else if name == SERVER then SetServer else OtherCommand
  }

  lemma NameTellsType(cmd: Command)
    requires !cmd.typ.Custom? && !cmd.typ.OtherCommand?
    ensures Words(cmd) != [] && TypeOfName(Words(cmd)[0]) == cmd.typ
  {
    hide Trim, Number, Optional;
    assert DYD[0] == 0x44 && HFYD[1] == 0x46 && WHERE[0] == 0x57 && STATUS[1] == 0x54 && RESET[0] == 0x52;
    assert TIMER[0] == 0x54 && HBT[1] == 0x42 && SERVER[1] == 0x45;
  }

  /** Generated texts are short, so the encoder never refuses one. */
  lemma GeneratedFits(cmd: Command)
    requires Generated(cmd)
    ensures 1 <= |CommandText(cmd).value| <= 82
  {
    hide Trim, Atoi, Decimal, PositiveInt;
    NumberFits(cmd, "seconds");
    NumberFits(cmd, "minutes");
    NumberFits(cmd, "port");
  }

  lemma NumberFits(cmd: Command, key: string)
    ensures Atoi(Trim(Param(cmd, key))).Some? && 0 <= Atoi(Trim(Param(cmd, key))).value < 100000 ==>
      |Decimal(Atoi(Trim(Param(cmd, key))).value)| <= 5
  {
    hide Atoi, Trim, Decimal;
    var v := Atoi(Trim(Param(cmd, key)));
    if v.Some? && 0 <= v.value < 100000 {
      assert Pow10(5) == 100000 by {
        assert Pow10(2) == 100 && Pow10(3) == 1000 && Pow10(4) == 10000;
      }
      DecimalLength(v.value, 5);
    }
  }

  /** Exactly which commands are sent: overrides that are safe text, and every generated text. */
  lemma AcceptedIff(cmd: Command, serial: word)
    ensures CommandFrame(cmd, serial).Ok? <==>
      if Trim(cmd.raw) != [] then SafeText(Trim(cmd.raw)) else CommandText(cmd).Ok?
  {
    hide Trim, BuildFrame;
    if Trim(cmd.raw) == [] && CommandText(cmd).Ok? {
      GeneratedAccepted(cmd);
    }
  }

  lemma GeneratedAccepted(cmd: Command)
    requires Generated(cmd)
    ensures SafeText(CommandText(cmd).value)
  {
    hide CommandText, Trim, Split, Words;
    GeneratedReadsBack(cmd);
    GeneratedFits(cmd);
  }

  predicate ReadsAs(w: bytes, n: int) {
    AllDigits(w) && DigitsValue(w) == n
  }

  /** An accepted number is written so that a device reads back the number asked for. */
  lemma NumberReadsAs(cmd: Command, key: string, min: nat, max: nat)
    requires PositiveInt(Param(cmd, key), min, max).Ok?
    ensures ReadsAs(Number(cmd, key), PositiveInt(Param(cmd, key), min, max).value)
  {
    hide Trim, Atoi, Decimal, ReadsAs;
    DecimalReadsAs(PositiveInt(Param(cmd, key), min, max).value);
  }

  lemma DecimalReadsAs(n: nat)
    ensures ReadsAs(Decimal(n), n)
  {
    DecimalRoundTrip(n);
  }

  // ---- Replies ----

  /** A reply of up to 251 bytes is read with its key, cut at its own length. */
  lemma ReplyRoundTrip(ackGps: bool, now: DateTime, key: dword, text: bytes, serial: word)
    requires |text| <= 251
    ensures Parse(ackGps, now, BuildCommandReply(key, text, serial)) == Ok(BLANK.(
      kind := KindCommandAck, correlationKey := key, response := DecodeReplyText(text)))
  {
    hide BuildFrame, DecodeFrame, TextContent, TextEnd, GetDword, DecodeReplyText;
    TextContentReads(key, text);
    DecodeBuilt(MSG_STRING_INFO, TextContent(key, text), serial);
  }

  /** But only 243 bytes get through the framer whole. */
  lemma ReplyFramedIff(key: dword, text: bytes, serial: word, rest: bytes)
    ensures var frame := BuildCommandReply(key, text, serial);
      NextFrame(frame + rest) == Frame(frame, |frame|) <==> |text| <= 243
  {
    hide BuildFrame, NextFrame, PutDword;
    DwordRoundTrip(key, []);
    assert PutDword(key) + [] == PutDword(key);
    FramerSeesBuiltIff(MSG_STRING_INFO, TextContent(key, text), serial, rest);
  }

  /** Printable replies come back trimmed. */
  lemma PrintableReply(text: bytes)
    requires forall i | 0 <= i < |text| :: IsPrintable(text[i])
    ensures DecodeReplyText(text) == Trim(text)
  {
    hide Trim, LowHalves;
    if text != [] {
      assert IsPrintable(text[0]);
    }
  }

  /** The whole way: a printable reply of at most 243 bytes arrives with its key and its trimmed text. */
  lemma PrintableReplyArrives(ackGps: bool, now: DateTime, key: dword, text: bytes, serial: word, rest: bytes)
    requires |text| <= 243 && forall i | 0 <= i < |text| :: IsPrintable(text[i])
    ensures var frame := BuildCommandReply(key, text, serial);
      && NextFrame(frame + rest) == Frame(frame, |frame|)
      && Parse(ackGps, now, frame) == Ok(BLANK.(kind := KindCommandAck, correlationKey := key, response := Trim(text)))
  {
    hide Parse, BuildCommandReply, NextFrame, DecodeReplyText, Trim;
    ReplyFramedIff(key, text, serial, rest);
    ReplyRoundTrip(ackGps, now, key, text, serial);
    PrintableReply(text);
  }

  /** Each ASCII character as two bytes, high half first. */
  function Utf16(text: bytes): bytes {
    if text == [] then [] else [0x00, text[0]] + Utf16(text[1..])
  }

  lemma {:induction false} Utf16Halves(text: bytes)
    ensures LowHalves(Utf16(text)) == text
  {
    if text != [] {
      Utf16Halves(text[1..]);
      assert Utf16(text)[2..] == Utf16(text[1..]);
    }
  }

  /** A UTF-16BE reply reads the same as its ASCII form. */
  lemma Utf16Reply(text: bytes)
    requires forall i | 0 <= i < |text| :: IsPrintable(text[i])
    ensures DecodeReplyText(Utf16(text)) == DecodeReplyText(text)
  {
    hide Trim, LowHalves;
    PrintableReply(text);
    Utf16Halves(text);
    if text != [] {
      assert IsPrintable(text[0]);
    }
  }
}
