/**
  The gt06 message codec: what the server decodes (gt06/gt06.go, gt06/decode.go) and what the
  simulated tracker encodes (gt06/simulate.go).
 */
module Gt06Codec {
  import opened Bytes
  import opened Wrappers
  import opened Text
  import opened Tracker
  import opened Gt06Frame

  const MSG_LOGIN: byte := 0x01
  const MSG_GPS: byte := 0x12
  const MSG_HEARTBEAT: byte := 0x13
  const MSG_STRING_INFO: byte := 0x15
  const MSG_ALARM_GPS: byte := 0x16
  const MSG_GPS_LBS2: byte := 0x22
  const MSG_ALARM2: byte := 0x26
  const MSG_ALARM3: byte := 0x27
  const MSG_GPS_LBS_STATUS: byte := 0x2D
  const MSG_COMMAND: byte := 0x80
  const MSG_TIME_REQUEST: byte := 0x8A
  const MSG_GPS_EXTENDED: byte := 0xA0

  const GPS_BLOCK_SIZE := 18

  predicate IsAlarm(typ: byte) {
    typ == MSG_ALARM_GPS || typ == MSG_ALARM2 || typ == MSG_ALARM3
  }

  predicate HasGPS(typ: byte) {
    typ == MSG_GPS || typ == MSG_GPS_LBS2 || typ == MSG_GPS_LBS_STATUS || typ == MSG_GPS_EXTENDED || IsAlarm(typ)
  }

  datatype MessageKind = KindLogin | KindHeartbeat | KindPosition | KindAlarm | KindCommandAck | KindOther

  /** The part of protocols.TrackerMessage this adapter fills in. */
  datatype Message = Message(
    kind: MessageKind,
    imei: bytes,
    timestamp: Option<DateTime>,
    lat: real,
    lon: real,
    hasLocation: bool,
    speedKmh: int,
    heading: int,
    gpsValid: bool,
    satellites: Option<int>,
    acc: Option<bool>,
    relayOn: Option<bool>,
    charging: Option<bool>,
    armed: Option<bool>,
    batteryPercent: Option<int>,
    gsmLevel: Option<int>,
    alarm: string,
    correlationKey: dword,
    response: bytes,
    ack: bytes)

  const BLANK := Message(KindOther, [], None, 0.0, 0.0, false, 0, 0, false, None, None, None, None, None, None, None, "", 0, [], [])

  datatype ParseError =
    | BadFrame(why: FrameError)
    | InvalidIMEI
    | HeartbeatTooShort
    | GpsBlockTooShort
    | InvalidDate
    | OutsideGlobe
    | ReplyTooShort

  // ---- Field decoders ----

  /** decodeIMEI: the first nibble is padding. */
  function DecodeIMEI(b: bytes): bytes {
    if |b| < 8 then [] else Hex(b[..8])[1..]
  }

  function DecodeGPS(msg: Message, b: bytes): (r: Result<Message, ParseError>)
    ensures r.Ok? ==> |b| >= GPS_BLOCK_SIZE && r.value.hasLocation && ValidCoordinates(r.value.lat, r.value.lon)
  {
    if |b| < GPS_BLOCK_SIZE then Err(GpsBlockTooShort)
    else if b[1] < 1 || b[1] > 12 || b[2] < 1 || b[2] > 31 then Err(InvalidDate)
    else
      var flags := GetWord(b[16..]);
      var lat := GetDword(b[7..]) as real / 1800000.0;
      var lon := GetDword(b[11..]) as real / 1800000.0;
      var signedLat := if BitSet(flags, 0x0400) then lat else -lat;
      var signedLon := if BitSet(flags, 0x0800) then -lon else lon;
      if !ValidCoordinates(signedLat, signedLon) then Err(OutsideGlobe)
      else
        Ok(msg.(
          timestamp := Some(DateTime(b[0] as int + 2000, b[1], b[2], b[3], b[4], b[5])),
          satellites := Some(b[6] % 16),
          speedKmh := b[15],
          heading := flags % 0x400,
          gpsValid := BitSet(flags, 0x1000),
          lat := signedLat,
          lon := signedLon,
          hasLocation := true))
  }

  function LbsBlockSize(b: bytes): nat {
    if |b| < 2 then 0 else if BitSet(GetWord(b), 0x8000) then 9 else 8
  }

  function TerminalAlarm(code: int): string {
    if code == 1 then "VIBRATION"
    else if code == 2 then "POWER_LOSS"
    else if code == 3 then "LOW_BATTERY"
    else if code == 4 then "SOS"
    else ""
  }

  function ApplyTerminalInfo(msg: Message, info: byte): Message {
    var alarm := TerminalAlarm(info / 8 % 8);
    msg.(
      relayOn := Some(BitSet(info, 0x80)),
      acc := Some(BitSet(info, 0x02)),
      charging := Some(BitSet(info, 0x04)),
      armed := Some(BitSet(info, 0x01)),
      alarm := if alarm == "" then msg.alarm else alarm)
  }

  function BatteryLevelPercent(level: byte): int {
    (if level > 6 then 6 else level) * 100 / 6
  }

  function UpperHexDigit(n: nat): char
    requires n < 16
  {
    "0123456789ABCDEF"[n]
  }

  function AlarmLabel(code: byte): string {
    match code
    case 0x00 => ""
    case 0x01 => "SOS"
    case 0x02 => "POWER_LOSS"
    case 0x03 => "VIBRATION"
    case 0x04 => "GEOFENCE_ENTER"
    case 0x05 => "GEOFENCE_EXIT"
    case 0x06 => "OVERSPEED"
    case 0x09 => "DISPLACEMENT"
    case 0x0A => "GPS_LOST"
    case 0x0B => "GPS_RECOVERED"
    case 0x0E => "LOW_BATTERY"
    case 0x0F => "LOW_BATTERY"
    case 0xFE => "IGNITION_ON"
    case 0xFF => "IGNITION_OFF"
    case _ => "ALARM_0x" + [UpperHexDigit(code / 16), UpperHexDigit(code % 16)]
  }

  /** Every second byte, starting with the second: the low halves of UTF-16BE. */
  function LowHalves(b: bytes): bytes {
    if |b| < 2 then [] else [b[1]] + LowHalves(b[2..])
  }

  function DecodeReplyText(b: bytes): bytes {
    if |b| >= 2 && b[0] == 0x00 && b[1] != 0x00 then Trim(LowHalves(b)) else Trim(b)
  }

  lemma LowHalvesStep(b: bytes, i: nat, out: bytes)
    requires 1 <= i <= |b| + 1
    ensures out + LowHalves(b[i - 1..]) == if i < |b| then out + [b[i]] + LowHalves(b[i + 1..]) else out
  {
    var rest := b[i - 1..];
    if i < |b| {
      assert rest[1] == b[i] && rest[2..] == b[i + 1..];
      assert out + ([b[i]] + LowHalves(rest[2..])) == out + [b[i]] + LowHalves(rest[2..]);
    }
  }

  /** The copying loop of decodeReplyText. */
  method CopyLowHalves(b: bytes) returns (out: bytes)
    ensures out == LowHalves(b)
  {
    hide LowHalves;
    out := [];
    var i := 1;
    assert b[0..] == b;
    while i < |b|
      invariant 1 <= i <= |b| + 1
      invariant out + LowHalves(b[i - 1..]) == LowHalves(b)
    {
      LowHalvesStep(b, i, out);
      out := out + [b[i]];
      i := i + 2;
    }
    LowHalvesStep(b, i, out);
  }

  /** decodeReplyText step by step. */
  method ReadReplyText(b: bytes) returns (text: bytes)
    ensures text == DecodeReplyText(b)
  {
    if |b| >= 2 && b[0] == 0x00 && b[1] != 0x00 {
      var out := CopyLowHalves(b);
      return Trim(out);
    }
    return Trim(b);
  }

  // ---- Packets ----

  function ParseHeartbeat(msg: Message, content: bytes): Result<Message, ParseError> {
    if |content| < 3 then Err(HeartbeatTooShort)
    else
      var m := ApplyTerminalInfo(msg.(kind := KindHeartbeat), content[0]);
      Ok(m.(batteryPercent := Some(BatteryLevelPercent(content[1])),
            gsmLevel := Some(content[2]),
            kind := if m.alarm != "" then KindAlarm else KindHeartbeat))
  }

  /** The bytes after the GPS block, less the cell block when it is complete. */
  function AfterLbs(rest: bytes): bytes {
    var n := LbsBlockSize(rest);
    if n > 0 && |rest| >= n then rest[n..] else rest
  }

  function ParseStatus(msg: Message, rest: bytes): Message {
    if |rest| < 3 then msg
    else
      ApplyTerminalInfo(msg, rest[0]).(
        batteryPercent := Some(BatteryLevelPercent(rest[1])), gsmLevel := Some(rest[2]))
  }

  function ParseLocation(msg: Message, typ: byte, content: bytes): Result<Message, ParseError> {
    var gps := DecodeGPS(msg, content);
    if gps.Err? then gps
    else
      var rest := AfterLbs(content[GPS_BLOCK_SIZE..]);
      var m := ParseStatus(gps.value.(kind := KindPosition), rest);
      var tail := if |rest| >= 3 then rest[3..] else rest;
      if IsAlarm(typ) && |tail| >= 1 && AlarmLabel(tail[0]) != ""
      then Ok(m.(alarm := AlarmLabel(tail[0]), kind := KindAlarm))
      else Ok(m)
  }

  /** Where the text of a 0x15 or 0x80 packet ends, from its own length byte. */
  function TextEnd(content: bytes): (end: nat)
    requires |content| >= 5
    ensures 5 <= end <= |content|
  {
    var length := content[0];
    if length < 4 || 1 + length > |content| then |content| else 1 + length
  }

  function ParseCommandReply(msg: Message, content: bytes): Result<Message, ParseError> {
    if |content| < 5 then Err(ReplyTooShort)
    else
      Ok(msg.(kind := KindCommandAck,
              correlationKey := GetDword(content[1..]),
              response := DecodeReplyText(content[5..TextEnd(content)])))
  }

  function TimeReply(now: DateTime, serial: word): bytes {
    BuildFrame(MSG_TIME_REQUEST,
      [(now.year - 2000) % 0x100, now.month % 0x100, now.day % 0x100,
       now.hour % 0x100, now.minute % 0x100, now.second % 0x100], serial)
  }

  /** Protocol.Parse; `now` is the clock, `ackGps` the adapter's option. */
  function Parse(ackGps: bool, now: DateTime, frame: bytes): Result<Message, ParseError> {
    var decoded := DecodeFrame(frame);
    if decoded.Err? then Err(BadFrame(decoded.error)) else ParsePacket(ackGps, now, decoded.value)
  }

  function ParsePacket(ackGps: bool, now: DateTime, pkt: Packet): Result<Message, ParseError> {
    if pkt.typ == MSG_LOGIN then
      var imei := DecodeIMEI(pkt.content);
      if !ValidIMEI(imei) then Err(InvalidIMEI)
      else Ok(BLANK.(kind := KindLogin, imei := imei, ack := BuildFrame(MSG_LOGIN, [], pkt.serial)))
    else if pkt.typ == MSG_HEARTBEAT then
      var r := ParseHeartbeat(BLANK, pkt.content);
      if r.Err? then r else Ok(r.value.(ack := BuildFrame(MSG_HEARTBEAT, [], pkt.serial)))
    else if pkt.typ == MSG_STRING_INFO then ParseCommandReply(BLANK, pkt.content)
    else if pkt.typ == MSG_TIME_REQUEST then Ok(BLANK.(ack := TimeReply(now, pkt.serial)))
    else if HasGPS(pkt.typ) then
      var r := ParseLocation(BLANK, pkt.typ, pkt.content);
      if r.Err? then r
      else if IsAlarm(pkt.typ) || ackGps then Ok(r.value.(ack := BuildFrame(pkt.typ, [], pkt.serial)))
      else r
    else if ackGps then Ok(BLANK.(ack := BuildFrame(pkt.typ, [], pkt.serial)))
    else Ok(BLANK)
  }

  /** decodeLocation: the message is filled in as the rest of the content shrinks. */
  method ReadLocation(start: Message, typ: byte, content: bytes) returns (r: Result<Message, ParseError>)
    ensures r == ParseLocation(start, typ, content)
  {
    hide DecodeGPS, LbsBlockSize, ApplyTerminalInfo, AlarmLabel, BatteryLevelPercent;
    var gps := DecodeGPS(start, content);
    if gps.Err? {
      return gps;
    }
    var msg := gps.value.(kind := KindPosition);
    var rest := content[GPS_BLOCK_SIZE..];
    var n := LbsBlockSize(rest);
    if n > 0 && |rest| >= n {
      rest := rest[n..];
    }
    if |rest| >= 3 {
      msg := ApplyTerminalInfo(msg, rest[0]);
      msg := msg.(batteryPercent := Some(BatteryLevelPercent(rest[1])), gsmLevel := Some(rest[2]));
      rest := rest[3..];
    }
    if IsAlarm(typ) && |rest| >= 1 {
      var name := AlarmLabel(rest[0]);
      if name != "" {
        msg := msg.(alarm := name, kind := KindAlarm);
      }
    }
    return Ok(msg);
  }

  // ---- The tracker's side ----

  datatype DeviceStatus = DeviceStatus(acc: bool, relayOn: bool, charging: bool, batteryLevel: byte, gsmLevel: byte)

  function Bit(on: bool, mask: nat): nat {
    if on then mask else 0
  }

  /** TerminalInfoByte: GPS tracking and armed are always reported. */
  function TerminalInfoByte(s: DeviceStatus): byte {
    0x40 + Bit(s.relayOn, 0x80) + Bit(s.charging, 0x04) + Bit(s.acc, 0x02) + 0x01
  }

  datatype Fix = Fix(time: DateTime, lat: real, lon: real, speedKmh: real, course: real, satellites: int, valid: bool)

  /** What the float-to-integer conversions of encodeGPSBlock are defined for. */
  predicate OnGlobe(fix: Fix) {
    ValidCoordinates(fix.lat, fix.lon) && 0.0 <= fix.course < 65535.5
  }

  predicate PlausibleTime(t: DateTime) {
    2000 <= t.year <= 2255 && 1 <= t.month <= 12 && 1 <= t.day <= 31 && 0 <= t.hour <= 23 && 0 <= t.minute <= 59 && 0 <= t.second <= 59
  }

  /** math.Round of a non-negative number. */
  function Round(x: real): (n: nat)
    requires x >= 0.0
    ensures x - 0.5 <= n as real <= x + 0.5
  {
    (x + 0.5).Floor
  }

  function Abs(x: real): real {
    if x < 0.0 then -x else x
  }

  function Units(degrees: real): (n: dword)
    requires -180.0 <= degrees <= 180.0
    ensures degrees <= 90.0 && degrees >= -90.0 ==> n <= 162000000
    ensures n <= 324000000
  {
    Round(Abs(degrees) * 1800000.0)
  }

  function ClampSpeed(speed: real): real {
    if speed < 0.0 then 0.0 else if speed > 255.0 then 255.0 else speed
  }

  function CourseFlags(fix: Fix): (flags: word)
    requires OnGlobe(fix)
  {
    Round(fix.course) % 0x400 + Bit(fix.valid, 0x1000) + Bit(fix.lat >= 0.0, 0x0400) + Bit(fix.lon < 0.0, 0x0800)
  }

  function EncodeTime(t: DateTime): (b: bytes)
    ensures |b| == 6
  {
    [(t.year - 2000) % 0x100, t.month % 0x100, t.day % 0x100, t.hour % 0x100, t.minute % 0x100, t.second % 0x100]
  }

  function EncodeGPSBlock(fix: Fix): (b: bytes)
    requires OnGlobe(fix)
    ensures |b| == GPS_BLOCK_SIZE
  {
    var satellites := fix.satellites % 0x100;
    EncodeTime(fix.time) + [0xC0 + (if satellites > 15 then 15 else satellites)]
    + PutDword(Units(fix.lat)) + PutDword(Units(fix.lon))
    + [Round(ClampSpeed(fix.speedKmh))] + PutWord(CourseFlags(fix))
  }

  const LBS_BLOCK: bytes := [0x02, 0xD4, 0x06, 0x12, 0x34, 0x00, 0xAB, 0xCD]

  function ClampLevel(value: byte, maximum: byte): byte {
    if value > maximum then maximum else value
  }

  function StatusBlock(s: DeviceStatus): (b: bytes)
    ensures |b| == 3
  {
    [TerminalInfoByte(s), ClampLevel(s.batteryLevel, 6), ClampLevel(s.gsmLevel, 4)]
  }

  function BuildPositionFrame(fix: Fix, status: DeviceStatus, serial: word): bytes
    requires OnGlobe(fix)
  {
    BuildFrame(MSG_GPS_LBS_STATUS, EncodeGPSBlock(fix) + LBS_BLOCK + StatusBlock(status), serial)
  }

  function BuildAlarmFrame(fix: Fix, status: DeviceStatus, code: byte, serial: word): bytes
    requires OnGlobe(fix)
  {
    BuildFrame(MSG_ALARM_GPS, EncodeGPSBlock(fix) + LBS_BLOCK + (StatusBlock(status) + [code, 0x01]), serial)
  }

  function BuildHeartbeatFrame(status: DeviceStatus, serial: word): bytes {
    BuildFrame(MSG_HEARTBEAT, StatusBlock(status) + [0x00, 0x01], serial)
  }

  /** Content shared by 0x15 replies and 0x80 commands: length, key, text, language. */
  function TextContent(key: dword, text: bytes): bytes {
    [Truncate8(|text| + 4)] + PutDword(key) + text + [0x00, 0x02]
  }

  function BuildCommandReply(key: dword, text: bytes, serial: word): bytes {
    BuildFrame(MSG_STRING_INFO, TextContent(key, text), serial)
  }

  // ---- Position round trip ----

  lemma EncodedGPSFields(fix: Fix, rest: bytes)
    requires OnGlobe(fix)
    ensures var b := EncodeGPSBlock(fix) + rest;
      && b[..6] == EncodeTime(fix.time)
      && b[6] == 0xC0 + (if fix.satellites % 0x100 > 15 then 15 else fix.satellites % 0x100)
      && GetDword(b[7..]) == Units(fix.lat) && GetDword(b[11..]) == Units(fix.lon)
      && b[15] == Round(ClampSpeed(fix.speedKmh)) && GetWord(b[16..]) == CourseFlags(fix)
  {
    hide Units, CourseFlags, PutDword, GetDword, EncodeTime;
    var b := EncodeGPSBlock(fix) + rest;
    var lat, lon, flags := PutDword(Units(fix.lat)), PutDword(Units(fix.lon)), PutWord(CourseFlags(fix));
    DwordRoundTrip(Units(fix.lat), b[11..]);
    DwordRoundTrip(Units(fix.lon), b[15..]);
    WordRoundTrip(CourseFlags(fix), rest);
    assert b[7..] == lat + b[11..];
    assert b[11..] == lon + b[15..];
    assert b[16..] == flags + rest;
  }

  lemma FlagsDecode(fix: Fix)
    requires OnGlobe(fix)
    ensures var f := CourseFlags(fix);
      && f % 0x400 == Round(fix.course) % 0x400
      && BitSet(f, 0x1000) == fix.valid
      && BitSet(f, 0x0400) == (fix.lat >= 0.0)
      && BitSet(f, 0x0800) == (fix.lon < 0.0)
  {
  }

  /** The unit of 1/1800000 degree keeps a coordinate to half a unit. */
  lemma UnitsClose(degrees: real, back: real)
    requires -180.0 <= degrees <= 180.0
    requires back == (if degrees < 0.0 then -(Units(degrees) as real / 1800000.0) else Units(degrees) as real / 1800000.0)
    ensures Abs(back - degrees) <= 1.0 / 3600000.0
    ensures (degrees >= 0.0 ==> back >= 0.0) && (degrees <= 0.0 ==> back <= 0.0)
    ensures -180.0 <= back <= 180.0 && (-90.0 <= degrees <= 90.0 ==> -90.0 <= back <= 90.0)
  {
    var n := Units(degrees) as real;
    var x := Abs(degrees) * 1800000.0;
    assert x - 0.5 <= n <= x + 0.5;
  }

  /** What the GPS fields of a message owe to the fix they were encoded from. */
  predicate FaithfulFix(m: Message, fix: Fix)
    requires OnGlobe(fix)
  {
    && m.hasLocation
    && Abs(m.lat - fix.lat) <= 1.0 / 3600000.0 && Abs(m.lon - fix.lon) <= 1.0 / 3600000.0
    && (fix.lat >= 0.0 ==> m.lat >= 0.0) && (fix.lat <= 0.0 ==> m.lat <= 0.0)
    && (fix.lon >= 0.0 ==> m.lon >= 0.0) && (fix.lon <= 0.0 ==> m.lon <= 0.0)
    && m.timestamp == Some(fix.time)
    && Abs(m.speedKmh as real - ClampSpeed(fix.speedKmh)) <= 0.5
    && m.heading == Round(fix.course) % 0x400
    && m.gpsValid == fix.valid
    && (0 <= fix.satellites < 0x100 ==> m.satellites == Some(if fix.satellites > 15 then 15 else fix.satellites))
  }

  /** And what its status fields owe to the reported status. */
  predicate FaithfulStatus(m: Message, status: DeviceStatus) {
    && m.acc == Some(status.acc) && m.relayOn == Some(status.relayOn) && m.charging == Some(status.charging)
    && m.batteryPercent == Some((if status.batteryLevel > 6 then 6 else status.batteryLevel) * 100 / 6)
    && m.gsmLevel == Some(if status.gsmLevel > 4 then 4 else status.gsmLevel)
  }

  /** decodeGPS on a block whose fields are known. */
  lemma DecodeGPSFields(b: bytes, t: DateTime, lat: real, lon: real)
    requires |b| >= GPS_BLOCK_SIZE && PlausibleTime(t) && b[..6] == EncodeTime(t)
    requires lat == (if BitSet(GetWord(b[16..]), 0x0400) then 1.0 else -1.0) * (GetDword(b[7..]) as real / 1800000.0)
    requires lon == (if BitSet(GetWord(b[16..]), 0x0800) then -1.0 else 1.0) * (GetDword(b[11..]) as real / 1800000.0)
    requires ValidCoordinates(lat, lon)
    ensures DecodeGPS(BLANK, b) == Ok(BLANK.(
      timestamp := Some(t), satellites := Some(b[6] % 16), speedKmh := b[15],
      heading := GetWord(b[16..]) % 0x400, gpsValid := BitSet(GetWord(b[16..]), 0x1000),
      lat := lat, lon := lon, hasLocation := true))
  {
    hide GetDword, GetWord, ValidCoordinates, BitSet;
    assert b[0] == b[..6][0] && b[1] == b[..6][1] && b[2] == b[..6][2];
    assert b[3] == b[..6][3] && b[4] == b[..6][4] && b[5] == b[..6][5];
  }

  lemma GPSRoundTrip(fix: Fix, rest: bytes)
    requires OnGlobe(fix) && PlausibleTime(fix.time)
    ensures var r := DecodeGPS(BLANK, EncodeGPSBlock(fix) + rest);
      r.Ok? && r.value.alarm == "" && FaithfulFix(r.value, fix)
  {
    hide EncodeGPSBlock, DecodeGPS, Units, CourseFlags, GetDword, GetWord, BitSet, PlausibleTime, EncodeTime, ClampSpeed;
    var b := EncodeGPSBlock(fix) + rest;
    EncodedGPSFields(fix, rest);
    FlagsDecode(fix);
    var lat, lon := Units(fix.lat) as real / 1800000.0, Units(fix.lon) as real / 1800000.0;
    var signedLat, signedLon := if fix.lat < 0.0 then -lat else lat, if fix.lon < 0.0 then -lon else lon;
    UnitsClose(fix.lat, signedLat);
    UnitsClose(fix.lon, signedLon);
    DecodeGPSFields(b, fix.time, signedLat, signedLon);
  }

  /** Status fields do not disturb the fix. */
  lemma FixKept(m: Message, kind: MessageKind, acc: Option<bool>, relayOn: Option<bool>, charging: Option<bool>,
    armed: Option<bool>, battery: Option<int>, gsm: Option<int>, alarm: string, fix: Fix)
    requires OnGlobe(fix) && FaithfulFix(m, fix)
    ensures FaithfulFix(m.(kind := kind, acc := acc, relayOn := relayOn, charging := charging, armed := armed,
      batteryPercent := battery, gsmLevel := gsm, alarm := alarm), fix)
  {
  }

  lemma StatusRoundTrip(m: Message, status: DeviceStatus, rest: bytes)
    requires m.alarm == ""
    ensures ParseStatus(m, StatusBlock(status) + rest) == m.(
        acc := Some(status.acc), relayOn := Some(status.relayOn), charging := Some(status.charging), armed := Some(true),
        batteryPercent := Some((if status.batteryLevel > 6 then 6 else status.batteryLevel) * 100 / 6),
        gsmLevel := Some(if status.gsmLevel > 4 then 4 else status.gsmLevel))
  {
    TerminalInfoBits(status);
    var b := StatusBlock(status) + rest;
    assert b[0] == TerminalInfoByte(status) && b[1] == ClampLevel(status.batteryLevel, 6) && b[2] == ClampLevel(status.gsmLevel, 4);
  }

  lemma TerminalInfoBits(status: DeviceStatus)
    ensures var info := TerminalInfoByte(status);
      && BitSet(info, 0x80) == status.relayOn && BitSet(info, 0x02) == status.acc
      && BitSet(info, 0x04) == status.charging && BitSet(info, 0x01)
      && info / 8 % 8 == 0
  {
  }

  /** Attaching an acknowledgement disturbs neither. */
  lemma AckKept(m: Message, ack: bytes, fix: Fix, status: DeviceStatus)
    requires OnGlobe(fix)
    ensures FaithfulFix(m.(ack := ack), fix) == FaithfulFix(m, fix)
    ensures FaithfulStatus(m.(ack := ack), status) == FaithfulStatus(m, status)
  {
  }

  /** The content of a position or alarm packet, decoded. */
  lemma LocationRoundTrip(fix: Fix, cell: bytes, status: DeviceStatus, typ: byte, tail: bytes)
    requires OnGlobe(fix) && PlausibleTime(fix.time)
    requires (|cell| == 8 && cell[0] < 128) || (|cell| == 9 && cell[0] >= 128)
    ensures var r := ParseLocation(BLANK, typ, EncodeGPSBlock(fix) + cell + (StatusBlock(status) + tail));
      && r.Ok? && FaithfulFix(r.value, fix) && FaithfulStatus(r.value, status)
      && (if IsAlarm(typ) && tail != [] && AlarmLabel(tail[0]) != ""
          then r.value.kind == KindAlarm && r.value.alarm == AlarmLabel(tail[0])
          else r.value.kind == KindPosition && r.value.alarm == "")
  {
    hide EncodeGPSBlock, DecodeGPS, StatusBlock, ParseStatus, AlarmLabel, FaithfulFix, AfterLbs;
    var rest := cell + (StatusBlock(status) + tail);
    var content := EncodeGPSBlock(fix) + cell + (StatusBlock(status) + tail);
    assert content == EncodeGPSBlock(fix) + rest;
    GPSRoundTrip(fix, rest);
    assert content[GPS_BLOCK_SIZE..] == rest;
    CellSkipped(cell, StatusBlock(status) + tail);
    var gps := DecodeGPS(BLANK, content);
    StatusRoundTrip(gps.value.(kind := KindPosition), status, tail);
    var m := ParseStatus(gps.value.(kind := KindPosition), StatusBlock(status) + tail);
    FixKept(gps.value, KindPosition, m.acc, m.relayOn, m.charging, m.armed, m.batteryPercent, m.gsmLevel, "", fix);
    assert (StatusBlock(status) + tail)[3..] == tail;
    if tail != [] {
      FixKept(m, KindAlarm, m.acc, m.relayOn, m.charging, m.armed, m.batteryPercent, m.gsmLevel, AlarmLabel(tail[0]), fix);
    }
  }

  lemma CellSkipped(cell: bytes, rest: bytes)
    requires (|cell| == 8 && cell[0] < 128) || (|cell| == 9 && cell[0] >= 128)
    ensures AfterLbs(cell + rest) == rest
  {
    assert (cell + rest)[0] == cell[0] && (cell + rest)[1] == cell[1];
    assert (cell + rest)[|cell|..] == rest;
  }

  /** Every fix on the globe survives the trip through a position frame. */
  lemma PositionRoundTrip(ackGps: bool, now: DateTime, fix: Fix, status: DeviceStatus, serial: word)
    requires OnGlobe(fix) && PlausibleTime(fix.time)
    ensures var r := Parse(ackGps, now, BuildPositionFrame(fix, status, serial));
      r.Ok? && r.value.kind == KindPosition && FaithfulFix(r.value, fix) && FaithfulStatus(r.value, status)
  {
    hide DecodeFrame, BuildFrame, EncodeGPSBlock, StatusBlock, ParseLocation, FaithfulFix, FaithfulStatus;
    var content := EncodeGPSBlock(fix) + LBS_BLOCK + StatusBlock(status);
    assert StatusBlock(status) + [] == StatusBlock(status);
    DecodeBuilt(MSG_GPS_LBS_STATUS, content, serial);
    LocationRoundTrip(fix, LBS_BLOCK, status, MSG_GPS_LBS_STATUS, []);
    AckKept(ParseLocation(BLANK, MSG_GPS_LBS_STATUS, content).value, BuildFrame(MSG_GPS_LBS_STATUS, [], serial), fix, status);
  }

  /** An alarm frame carries the position and the label of its code, and is always acknowledged. */
  lemma AlarmRoundTrip(ackGps: bool, now: DateTime, fix: Fix, status: DeviceStatus, code: byte, serial: word)
    requires OnGlobe(fix) && PlausibleTime(fix.time)
    ensures var r := Parse(ackGps, now, BuildAlarmFrame(fix, status, code, serial));
      && r.Ok? && FaithfulFix(r.value, fix) && FaithfulStatus(r.value, status) && r.value.alarm == AlarmLabel(code)
      && r.value.kind == (if code == 0 then KindPosition else KindAlarm)
      && r.value.ack == BuildFrame(MSG_ALARM_GPS, [], serial)
  {
    hide DecodeFrame, BuildFrame, EncodeGPSBlock, StatusBlock, ParseLocation, FaithfulFix, FaithfulStatus;
    var content := EncodeGPSBlock(fix) + LBS_BLOCK + (StatusBlock(status) + [code, 0x01]);
    DecodeBuilt(MSG_ALARM_GPS, content, serial);
    LocationRoundTrip(fix, LBS_BLOCK, status, MSG_ALARM_GPS, [code, 0x01]);
    AckKept(ParseLocation(BLANK, MSG_ALARM_GPS, content).value, BuildFrame(MSG_ALARM_GPS, [], serial), fix, status);
  }

  /** A heartbeat reports the whole status, raises no alarm, and is acknowledged with its own serial number. */
  lemma HeartbeatRoundTrip(ackGps: bool, now: DateTime, status: DeviceStatus, serial: word)
    ensures var r := Parse(ackGps, now, BuildHeartbeatFrame(status, serial));
      && r.Ok? && r.value.kind == KindHeartbeat && r.value.alarm == "" && !r.value.hasLocation
      && FaithfulStatus(r.value, status) && r.value.armed == Some(true)
      && DecodeFrame(r.value.ack) == Ok(Packet(MSG_HEARTBEAT, [], serial))
  {
    hide DecodeFrame, BuildFrame, TerminalInfoByte;
    TerminalInfoBits(status);
    DecodeBuilt(MSG_HEARTBEAT, StatusBlock(status) + [0x00, 0x01], serial);
    DecodeBuilt(MSG_HEARTBEAT, [], serial);
  }
}
