/**
  What the server reads out of a gt06 packet (gt06/gt06.go, gt06/decode.go), byte by byte: types,
  offsets, flag bits and labels written out, and the answer each type gets.
 */
module Gt06Packets {
  import opened Bytes
  import opened Wrappers
  import opened Text
  import opened Tracker
  import opened Gt06Frame
  import opened Gt06Codec

  // ---- The GPS block ----

  /** Coordinates in units of 1/1800000 degree. */
  function LatUnits(b: bytes): nat
    requires |b| >= 18
  {
    FourBytes(b[7], b[8], b[9], b[10])
  }

  function LonUnits(b: bytes): nat
    requires |b| >= 18
  {
    FourBytes(b[11], b[12], b[13], b[14])
  }

  lemma FlagWord(b: bytes)
    requires |b| >= 2
    ensures var flags := GetWord(b);
      && (BitSet(flags, 0x0400) <==> b[0] / 4 % 2 == 1)
      && (BitSet(flags, 0x0800) <==> b[0] / 8 % 2 == 1)
      && (BitSet(flags, 0x1000) <==> b[0] / 16 % 2 == 1)
      && (BitSet(flags, 0x8000) <==> b[0] >= 128)
      && flags % 0x400 == Course(b[0], b[1])
  {
  }

  function Course(high: nat, low: nat): nat {
    0x100 * (high % 4) + low
  }

  /** A block is accepted exactly when it has 18 bytes, a month and a day, and lies on the globe. */
  lemma GpsAcceptedIff(b: bytes)
    ensures DecodeGPS(BLANK, b).Ok? <==>
      |b| >= 18 && 1 <= b[1] <= 12 && 1 <= b[2] <= 31 && LatUnits(b) <= 162000000 && LonUnits(b) <= 324000000
  {
    hide GetDword, BitSet, GetWord, FourBytes;
    if |b| >= 18 {
      DwordInBytes(b[7..]);
      DwordInBytes(b[11..]);
    }
  }

  /** What an accepted block says. */
  lemma GpsReads(b: bytes)
    requires DecodeGPS(BLANK, b).Ok?
    ensures |b| >= 18
    ensures var m := DecodeGPS(BLANK, b).value;
      && m.timestamp == Some(DateTime(2000 + b[0] as int, b[1], b[2], b[3], b[4], b[5]))
      && m.satellites == Some(b[6] % 16)
      && m.lat == (if b[16] / 4 % 2 == 1 then 1.0 else -1.0) * (LatUnits(b) as real / 1800000.0)
      && m.lon == (if b[16] / 8 % 2 == 1 then -1.0 else 1.0) * (LonUnits(b) as real / 1800000.0)
      && (m.gpsValid <==> b[16] / 16 % 2 == 1)
      && m.heading == Course(b[16], b[17]) && m.speedKmh == b[15] && m.hasLocation
      && m.acc == m.relayOn == None && m.batteryPercent == m.gsmLevel == None && m.alarm == "" && m.ack == []
  {
    hide GetDword, BitSet, GetWord, FourBytes, ValidCoordinates;
    DwordInBytes(b[7..]);
    DwordInBytes(b[11..]);
    FlagWord(b[16..]);
  }

  // ---- The status block ----

  /** The terminal information byte: relay, ignition, charging, armed, and an alarm in three bits. */
  lemma TerminalInfoReads(msg: Message, info: byte)
    ensures var m := ApplyTerminalInfo(msg, info);
      && m.relayOn == Some(info >= 128) && m.acc == Some(info / 2 % 2 == 1)
      && m.charging == Some(info / 4 % 2 == 1) && m.armed == Some(info % 2 == 1)
      && m.alarm == (
        if info / 8 % 8 == 1 then "VIBRATION" else if info / 8 % 8 == 2 then "POWER_LOSS"
        else if info / 8 % 8 == 3 then "LOW_BATTERY" else if info / 8 % 8 == 4 then "SOS" else msg.alarm)
      && m == msg.(relayOn := m.relayOn, acc := m.acc, charging := m.charging, armed := m.armed, alarm := m.alarm)
  {
  }

  /** Battery levels 0 to 6, and anything above, in percent. */
  lemma BatterySteps(level: byte)
    ensures BatteryLevelPercent(level) ==
      if level == 0 then 0 else if level == 1 then 16 else if level == 2 then 33
      else if level == 3 then 50 else if level == 4 then 66 else if level == 5 then 83 else 100
  {
  }

  /** The alarm codes with a name. */
  lemma AlarmTable()
    ensures AlarmLabel(0x00) == "" && AlarmLabel(0x01) == "SOS" && AlarmLabel(0x02) == "POWER_LOSS"
    ensures AlarmLabel(0x03) == "VIBRATION" && AlarmLabel(0x04) == "GEOFENCE_ENTER" && AlarmLabel(0x05) == "GEOFENCE_EXIT"
    ensures AlarmLabel(0x06) == "OVERSPEED" && AlarmLabel(0x09) == "DISPLACEMENT" && AlarmLabel(0x0A) == "GPS_LOST"
    ensures AlarmLabel(0x0B) == "GPS_RECOVERED" && AlarmLabel(0x0E) == AlarmLabel(0x0F) == "LOW_BATTERY"
    ensures AlarmLabel(0xFE) == "IGNITION_ON" && AlarmLabel(0xFF) == "IGNITION_OFF"
  {
  }

  /** Every other code is shown in hexadecimal. */
  lemma OtherAlarms(code: byte)
    requires 0x10 <= code <= 0xFD || code == 7 || code == 8 || code == 0x0C || code == 0x0D
    ensures AlarmLabel(code) == "ALARM_0x" + ["0123456789ABCDEF"[code / 16], "0123456789ABCDEF"[code % 16]]
  {
  }

  // ---- Location packets ----

  predicate CarriesAlarm(typ: byte) {
    typ == 0x16 || typ == 0x26 || typ == 0x27
  }

  predicate CarriesPlace(typ: byte) {
    typ == 0x12 || typ == 0x22 || typ == 0x2D || typ == 0xA0 || CarriesAlarm(typ)
  }

  /** How many bytes of the rest the cell block takes: nine when the top bit of the country code is up, if they are there. */
  function CellBlock(rest: bytes): nat {
    if |rest| >= 9 && rest[0] >= 128 then 9
    else if |rest| >= 8 && rest[0] < 128 then 8
    else 0
  }

  lemma CellBlockSkipped(rest: bytes)
    ensures CellBlock(rest) <= |rest| && AfterLbs(rest) == rest[CellBlock(rest)..]
  {
    hide GetWord, BitSet;
    if |rest| >= 2 {
      FlagWord(rest);
    }
  }

  /** The status fields seen in three bytes, if there are three. */
  function StatusSeen(g: Message, rest: bytes): Message {
    if |rest| >= 3
    then ApplyTerminalInfo(g, rest[0]).(batteryPercent := Some(BatteryLevelPercent(rest[1])), gsmLevel := Some(rest[2]))
    else g
  }

  lemma StatusIsSeen(g: Message, rest: bytes)
    ensures ParseStatus(g.(kind := KindPosition), rest) == StatusSeen(g, rest).(kind := KindPosition)
    ensures var m := StatusSeen(g, rest);
      m == g.(relayOn := m.relayOn, acc := m.acc, charging := m.charging, armed := m.armed, alarm := m.alarm,
              batteryPercent := m.batteryPercent, gsmLevel := m.gsmLevel)
  {
    hide ApplyTerminalInfo, BatteryLevelPercent;
    if |rest| >= 3 {
      TerminalInfoReads(g, rest[0]);
      TerminalInfoReads(g.(kind := KindPosition), rest[0]);
    }
  }

  /** The place, then the cell block, then three bytes of status if there are three, then the alarm code if there is one. */
  lemma LocationReads(typ: byte, content: bytes)
    requires DecodeGPS(BLANK, content).Ok?
    ensures |content| >= 18 && ParseLocation(BLANK, typ, content).Ok?
    ensures var g, m := DecodeGPS(BLANK, content).value, ParseLocation(BLANK, typ, content).value;
      var rest := content[18..][CellBlock(content[18..])..];
      var tail := if |rest| >= 3 then rest[3..] else rest;
      if CarriesAlarm(typ) && tail != [] && tail[0] != 0
      then m == StatusSeen(g, rest).(kind := KindAlarm, alarm := AlarmLabel(tail[0]))
      else m == StatusSeen(g, rest).(kind := KindPosition)
  {
    hide DecodeGPS, AlarmLabel, AfterLbs, CellBlock, ParseStatus, StatusSeen;
    CellBlockSkipped(content[18..]);
    var rest := AfterLbs(content[18..]);
    StatusIsSeen(DecodeGPS(BLANK, content).value, rest);
    var tail := if |rest| >= 3 then rest[3..] else rest;
    if tail != [] {
      OnlyZeroIsUnnamed(tail[0]);
    }
  }

  lemma OnlyZeroIsUnnamed(code: byte)
    ensures AlarmLabel(code) == "" <==> code == 0
  {
  }

  // ---- Every packet ----

  /** Year since 2000, month, day, hour, minute and second. */
  function Clock(t: DateTime): bytes {
    [(t.year - 2000) % 256, t.month % 256, t.day % 256, t.hour % 256, t.minute % 256, t.second % 256]
  }

  /** What each packet type is answered with: logins, heartbeats and alarms always, replies never, the rest on request. */
  lemma AnswerByType(ackGps: bool, now: DateTime, frame: bytes, pkt: Packet)
    requires DecodeFrame(frame) == Ok(pkt) && Parse(ackGps, now, frame).Ok?
    ensures Parse(ackGps, now, frame).value.ack ==
      if pkt.typ == 0x15 then []
      else if pkt.typ == 0x8A then BuildFrame(0x8A, Clock(now), pkt.serial)
      else if pkt.typ == 0x01 || pkt.typ == 0x13 || CarriesAlarm(pkt.typ) || ackGps then BuildFrame(pkt.typ, [], pkt.serial)
      else []
  {
    hide DecodeFrame, BuildFrame, DecodeGPS, ApplyTerminalInfo, AlarmLabel, CellBlock, BatteryLevelPercent;
    hide ValidIMEI, DecodeIMEI, DecodeReplyText, TextEnd, ParseLocation, ParseHeartbeat, StatusSeen;
    if CarriesPlace(pkt.typ) {
      var content := pkt.content;
      LocationNeedsPlace(pkt.typ, content);
      GpsReads(content);
      CellBlockSkipped(content[18..]);
      LocationReads(pkt.typ, content);
      StatusIsSeen(DecodeGPS(BLANK, content).value, content[18..][CellBlock(content[18..])..]);
    }
  }

  lemma LocationNeedsPlace(typ: byte, content: bytes)
    requires ParseLocation(BLANK, typ, content).Ok?
    ensures DecodeGPS(BLANK, content).Ok?
  {
    hide DecodeGPS, AfterLbs, ParseStatus, AlarmLabel;
  }

  /** Which packets are refused, and why. */
  lemma RefusedByType(ackGps: bool, now: DateTime, frame: bytes)
    ensures var r, decoded := Parse(ackGps, now, frame), DecodeFrame(frame);
      r.Err? <==>
        || decoded.Err?
        || (decoded.value.typ == 0x01 && !ValidIMEI(DecodeIMEI(decoded.value.content)))
        || (decoded.value.typ == 0x13 && |decoded.value.content| < 3)
        || (decoded.value.typ == 0x15 && |decoded.value.content| < 5)
        || (CarriesPlace(decoded.value.typ) && DecodeGPS(BLANK, decoded.value.content).Err?)
  {
    hide DecodeFrame, BuildFrame, DecodeGPS, ApplyTerminalInfo, AlarmLabel, AfterLbs, BatteryLevelPercent, ValidIMEI, DecodeIMEI, DecodeReplyText, TextEnd;
  }

  /** What each packet type is read as. */
  lemma ReadByType(ackGps: bool, now: DateTime, frame: bytes, pkt: Packet)
    requires DecodeFrame(frame) == Ok(pkt) && Parse(ackGps, now, frame).Ok?
    ensures var m := Parse(ackGps, now, frame).value;
      && (CarriesPlace(pkt.typ) ==>
            DecodeGPS(BLANK, pkt.content).Ok? && m == ParseLocation(BLANK, pkt.typ, pkt.content).value.(ack := m.ack))
      && (pkt.typ == 0x01 ==> m == BLANK.(kind := KindLogin, imei := DecodeIMEI(pkt.content), ack := m.ack))
      && (pkt.typ == 0x15 ==> m.kind == KindCommandAck && m == BLANK.(kind := m.kind, correlationKey := m.correlationKey, response := m.response))
      && (!CarriesPlace(pkt.typ) && pkt.typ != 0x01 && pkt.typ != 0x13 && pkt.typ != 0x15 ==> m == BLANK.(ack := m.ack))
  {
    hide DecodeFrame, BuildFrame, DecodeGPS, ApplyTerminalInfo, AlarmLabel, AfterLbs, BatteryLevelPercent, ValidIMEI, DecodeIMEI, DecodeReplyText, TextEnd, ParseLocation;
    if CarriesPlace(pkt.typ) {
      LocationNeedsPlace(pkt.typ, pkt.content);
    }
  }

  predicate HeartbeatSays(m: Message, status: nat, battery: nat, signal: int) {
    && m.relayOn == Some(status >= 128) && m.acc == Some(status / 2 % 2 == 1)
    && m.charging == Some(status / 4 % 2 == 1) && m.armed == Some(status % 2 == 1)
    && m.batteryPercent == Some((if battery > 6 then 6 else battery) * 100 / 6) && m.gsmLevel == Some(signal)
    && m.kind == (if 1 <= status / 8 % 8 <= 4 then KindAlarm else KindHeartbeat)
    && !m.hasLocation
  }

  /** A heartbeat: status byte, battery and signal; an alarm in the status byte makes it an alarm. */
  lemma HeartbeatReads(ackGps: bool, now: DateTime, frame: bytes, pkt: Packet)
    requires DecodeFrame(frame) == Ok(pkt) && pkt.typ == 0x13 && |pkt.content| >= 3
    ensures Parse(ackGps, now, frame).Ok?
    ensures HeartbeatSays(Parse(ackGps, now, frame).value, pkt.content[0], pkt.content[1], pkt.content[2])
  {
    hide DecodeFrame, BuildFrame, ApplyTerminalInfo;
    TerminalInfoReads(BLANK.(kind := KindHeartbeat), pkt.content[0]);
  }

  /** A reply: a length byte that is used when it fits, four bytes of key, then the text up to that length. */
  lemma ReplyReads(ackGps: bool, now: DateTime, frame: bytes, pkt: Packet)
    requires DecodeFrame(frame) == Ok(pkt) && pkt.typ == 0x15 && |pkt.content| >= 5
    ensures Parse(ackGps, now, frame).Ok?
    ensures var m, b := Parse(ackGps, now, frame).value, pkt.content;
      && m.correlationKey == FourBytes(b[1], b[2], b[3], b[4])
      && m.response == DecodeReplyText(b[5..if 4 <= b[0] < |b| then b[0] + 1 else |b|])
  {
    hide DecodeFrame, BuildFrame, GetDword, FourBytes, DecodeReplyText;
    DwordInBytes(pkt.content[1..]);
  }

  /** A fix and a status survive in every location type, behind either form of cell block. */
  lemma PlaceSurvives(ackGps: bool, now: DateTime, typ: byte, fix: Fix, cell: bytes, status: DeviceStatus, tail: bytes, serial: word)
    requires CarriesPlace(typ) && OnGlobe(fix) && PlausibleTime(fix.time)
    requires (|cell| == 8 && cell[0] < 128) || (|cell| == 9 && cell[0] >= 128)
    ensures var r := Parse(ackGps, now, BuildFrame(typ, EncodeGPSBlock(fix) + cell + (StatusBlock(status) + tail), serial));
      && r.Ok? && FaithfulFix(r.value, fix) && FaithfulStatus(r.value, status)
      && (if CarriesAlarm(typ) && tail != [] && tail[0] != 0
          then r.value.kind == KindAlarm && r.value.alarm == AlarmLabel(tail[0])
          else r.value.kind == KindPosition && r.value.alarm == "")
  {
    hide DecodeFrame, BuildFrame, EncodeGPSBlock, StatusBlock, ParseLocation, FaithfulFix, FaithfulStatus, AlarmLabel;
    var content := EncodeGPSBlock(fix) + cell + (StatusBlock(status) + tail);
    DecodeBuilt(typ, content, serial);
    LocationRoundTrip(fix, cell, status, typ, tail);
    AckKept(ParseLocation(BLANK, typ, content).value, BuildFrame(typ, [], serial), fix, status);
    if tail != [] {
      OnlyZeroIsUnnamed(tail[0]);
    }
  }
}
