/**
  The H02 binary frame, byte by byte: which frames decodeBinary (h02/binary.go) accepts and what it
  reports, in plain arithmetic on the bytes at their offsets.
 */
module H02Bytes {
  import opened Bytes
  import opened Wrappers
  import opened Text
  import opened Tracker
  import opened H02Binary

  /** A byte of two decimal digits, and its number. */
  predicate Bcd(b: nat) {
    b / 16 <= 9 && b % 16 <= 9
  }

  function Number(b: nat): nat {
    10 * (b / 16) + b % 16
  }

  // ---- Digits ----

  lemma ScanMore(ns: seq<nibble>, k: nat, n: nat, d: nat)
    requires k + n < |ns| && ns[k + n] == d
    ensures Scan(ns, k, n + 1).Ok? <==> Scan(ns, k, n).Ok? && d <= 9
    ensures Scan(ns, k, n + 1).Ok? ==> Scan(ns, k, n + 1).value == 10 * Scan(ns, k, n).value + d
  {
  }

  lemma ScanTwo(ns: seq<nibble>, k: nat, a: nat, b: nat)
    requires k + 2 <= |ns| && ns[k] == a && ns[k + 1] == b
    ensures Scan(ns, k, 2).Ok? <==> a <= 9 && b <= 9
    ensures Scan(ns, k, 2).Ok? ==> Scan(ns, k, 2).value == 10 * a + b
  {
    hide Scan;
    ScanEmpty(ns, k);
    ScanMore(ns, k, 0, a);
    ScanMore(ns, k, 1, b);
  }

  lemma ScanThree(ns: seq<nibble>, k: nat, a: nat, b: nat, c: nat)
    requires k + 3 <= |ns| && ns[k] == a && ns[k + 1] == b && ns[k + 2] == c
    ensures Scan(ns, k, 3).Ok? <==> a <= 9 && b <= 9 && c <= 9
    ensures Scan(ns, k, 3).Ok? ==> Scan(ns, k, 3).value == 100 * a + 10 * b + c
  {
    hide Scan;
    ScanTwo(ns, k, a, b);
    ScanMore(ns, k, 2, c);
  }

  lemma ScanSix(ns: seq<nibble>, k: nat, a: nat, b: nat, c: nat, d: nat, e: nat, f: nat)
    requires k + 6 <= |ns| && ns[k] == a && ns[k + 1] == b && ns[k + 2] == c
    requires ns[k + 3] == d && ns[k + 4] == e && ns[k + 5] == f
    ensures Scan(ns, k, 6).Ok? <==> a <= 9 && b <= 9 && c <= 9 && d <= 9 && e <= 9 && f <= 9
    ensures Scan(ns, k, 6).Ok? ==>
      Scan(ns, k, 6).value == 100000 * a + 10000 * b + 1000 * c + 100 * d + 10 * e + f
  {
    hide Scan;
    ScanThree(ns, k, a, b, c);
    ScanMore(ns, k, 3, d);
    ScanMore(ns, k, 4, e);
    ScanMore(ns, k, 5, f);
  }

  // ---- Field by field ----

  /** The six bytes of hour, minute, second, day, month and year. */
  predicate TimeStands(f: bytes)
    requires |f| >= 6
  {
    && Bcd(f[0]) && Bcd(f[1]) && Bcd(f[2]) && Bcd(f[3]) && Bcd(f[4]) && Bcd(f[5])
    && Number(f[0]) <= 23 && Number(f[1]) <= 59 && Number(f[2]) <= 59
    && 1 <= Number(f[3]) <= 31 && 1 <= Number(f[4]) <= 12
  }

  function TimeOf(f: bytes): DateTime
    requires |f| >= 6
  {
    DateTime(2000 + Number(f[5]), Number(f[4]), Number(f[3]), Number(f[0]), Number(f[1]), Number(f[2]))
  }

  lemma TimeInBytes(frame: bytes, at: nat)
    requires at + 6 <= |frame|
    ensures FlatTime(Nibbles(frame), 2 * at).Ok? <==> TimeStands(frame[at..])
    ensures FlatTime(Nibbles(frame), 2 * at).Ok? ==>
      FlatTime(Nibbles(frame), 2 * at).value == TimeOf(frame[at..])
  {
    hide Scan, Nibbles;
    var ns := Nibbles(frame);
    forall i: nat | i < 6
      ensures Pair(ns, 2 * at, i).Ok? <==> Bcd(frame[at..][i])
      ensures Pair(ns, 2 * at, i).Ok? ==> Pair(ns, 2 * at, i).value == Number(frame[at..][i])
    {
      PairIsByte(frame, at, i);
    }
  }

  lemma PairIsByte(frame: bytes, at: nat, i: nat)
    requires at + i < |frame|
    ensures var pair, b := Pair(Nibbles(frame), 2 * at, i), frame[at..][i];
      (pair.Ok? <==> Bcd(b)) && (pair.Ok? ==> pair.value == Number(b))
  {
    hide Scan, Nibbles;
    ByteNibbles(frame, at + i);
    ScanTwo(Nibbles(frame), 2 * at + 2 * i, frame[at + i] / 16, frame[at + i] % 16);
  }

  /** The high and the low half of a byte. */
  function High(b: nat): nat {
    b / 16
  }

  function Low(b: nat): nat {
    b % 16
  }

  /** Minutes of latitude and longitude, in units of 1/10000. */
  function LatMinutes(f: bytes): nat
    requires |f| >= 10
  {
    10000 * Number(f[1]) + 100 * Number(f[2]) + Number(f[3])
  }

  function LonMinutes(f: bytes): nat
    requires |f| >= 10
  {
    100000 * Low(f[6]) + 1000 * Number(f[7]) + 10 * Number(f[8]) + High(f[9])
  }

  /** Degrees north and degrees east; the third degree digit and the first minute digit share a byte. */
  function Latitude(f: bytes): real
    requires |f| >= 10
  {
    var degrees := (600000 * Number(f[0]) + LatMinutes(f)) as real / 600000.0;
    if Low(f[9]) / 4 % 2 == 1 then degrees else -degrees
  }

  function Longitude(f: bytes): real
    requires |f| >= 10
  {
    var degrees := (600000 * (10 * Number(f[5]) + High(f[6])) + LonMinutes(f)) as real / 600000.0;
    if Low(f[9]) / 8 % 2 == 1 then degrees else -degrees
  }

  /** Ten bytes of digits, except the battery byte and the flags half byte. */
  predicate PlaceStands(f: bytes)
    requires |f| >= 10
  {
    && Bcd(f[0]) && Bcd(f[1]) && Bcd(f[2]) && Bcd(f[3]) && LatMinutes(f) < 600000
    && Bcd(f[5]) && Bcd(f[6]) && Bcd(f[7]) && Bcd(f[8]) && High(f[9]) <= 9 && LonMinutes(f) < 600000
    && -90.0 <= Latitude(f) <= 90.0 && -180.0 <= Longitude(f) <= 180.0
  }

  lemma CoordinateValue(degrees: nat, minutes: nat)
    ensures Angle(degrees, minutes) == (600000 * degrees + minutes) as real / 600000.0
  {
  }

  lemma HalvesInNibbles(frame: bytes, at: nat, i: nat)
    requires at + i < |frame|
    ensures 2 * at + 2 * i + 1 < |Nibbles(frame)|
    ensures Nibbles(frame)[2 * at + 2 * i] == High(frame[at..][i]) && Nibbles(frame)[2 * at + 2 * i + 1] == Low(frame[at..][i])
  {
    ByteNibbles(frame, at + i);
  }

  lemma LatitudeInBytes(frame: bytes, at: nat)
    requires at + 10 <= |frame|
    ensures var f, r := frame[at..], Coordinate(Nibbles(frame), 2 * at, 2);
      && (r.Ok? <==> Bcd(f[0]) && Bcd(f[1]) && Bcd(f[2]) && Bcd(f[3]) && LatMinutes(f) < 600000)
      && (r.Ok? ==> r.value == (600000 * Number(f[0]) + LatMinutes(f)) as real / 600000.0)
  {
    hide Scan, Nibbles, Angle;
    var ns, f := Nibbles(frame), frame[at..];
    HalvesInNibbles(frame, at, 0);
    HalvesInNibbles(frame, at, 1);
    HalvesInNibbles(frame, at, 2);
    HalvesInNibbles(frame, at, 3);
    ScanTwo(ns, 2 * at, High(f[0]), Low(f[0]));
    ScanSix(ns, 2 * at + 2, High(f[1]), Low(f[1]), High(f[2]), Low(f[2]), High(f[3]), Low(f[3]));
    CoordinateValue(Number(f[0]), LatMinutes(f));
  }

  lemma LongitudeInBytes(frame: bytes, at: nat)
    requires at + 10 <= |frame|
    ensures var f, r := frame[at..], Coordinate(Nibbles(frame), 2 * at + 10, 3);
      && (r.Ok? <==> Bcd(f[5]) && Bcd(f[6]) && Bcd(f[7]) && Bcd(f[8]) && High(f[9]) <= 9 && LonMinutes(f) < 600000)
      && (r.Ok? ==> r.value == (600000 * (10 * Number(f[5]) + High(f[6])) + LonMinutes(f)) as real / 600000.0)
  {
    hide Scan, Nibbles, Angle;
    var ns, f := Nibbles(frame), frame[at..];
    HalvesInNibbles(frame, at, 5);
    HalvesInNibbles(frame, at, 6);
    HalvesInNibbles(frame, at, 7);
    HalvesInNibbles(frame, at, 8);
    HalvesInNibbles(frame, at, 9);
    ScanThree(ns, 2 * at + 10, High(f[5]), Low(f[5]), High(f[6]));
    ScanSix(ns, 2 * at + 13, Low(f[6]), High(f[7]), Low(f[7]), High(f[8]), Low(f[8]), High(f[9]));
    CoordinateValue(10 * Number(f[5]) + High(f[6]), LonMinutes(f));
  }

  lemma PlaceInBytes(frame: bytes, at: nat)
    requires at + 10 <= |frame|
    ensures var f, r := frame[at..], FlatPlace(Nibbles(frame), 2 * at);
      && (r.Ok? <==> PlaceStands(f))
      && (r.Ok? ==> r.value.lat == Latitude(f) && r.value.lon == Longitude(f) && r.value.batteryPercent == Charge(f[4]))
      && (r.Ok? ==> (r.value.gpsValid <==> Low(f[9]) / 2 % 2 == 1))
  {
    hide Coordinate, Nibbles, LatMinutes, LonMinutes, BatteryPercent, Charge, Bcd, Number, High, Low, BitSet, PackByte;
    HalvesInNibbles(frame, at, 9);
    LatitudeInBytes(frame, at);
    LongitudeInBytes(frame, at);
    BatteryInBytes(frame, at);
    FlagBits(Low(frame[at..][9]));
  }

  lemma BatteryInBytes(frame: bytes, at: nat)
    requires at + 4 < |frame|
    ensures BatteryPercent(PackByte(Nibbles(frame)[2 * at + 8], Nibbles(frame)[2 * at + 9])) == Charge(frame[at..][4])
  {
    hide BatteryPercent, Charge, Nibbles;
    HalvesInNibbles(frame, at, 4);
    PackHalves(frame[at + 4]);
    ChargeIsBattery(frame[at + 4]);
  }

  lemma FlagBits(flags: nat)
    ensures BitSet(flags, 2) <==> flags / 2 % 2 == 1
    ensures BitSet(flags, 4) <==> flags / 4 % 2 == 1
    ensures BitSet(flags, 8) <==> flags / 8 % 2 == 1
  {
  }

  /** The battery byte: steps of ten from 0 to 20, of twenty from 60 to 100, then percent; 0xF1 to 0xF6 count from one. */
  function Charge(b: nat): Option<int> {
    if b == 1 then Some(0) else if b == 2 then Some(10) else if b == 3 then Some(20)
    else if b == 4 then Some(60) else if b == 5 then Some(80) else if b == 6 then Some(100)
    else if 7 <= b <= 100 then Some(b)
    else if 241 <= b <= 246 then Some(b - 240)
    else None
  }

  lemma ChargeIsBattery(b: byte)
    ensures BatteryPercent(b) == Charge(b)
  {
  }

  lemma NumberInHalves(b: nat)
    ensures Bcd(b) <==> High(b) <= 9 && Low(b) <= 9
    ensures Number(b) == 10 * High(b) + Low(b)
  {
  }

  lemma MotionInBytes(frame: bytes, at: nat)
    requires at + 3 <= |frame|
    ensures var f, r := frame[at..], FlatMotion(Nibbles(frame), 2 * at);
      && (r.Ok? <==> Bcd(f[0]) && High(f[1]) <= 9 && Bcd(f[2]) && 100 * Low(f[1]) + Number(f[2]) <= 360)
      && (r.Ok? ==> r.value.speed == 10 * Number(f[0]) + High(f[1]) && r.value.course == 100 * Low(f[1]) + Number(f[2]))
  {
    hide Scan, Nibbles, Bcd, Number, High, Low;
    var ns, f := Nibbles(frame), frame[at..];
    HalvesInNibbles(frame, at, 0);
    HalvesInNibbles(frame, at, 1);
    HalvesInNibbles(frame, at, 2);
    NumberInHalves(f[0]);
    NumberInHalves(f[2]);
    ScanThree(ns, 2 * at, High(f[0]), Low(f[0]), High(f[1]));
    ScanTwo(ns, 2 * at + 4, High(f[2]), Low(f[2]));
  }

  // ---- The frame ----

  /** Decimal digits, not all zero: five bytes of them, or eight in the 42-byte frame. */
  predicate Identifies(id: bytes) {
    (forall i | 0 <= i < |id| :: Bcd(id[i])) && exists i :: 0 <= i < |id| && id[i] != 0
  }

  lemma IdentifierInBytes(id: bytes)
    requires |id| == 5 || |id| == 8
    ensures ValidIMEI(Hex(id)) <==> Identifies(id)
  {
    hide Trim, Hex, Bcd, IsDigit;
    var s := Hex(id);
    HexHasNoSpaces(id);
    forall i | 0 <= i < |id|
      ensures 2 * i + 1 < |s|
      ensures Bcd(id[i]) <==> IsDigit(s[2 * i]) && IsDigit(s[2 * i + 1])
      ensures id[i] == 0 <==> s[2 * i] == 0x30 && s[2 * i + 1] == 0x30
    {
      DigitsOfByte(id, i);
    }
    if Identifies(id) {
      forall q | 0 <= q < |s| ensures IsDigit(s[q]) {
        assert Bcd(id[q / 2]) && (q == 2 * (q / 2) || q == 2 * (q / 2) + 1);
      }
      var i :| 0 <= i < |id| && id[i] != 0;
      assert s[2 * i] != 0x30 || s[2 * i + 1] != 0x30;
    }
    if ValidIMEI(s) {
      forall i | 0 <= i < |id| ensures Bcd(id[i]) {
        assert IsDigit(s[2 * i]) && IsDigit(s[2 * i + 1]);
      }
      var q :| 0 <= q < |s| && s[q] != 0x30;
      assert id[q / 2] != 0 by {
        assert q == 2 * (q / 2) || q == 2 * (q / 2) + 1;
      }
    }
  }

  lemma DigitsOfByte(id: bytes, i: nat)
    requires i < |id|
    ensures var s := Hex(id);
      && (Bcd(id[i]) <==> IsDigit(s[2 * i]) && IsDigit(s[2 * i + 1]))
      && (id[i] == 0 <==> s[2 * i] == 0x30 && s[2 * i + 1] == 0x30)
  {
    var s := Hex(id);
    assert s[2 * i] == HexDigit(id[i] / 16) && s[2 * i + 1] == HexDigit(id[i] % 16);
  }

  predicate MotionStands(f: bytes)
    requires |f| >= 3
  {
    Bcd(f[0]) && High(f[1]) <= 9 && Bcd(f[2]) && 100 * Low(f[1]) + Number(f[2]) <= 360
  }

  /** A frame is accepted exactly when it is long enough and every field stands. */
  lemma AcceptedIff(frame: bytes)
    ensures var at := if |frame| == 42 then 9 else 6;
      FlatDecode(frame).Ok? <==>
        && |frame| >= 29 && Identifies(frame[1..at])
        && TimeStands(frame[at..]) && PlaceStands(frame[at + 6..]) && MotionStands(frame[at + 16..])
  {
    hide Nibbles, FlatTime, FlatPlace, FlatMotion, ValidIMEI, Hex, Report, GetDword, Identifies, TimeStands, PlaceStands, MotionStands;
    if |frame| >= 29 {
      var at := if |frame| == 42 then 9 else 6;
      IdentifierInBytes(frame[1..at]);
      FieldsInBytes(frame, at);
    }
  }

  lemma FieldsInBytes(frame: bytes, at: nat)
    requires at + 19 <= |frame|
    ensures var ns := Nibbles(frame);
      && (FlatTime(ns, 2 * at).Ok? <==> TimeStands(frame[at..]))
      && (FlatPlace(ns, 2 * at + 12).Ok? <==> PlaceStands(frame[at + 6..]))
      && (FlatMotion(ns, 2 * at + 32).Ok? <==> MotionStands(frame[at + 16..]))
  {
    hide Nibbles, FlatTime, FlatPlace, FlatMotion, TimeStands, PlaceStands;
    TimeInBytes(frame, at);
    PlaceInBytes(frame, at + 6);
    MotionInBytes(frame, at + 16);
  }

  /** What an accepted frame reports, byte by byte: its clock, its place and its motion. */
  lemma AcceptedReads(frame: bytes)
    requires FlatDecode(frame).Ok?
    ensures |frame| >= 29
    ensures var m, f := FlatDecode(frame).value, frame[if |frame| == 42 then 9 else 6..];
      && m.timestamp == DateTime(2000 + Number(f[5]), Number(f[4]), Number(f[3]), Number(f[0]), Number(f[1]), Number(f[2]))
      && (m.lat ==
            var degrees := Number(f[6]) as real + (10000 * Number(f[7]) + 100 * Number(f[8]) + Number(f[9])) as real / 600000.0;
            if f[15] % 16 / 4 % 2 == 1 then degrees else -degrees)
      && (m.lon ==
            var degrees := (10 * Number(f[11]) + f[12] / 16) as real
              + (100000 * (f[12] % 16) + 1000 * Number(f[13]) + 10 * Number(f[14]) + f[15] / 16) as real / 600000.0;
            if f[15] % 16 / 8 % 2 == 1 then degrees else -degrees)
      && (m.gpsValid <==> f[15] % 16 / 2 % 2 == 1)
      && m.batteryPercent == Charge(f[10])
      && m.speedRaw == 10 * Number(f[16]) + f[17] / 16
      && m.speedKmh == m.speedRaw as real * 1.852
      && m.heading == 100 * (f[17] % 16) + Number(f[18])
      && m.trailing == f[23..]
  {
    hide Nibbles, FlatTime, FlatPlace, FlatMotion, ValidIMEI, Hex, GetDword, StatusAlarm, Bcd, Charge, Number, BitSet;
    var at := if |frame| == 42 then 9 else 6;
    TimeInBytes(frame, at);
    PlaceInBytes(frame, at + 6);
    MotionInBytes(frame, at + 16);
    assert frame[at..][23..] == frame[at + 23..];
    PlainDegrees(frame[at + 6..]);
  }

  lemma PlainDegrees(f: bytes)
    requires |f| >= 10
    ensures (600000 * Number(f[0]) + LatMinutes(f)) as real / 600000.0 == Number(f[0]) as real + LatMinutes(f) as real / 600000.0
    ensures (600000 * (10 * Number(f[5]) + High(f[6])) + LonMinutes(f)) as real / 600000.0 ==
      (10 * Number(f[5]) + High(f[6])) as real + LonMinutes(f) as real / 600000.0
  {
  }

  /** The status word: a clear bit is an alarm, the lowest-numbered cause first; bit 10 is the ignition. */
  predicate StatusReads(m: Message, status: nat) {
    && (m.acc <==> status / 1024 % 2 == 1)
    && (m.isAlarm <==> m.alarm != "")
    && m.alarm == (
      if status % 2 == 0 then "VIBRATION"
      else if status / 2 % 2 == 0 || status / 262144 % 2 == 0 then "SOS"
      else if status / 4 % 2 == 0 then "OVERSPEED"
      else if status / 524288 % 2 == 0 then "POWER_LOSS"
      else "")
  }

  lemma AcceptedStatus(frame: bytes)
    requires FlatDecode(frame).Ok?
    ensures var at := if |frame| == 42 then 9 else 6;
      && |frame| >= at + 23
      && StatusReads(FlatDecode(frame).value, FourBytes(frame[at + 19], frame[at + 20], frame[at + 21], frame[at + 22]))
  {
    hide Nibbles, FlatTime, FlatPlace, FlatMotion, ValidIMEI, Hex, GetDword, StatusAlarm;
    var at := if |frame| == 42 then 9 else 6;
    DwordInBytes(frame[at + 19..]);
    StatusBits(GetDword(frame[at + 19..]));
  }

  lemma StatusBits(status: dword)
    ensures StatusAlarm(status) == (
        if status % 2 == 0 then "VIBRATION"
        else if status / 2 % 2 == 0 || status / 262144 % 2 == 0 then "SOS"
        else if status / 4 % 2 == 0 then "OVERSPEED"
        else if status / 524288 % 2 == 0 then "POWER_LOSS"
        else "")
  {
  }

  /** What a written record reads as: plus north and east, minus south and west, by its flags alone. */
  lemma WrittenReads(rec: Record)
    requires Writable(rec)
    ensures FlatDecode(Write(rec)).Ok?
    ensures var m, p := FlatDecode(Write(rec)).value, rec.place;
      var lat := (600000 * p.latDegrees + p.latMinutes) as real / 600000.0;
      var lon := (600000 * p.lonDegrees + p.lonMinutes) as real / 600000.0;
      && m.lat == (if p.flags / 4 % 2 == 1 then lat else -lat)
      && m.lon == (if p.flags / 8 % 2 == 1 then lon else -lon)
      && (m.gpsValid <==> p.flags / 2 % 2 == 1)
      && m.imei == rec.id && m.timestamp == rec.time
      && m.speedRaw == rec.motion.speed && m.heading == rec.motion.course && m.trailing == rec.trailing
  {
    hide Write, Writable, FlatDecode, Angle, BatteryPercent, StatusAlarm;
    RoundTrip(rec);
    CoordinateValue(rec.place.latDegrees, rec.place.latMinutes);
    CoordinateValue(rec.place.lonDegrees, rec.place.lonMinutes);
  }

  /** Which records can be written, without the words of the decoder. */
  lemma WritableIff(rec: Record)
    ensures var p, t := rec.place, rec.time;
      var lat := (600000 * p.latDegrees + p.latMinutes) as real / 600000.0;
      var lon := (600000 * p.lonDegrees + p.lonMinutes) as real / 600000.0;
      Writable(rec) <==>
        && (forall i | 0 <= i < |rec.id| :: 0x30 <= rec.id[i] <= 0x39) && (exists i :: 0 <= i < |rec.id| && rec.id[i] != 0x30)
        && ((|rec.id| == 10 && |rec.trailing| != 13) || (|rec.id| == 16 && |rec.trailing| == 10))
        && 2000 <= t.year <= 2099 && 1 <= t.month <= 12 && 1 <= t.day <= 31
        && 0 <= t.hour <= 23 && 0 <= t.minute <= 59 && 0 <= t.second <= 59
        && p.latDegrees < 100 && p.latMinutes < 600000 && p.lonDegrees < 1000 && p.lonMinutes < 600000
        && lat <= 90.0 && lon <= 180.0
        && rec.motion.speed < 1000 && rec.motion.course <= 360
  {
    hide Trim, Angle;
    var p := rec.place;
    CoordinateValue(p.latDegrees, p.latMinutes);
    CoordinateValue(p.lonDegrees, p.lonMinutes);
    if AllDigits(rec.id) {
      DigitsStayTrimmed(rec.id);
    }
  }

  lemma DigitsStayTrimmed(s: bytes)
    requires AllDigits(s)
    ensures Trim(s) == s
  {
    hide Trim;
    TrimNothing(s);
  }
}
