/**
  The H02 binary frame (h02/binary.go): a cursor over BCD bytes in which odd-length fields split a
  byte with the field after them, refined to a flat string of nibbles.
 */
module H02Binary {
  import opened Bytes
  import opened Wrappers
  import opened Text
  import opened Tracker

  datatype Fault =
    | EndOfFrame | BadNibble | TooShort | BadIdentifier | BadTime | MinutesRange | OutsideGlobe | CourseRange

  const MIN_BINARY_PAYLOAD := 29
  const ID_SHORT := 5
  const ID_LONG := 8

  // ---- Numbers in a string of nibbles ----

  function NextDigit(v: nat, digit: nibble): Result<nat, Fault> {
    if digit > 9 then Err(BadNibble) else Ok(10 * v + digit)
  }

  /** The number written in `n` nibbles from nibble `k` on. */
  function Scan(ns: seq<nibble>, k: nat, n: nat): Result<nat, Fault> {
    if n == 0 then Ok(0)
    else
      var v :- Scan(ns, k, n - 1);
      if k + n > |ns| then Err(EndOfFrame) else NextDigit(v, ns[k + n - 1])
  }

  lemma ScanEmpty(ns: seq<nibble>, k: nat)
    ensures Scan(ns, k, 0) == Ok(0)
  {
  }

  lemma ScanStep(ns: seq<nibble>, k: nat, n: nat, v: nat, digit: nibble)
    requires n > 0 && Scan(ns, k, n - 1) == Ok(v) && k + n <= |ns| && ns[k + n - 1] == digit
    ensures Scan(ns, k, n) == NextDigit(v, digit)
  {
  }

  lemma {:induction false} ScanFailsOn(ns: seq<nibble>, k: nat, n: nat, m: nat)
    requires n <= m && Scan(ns, k, n).Err?
    ensures Scan(ns, k, m) == Scan(ns, k, n)
  {
    if n < m {
      ScanFailsOn(ns, k, n, m - 1);
    }
  }

  lemma ScanEnds(ns: seq<nibble>, k: nat, n: nat, m: nat)
    requires n < m && Scan(ns, k, n).Ok? && k + n >= |ns|
    ensures Scan(ns, k, m) == Err(EndOfFrame)
  {
    ScanFailsOn(ns, k, n + 1, m);
  }

  /** A whole byte adds two digits, or stops the scan at once. */
  lemma ScanByte(ns: seq<nibble>, k: nat, n: nat, m: nat, v: nat, high: nibble, low: nibble)
    requires n + 2 <= m && Scan(ns, k, n) == Ok(v) && k + n + 2 <= |ns| && ns[k + n] == high && ns[k + n + 1] == low
    ensures high > 9 || low > 9 ==> Scan(ns, k, m) == Err(BadNibble)
    ensures high <= 9 && low <= 9 ==> Scan(ns, k, n + 2) == Ok((v * 10 + high) * 10 + low)
  {
    hide Scan;
    ScanStep(ns, k, n + 1, v, high);
    if high > 9 {
      ScanFailsOn(ns, k, n + 1, m);
    } else {
      ScanStep(ns, k, n + 2, 10 * v + high, low);
      if low > 9 {
        ScanFailsOn(ns, k, n + 2, m);
      }
    }
  }

  /** A scan is its first digit followed by the scan of the rest. */
  lemma {:induction false} ScanFromFirst(ns: seq<nibble>, k: nat, first: nat, n: nat)
    requires Scan(ns, k, 1) == Ok(first)
    ensures var rest := Scan(ns, k + 1, n);
      Scan(ns, k, 1 + n) == if rest.Ok? then Ok(first * Pow10(n) + rest.value) else rest
  {
    if n == 0 {
      ScanEmpty(ns, k + 1);
    } else {
      ScanFromFirst(ns, k, first, n - 1);
      assert first * Pow10(n) == 10 * (first * Pow10(n - 1));
    }
  }

  lemma ByteNibbles(data: bytes, p: nat)
    requires p < |data|
    ensures Nibbles(data)[2 * p] == data[p] / 16 && Nibbles(data)[2 * p + 1] == data[p] % 16
  {
  }

  /** Degrees in `width` digits, then minutes in six digits, in units of 1/10000 minute. */
  function Coordinate(ns: seq<nibble>, k: nat, width: nat): Result<real, Fault> {
    var degrees :- Scan(ns, k, width);
    var minutes :- Scan(ns, k + width, 6);
    if minutes >= 600000 then Err(MinutesRange) else Ok(Angle(degrees, minutes))
  }

  function Angle(degrees: nat, minutes: nat): real {
    degrees as real + minutes as real / 10000.0 / 60.0
  }

  // ---- The cursor ----

  class Cursor {
    const data: bytes
    var pos: nat

    ghost predicate Valid()
      reads this
    {
      pos <= |data|
    }

    constructor (data: bytes)
      ensures this.data == data && pos == 0
    {
      this.data := data;
      pos := 0;
    }

    method ReadByte() returns (r: Result<byte, Fault>)
      requires Valid()
      modifies `pos
      ensures Valid()
      ensures r == (if old(pos) < |data| then Ok(data[old(pos)]) else Err(EndOfFrame))
      ensures pos == if r.Ok? then old(pos) + 1 else old(pos)
    {
      if pos >= |data| {
        return Err(EndOfFrame);
      }
      var b := data[pos];
      pos := pos + 1;
      return Ok(b);
    }

    method PeekByte() returns (r: Result<byte, Fault>)
      requires Valid()
      ensures r == if pos < |data| then Ok(data[pos]) else Err(EndOfFrame)
    {
      if pos >= |data| {
        return Err(EndOfFrame);
      }
      return Ok(data[pos]);
    }

    /** An odd last digit is the high half of a byte that is left for the next field. */
    method ReadBCD(digits: nat) returns (r: Result<nat, Fault>)
      requires Valid()
      modifies `pos
      ensures Valid() && old(pos) <= pos
      ensures r == Scan(Nibbles(data), 2 * old(pos), digits)
      ensures r.Ok? ==> pos == old(pos) + digits / 2
    {
      hide Scan, Nibble;
      ghost var ns := Nibbles(data);
      ghost var k := 2 * pos;
      var result: nat := 0;
      ScanEmpty(ns, k);
      for i := 0 to digits / 2
        invariant Valid() && pos == old(pos) + i
        invariant Scan(ns, k, 2 * i) == Ok(result)
      {
        var b := ReadByte();
        if b.Err? {
          ScanEnds(ns, k, 2 * i, digits);
          return Err(b.error);
        }
        var high: nat, low: nat := b.value / 16, b.value % 16;
        ByteNibbles(data, pos - 1);
        ScanByte(ns, k, 2 * i, digits, result, high, low);
        if high > 9 || low > 9 {
          return Err(BadNibble);
        }
        result := result * 10 + high;
        result := result * 10 + low;
      }
      if digits % 2 != 0 {
        var b := PeekByte();
        if b.Err? {
          ScanEnds(ns, k, digits - 1, digits);
          return Err(b.error);
        }
        var high: nat := b.value / 16;
        ByteNibbles(data, pos);
        ScanStep(ns, k, digits, result, high);
        if high > 9 {
          return Err(BadNibble);
        }
        result := result * 10 + high;
      }
      return Ok(result);
    }

    method ReadUint32() returns (r: Result<dword, Fault>)
      requires Valid()
      modifies `pos
      ensures Valid()
      ensures r == (if old(pos) + 4 <= |data| then Ok(GetDword(data[old(pos)..])) else Err(EndOfFrame))
      ensures pos == if r.Ok? then old(pos) + 4 else old(pos)
    {
      hide GetDword;
      if |data| - pos < 4 {
        return Err(EndOfFrame);
      }
      var value := GetDword(data[pos..]);
      pos := pos + 4;
      return Ok(value);
    }

    /** readCoordinate: a longitude's third degree digit shares its byte with the first minute digit. */
    method ReadCoordinate(isLongitude: bool) returns (r: Result<real, Fault>)
      requires Valid()
      modifies `pos
      ensures Valid() && old(pos) <= pos
      ensures r == Coordinate(Nibbles(data), 2 * old(pos), if isLongitude then 3 else 2)
      ensures r.Ok? ==> pos == old(pos) + 4
    {
      hide Scan, Nibble, NextDigit, Nibbles;
      ghost var ns := Nibbles(data);
      ghost var k := 2 * pos;
      var whole := ReadBCD(2);
      if whole.Err? {
        ScanFailsOn(ns, k, 2, if isLongitude then 3 else 2);
        return Err(whole.error);
      }
      var degrees: nat := whole.value;
      var first: nat := 0;
      if isLongitude {
        var next := PeekByte();
        if next.Err? {
          ScanEnds(ns, k, 2, 3);
          return Err(next.error);
        }
        ByteNibbles(data, pos);
        ThirdDegreeDigit(ns, k, degrees, next.value / 16);
        if next.value / 16 > 9 {
          return Err(BadNibble);
        }
        degrees := degrees * 10 + next.value / 16;
        var b := ReadByte();
        FirstMinuteDigit(ns, k + 3, b.value % 16);
        if b.value % 16 > 9 {
          return Err(BadNibble);
        }
        first := b.value % 16;
      }
      var fraction := ReadBCD(if isLongitude then 5 else 6);
      if isLongitude {
        RestOfMinutes(ns, k + 3, first);
      }
      if fraction.Err? {
        return Err(fraction.error);
      }
      var minutes := (first * 10) as real + fraction.value as real / 10000.0;
      if minutes >= 60.0 {
        return Err(MinutesRange);
      }
      return Ok(degrees as real + minutes / 60.0);
    }
  }

  lemma ThirdDegreeDigit(ns: seq<nibble>, k: nat, degrees: nat, digit: nibble)
    requires Scan(ns, k, 2) == Ok(degrees) && k + 2 < |ns| && ns[k + 2] == digit
    ensures Scan(ns, k, 3) == if digit > 9 then Err(BadNibble) else Ok(degrees * 10 + digit)
  {
    hide Scan;
    ScanStep(ns, k, 3, degrees, digit);
  }

  lemma FirstMinuteDigit(ns: seq<nibble>, k: nat, digit: nibble)
    requires k < |ns| && ns[k] == digit
    ensures digit <= 9 ==> Scan(ns, k, 1) == Ok(digit as nat)
    ensures digit > 9 ==> Scan(ns, k, 6) == Err(BadNibble)
  {
    hide Scan;
    ScanEmpty(ns, k);
    ScanStep(ns, k, 1, 0, digit);
    if digit > 9 {
      ScanFailsOn(ns, k, 1, 6);
    }
  }

  lemma RestOfMinutes(ns: seq<nibble>, k: nat, first: nat)
    requires Scan(ns, k, 1) == Ok(first)
    ensures var rest := Scan(ns, k + 1, 5);
      Scan(ns, k, 6) == if rest.Ok? then Ok(first * 100000 + rest.value) else rest
  {
    hide Scan;
    ScanFromFirst(ns, k, first, 5);
    assert Pow10(5) == 100000 by {
      assert Pow10(2) == 100 && Pow10(3) == 1000 && Pow10(4) == 10000;
    }
  }

  // ---- Fields ----

  function BatteryPercent(value: byte): Option<int> {
    if value == 0 then None
    else if value <= 3 then Some((value as int - 1) * 10)
    else if value <= 6 then Some((value as int - 1) * 20)
    else if value <= 100 then Some(value)
    else if 0xF1 <= value <= 0xF6 then Some(value as int - 0xF0)
    else None
  }

  const VIBRATION := 0x1
  const SOS := 0x2
  const OVERSPEED := 0x4
  const IGNITION := 0x400
  const SOS_ALT := 0x4_0000
  const POWER_CUT := 0x8_0000

  /** The logic is inverted: a clear bit is an alarm, the first in this order. */
  function StatusAlarm(status: dword): string {
    if !BitSet(status, VIBRATION) then "VIBRATION"
    else if !BitSet(status, SOS) || !BitSet(status, SOS_ALT) then "SOS"
    else if !BitSet(status, OVERSPEED) then "OVERSPEED"
    else if !BitSet(status, POWER_CUT) then "POWER_LOSS"
    else ""
  }

  datatype Message = Message(
    imei: bytes, timestamp: DateTime, batteryPercent: Option<int>, gpsValid: bool, lat: real, lon: real,
    speedRaw: nat, speedKmh: real, heading: nat, alarm: string, acc: bool, isAlarm: bool, trailing: bytes)

  function Signed(positive: bool, x: real): real {
    if positive then x else -x
  }

  predicate Plausible(hour: int, minute: int, second: int, day: int, month: int) {
    hour <= 23 && minute <= 59 && second <= 59 && 1 <= day <= 31 && 1 <= month <= 12
  }

  // ---- The frame as a flat string of nibbles ----

  /** The `i`-th two-digit number from nibble `k` on. */
  function Pair(ns: seq<nibble>, k: nat, i: nat): Result<nat, Fault> {
    Scan(ns, k + 2 * i, 2)
  }

  function FlatTime(ns: seq<nibble>, k: nat): Result<DateTime, Fault> {
    var hour :- Pair(ns, k, 0);
    var minute :- Pair(ns, k, 1);
    var second :- Pair(ns, k, 2);
    var day :- Pair(ns, k, 3);
    var month :- Pair(ns, k, 4);
    var year :- Pair(ns, k, 5);
    if !Plausible(hour, minute, second, day, month) then Err(BadTime)
    else Ok(DateTime(2000 + year, month, day, hour, minute, second))
  }

  function IdLength(frame: bytes): (n: nat)
    ensures n == ID_SHORT || n == ID_LONG
  {
    if |frame| == 42 then ID_LONG else ID_SHORT
  }

  /** Where the fields after the identifier start. */
  function FieldsAt(frame: bytes): nat {
    1 + IdLength(frame)
  }

  datatype Place = Place(lat: real, lon: real, gpsValid: bool, batteryPercent: Option<int>)

  /** Latitude, the battery byte, longitude and the flags nibble. */
  function FlatPlace(ns: seq<nibble>, k: nat): Result<Place, Fault>
    requires k + 20 <= |ns|
  {
    var latitude :- Coordinate(ns, k, 2);
    var longitude :- Coordinate(ns, k + 10, 3);
    var flags := ns[k + 19];
    var lat, lon := Signed(BitSet(flags, 4), latitude), Signed(BitSet(flags, 8), longitude);
    if !ValidCoordinates(lat, lon) then Err(OutsideGlobe)
    else Ok(Place(lat, lon, BitSet(flags, 2), BatteryPercent(PackByte(ns[k + 8], ns[k + 9]))))
  }

  datatype Motion = Motion(speed: nat, course: nat)

  /** Speed, then the course, whose hundreds nibble is not checked to be a digit. */
  function FlatMotion(ns: seq<nibble>, k: nat): Result<Motion, Fault>
    requires k + 6 <= |ns|
  {
    var speed :- Scan(ns, k, 3);
    var courseLow :- Scan(ns, k + 4, 2);
    var course := 100 * ns[k + 3] + courseLow;
    if course > 360 then Err(CourseRange) else Ok(Motion(speed, course))
  }

  datatype Body = Body(time: DateTime, place: Place, motion: Motion)

  /** The nineteen bytes between the identifier and the status word. */
  function FlatBody(ns: seq<nibble>, k: nat): (r: Result<Body, Fault>)
    requires k + 38 <= |ns|
    ensures r.Ok? ==> FlatTime(ns, k).Ok? && FlatPlace(ns, k + 12).Ok? && FlatMotion(ns, k + 32).Ok?
  {
    var time :- FlatTime(ns, k);
    var place :- FlatPlace(ns, k + 12);
    var motion :- FlatMotion(ns, k + 32);
    Ok(Body(time, place, motion))
  }

  function KnotsToKmh(knots: nat): real {
    knots as real * 1.852
  }

  /** decodeBinary as a reading of nibbles at fixed offsets. */
  function FlatDecode(frame: bytes): Result<Message, Fault> {
    if |frame| < MIN_BINARY_PAYLOAD then Err(TooShort)
    else
      var ns, at, imei := Nibbles(frame), FieldsAt(frame), Hex(frame[1..FieldsAt(frame)]);
      if !ValidIMEI(imei) then Err(BadIdentifier)
      else
        var body :- FlatBody(ns, 2 * at);
        Ok(Report(imei, body, GetDword(frame[at + 19..]), frame[at + 23..]))
  }

  function Report(imei: bytes, body: Body, status: dword, trailing: bytes): Message {
    Message(imei, body.time, body.place.batteryPercent, body.place.gpsValid, body.place.lat, body.place.lon,
            body.motion.speed, KnotsToKmh(body.motion.speed), body.motion.course,
            StatusAlarm(status), BitSet(status, IGNITION), StatusAlarm(status) != "", trailing)
  }

  lemma FieldRead(ns: seq<nibble>, k: nat, i: nat)
    ensures Scan(ns, k + 2 * i, 2) == Pair(ns, k, i)
  {
  }

  /** readBinaryTime: six two-digit fields into an array. */
  method ReadBinaryTime(c: Cursor) returns (r: Result<DateTime, Fault>)
    requires c.Valid()
    modifies c`pos
    ensures c.Valid() && old(c.pos) <= c.pos
    ensures r == FlatTime(Nibbles(c.data), 2 * old(c.pos))
    ensures r.Ok? ==> c.pos == old(c.pos) + 6
  {
    hide Scan, Pair, Nibbles;
    ghost var ns := Nibbles(c.data);
    ghost var k := 2 * c.pos;
    var fields := new nat[6](i => 0);
    for i := 0 to 6
      invariant c.Valid() && c.pos == old(c.pos) + i
      invariant forall j | 0 <= j < i :: Pair(ns, k, j) == Ok(fields[j])
    {
      FieldRead(ns, k, i);
      var value :- c.ReadBCD(2);
      fields[i] := value;
    }
    var hour, minute, second, day, month, year := fields[0], fields[1], fields[2], fields[3], fields[4], fields[5];
    if hour > 23 || minute > 59 || second > 59 || day < 1 || day > 31 || month < 1 || month > 12 {
      return Err(BadTime);
    }
    return Ok(DateTime(2000 + year, month, day, hour, minute, second));
  }

  /** No read of a whole byte can fail from here on: the frame is long enough. */
  method ReadPlace(c: Cursor) returns (r: Result<Place, Fault>)
    requires c.Valid() && c.pos + 10 <= |c.data|
    modifies c`pos
    ensures c.Valid() && old(c.pos) <= c.pos
    ensures r == FlatPlace(Nibbles(c.data), 2 * old(c.pos))
    ensures r.Ok? ==> c.pos == old(c.pos) + 10
  {
    hide Coordinate, Nibbles, BatteryPercent, BitSet, Scan;
    var latitude :- c.ReadCoordinate(false);
    ByteNibbles(c.data, c.pos);
    PackHalves(c.data[c.pos]);
    var batteryByte := c.ReadByte();
    var battery := BatteryPercent(batteryByte.value);
    var longitude :- c.ReadCoordinate(true);
    ByteNibbles(c.data, c.pos);
    var flagsByte := c.ReadByte();
    var flags: nibble := flagsByte.value % 16;
    var gpsValid := BitSet(flags, 2);
    if !BitSet(flags, 4) {
      latitude := -latitude;
    }
    if !BitSet(flags, 8) {
      longitude := -longitude;
    }
    if !ValidCoordinates(latitude, longitude) {
      return Err(OutsideGlobe);
    }
    return Ok(Place(latitude, longitude, gpsValid, battery));
  }

  lemma PackHalves(b: byte)
    ensures PackByte(b / 16, b % 16) == b
  {
  }

  method ReadMotion(c: Cursor) returns (r: Result<Motion, Fault>)
    requires c.Valid() && c.pos + 3 <= |c.data|
    modifies c`pos
    ensures c.Valid() && old(c.pos) <= c.pos
    ensures r == FlatMotion(Nibbles(c.data), 2 * old(c.pos))
    ensures r.Ok? ==> c.pos == old(c.pos) + 3
  {
    hide Nibbles, Scan;
    var speed: nat :- c.ReadBCD(3);
    ByteNibbles(c.data, c.pos);
    var courseHigh := c.ReadByte();
    var courseLow: nat :- c.ReadBCD(2);
    var course: nat := courseHigh.value % 16 * 100 + courseLow;
    if course > 360 {
      return Err(CourseRange);
    }
    return Ok(Motion(speed, course));
  }

  /** decodeBinary: the cursor walks the frame exactly as far as the flat layout says. */
  method DecodeBinary(frame: bytes) returns (r: Result<Message, Fault>)
    ensures r == FlatDecode(frame)
  {
    hide Nibbles, FlatPlace, FlatMotion, FlatTime, GetDword, Hex, ValidIMEI, StatusAlarm, BitSet;
    if |frame| < MIN_BINARY_PAYLOAD {
      return Err(TooShort);
    }
    var c := new Cursor(frame);
    var marker := c.ReadByte();
    var idLength := if |frame| == 42 then ID_LONG else ID_SHORT;
    var imei := Hex(frame[c.pos..c.pos + idLength]);
    c.pos := c.pos + idLength;
    if !ValidIMEI(imei) {
      return Err(BadIdentifier);
    }
    var timestamp :- ReadBinaryTime(c);
    var place :- ReadPlace(c);
    var motion :- ReadMotion(c);
    var status := c.ReadUint32();
    return Ok(Report(imei, Body(timestamp, place, motion), status.value, frame[c.pos..]));
  }

  // ---- Writing a frame, nibble by nibble ----

  /** A number in `n` decimal digits. */
  function Digits(v: nat, n: nat): (ns: seq<nibble>)
    ensures |ns| == n
  {
    if n == 0 then [] else Digits(v / 10, n - 1) + [v % 10]
  }

  function TimeNibbles(t: DateTime): (ns: seq<nibble>)
    requires WritableTime(t)
    ensures |ns| == 12
  {
    Digits(t.hour, 2) + Digits(t.minute, 2) + Digits(t.second, 2)
    + Digits(t.day, 2) + Digits(t.month, 2) + Digits(t.year - 2000, 2)
  }

  predicate WritableTime(t: DateTime) {
    && 0 <= t.hour && 0 <= t.minute && 0 <= t.second && Plausible(t.hour, t.minute, t.second, t.day, t.month)
    && 2000 <= t.year <= 2099
  }

  /** Coordinates as they stand in a frame: whole degrees, and minutes in units of 1/10000. */
  datatype PlaceFields = PlaceFields(
    latDegrees: nat, latMinutes: nat, battery: byte, lonDegrees: nat, lonMinutes: nat, flags: nibble)

  function PlaceNibbles(p: PlaceFields): (ns: seq<nibble>)
    ensures |ns| == 20
  {
    Digits(p.latDegrees, 2) + Digits(p.latMinutes, 6) + [p.battery / 16, p.battery % 16]
    + Digits(p.lonDegrees, 3) + Digits(p.lonMinutes, 6) + [p.flags]
  }

  function PlaceOf(p: PlaceFields): Place {
    Place(Signed(BitSet(p.flags, 4), Angle(p.latDegrees, p.latMinutes)),
          Signed(BitSet(p.flags, 8), Angle(p.lonDegrees, p.lonMinutes)),
          BitSet(p.flags, 2), BatteryPercent(p.battery))
  }

  predicate WritablePlace(p: PlaceFields) {
    && p.latDegrees < 100 && p.latMinutes < 600000 && p.lonDegrees < 1000 && p.lonMinutes < 600000
    && ValidCoordinates(PlaceOf(p).lat, PlaceOf(p).lon)
  }

  function MotionNibbles(m: Motion): (ns: seq<nibble>)
    requires WritableMotion(m)
    ensures |ns| == 6
  {
    Digits(m.speed, 3) + [m.course / 100] + Digits(m.course % 100, 2)
  }

  predicate WritableMotion(m: Motion) {
    m.speed < 1000 && m.course <= 360
  }

  datatype Record = Record(
    marker: byte, id: bytes, time: DateTime, place: PlaceFields, motion: Motion, status: dword, trailing: bytes)

  /** The 16-digit identifier goes with exactly the 42-byte frame. */
  predicate Writable(rec: Record) {
    && AllDigits(rec.id) && ValidIMEI(rec.id)
    && ((|rec.id| == 2 * ID_SHORT && |rec.trailing| != 13) || (|rec.id| == 2 * ID_LONG && |rec.trailing| == 10))
    && WritableTime(rec.time) && WritablePlace(rec.place) && WritableMotion(rec.motion)
  }

  function BodyNibbles(rec: Record): (ns: seq<nibble>)
    requires Writable(rec)
    ensures |ns| == 38
  {
    TimeNibbles(rec.time) + PlaceNibbles(rec.place) + MotionNibbles(rec.motion)
  }

  function Write(rec: Record): bytes
    requires Writable(rec)
  {
    hide ValidIMEI, WritableTime, WritablePlace, WritableMotion;
    [rec.marker] + PackDigits(rec.id) + Pack(BodyNibbles(rec)) + PutDword(rec.status) + rec.trailing
  }

  function Meaning(rec: Record): Message {
    Report(rec.id, Body(rec.time, PlaceOf(rec.place), rec.motion), rec.status, rec.trailing)
  }

  // ---- Reading is the inverse of writing ----

  /** A scan yields a number exactly when the nibbles are its digits. */
  lemma {:induction false} ScanIff(ns: seq<nibble>, k: nat, n: nat, v: nat)
    requires k + n <= |ns|
    ensures Scan(ns, k, n) == Ok(v) <==> v < Pow10(n) && ns[k..k + n] == Digits(v, n)
  {
    if n > 0 {
      var front, all := ns[k..k + n - 1], ns[k..k + n];
      assert all == front + [ns[k + n - 1]];
      ScanIff(ns, k, n - 1, v / 10);
      if Scan(ns, k, n - 1).Ok? {
        ScanIff(ns, k, n - 1, Scan(ns, k, n - 1).value);
      }
      assert all == Digits(v, n) ==> front == Digits(v / 10, n - 1) && ns[k + n - 1] == v % 10 by {
        assert Digits(v, n)[..n - 1] == Digits(v / 10, n - 1) && all[..n - 1] == front;
      }
    }
  }

  lemma Powers()
    ensures Pow10(2) == 100 && Pow10(3) == 1000 && Pow10(6) == 1000000
  {
    assert Pow10(4) == 10000 && Pow10(5) == 100000;
  }

  lemma Slice(ns: seq<nibble>, k: nat, m: nat, i: nat, j: nat)
    requires i <= j && k + j <= m <= |ns|
    ensures ns[k..m][i..j] == ns[k + i..k + j]
  {
    assert forall q | 0 <= q < j - i :: ns[k..m][i..j][q] == ns[k + i + q];
  }

  lemma PairIff(ns: seq<nibble>, k: nat, i: nat, v: nat)
    requires k + 12 <= |ns| && i < 6
    ensures Pair(ns, k, i) == Ok(v) <==> v < 100 && ns[k..k + 12][2 * i..2 * i + 2] == Digits(v, 2)
  {
    hide Scan, Digits, Pow10;
    ScanIff(ns, k + 2 * i, 2, v);
    Powers();
    Slice(ns, k, k + 12, 2 * i, 2 * i + 2);
  }

  /** A time is read exactly from its own twelve digits. */
  lemma TimeIff(ns: seq<nibble>, k: nat, t: DateTime)
    requires k + 12 <= |ns|
    ensures FlatTime(ns, k) == Ok(t) <==> WritableTime(t) && ns[k..k + 12] == TimeNibbles(t)
  {
    hide Pair, Digits;
    if WritableTime(t) {
      SixPairs(ns[k..k + 12], Digits(t.hour, 2), Digits(t.minute, 2), Digits(t.second, 2),
               Digits(t.day, 2), Digits(t.month, 2), Digits(t.year - 2000, 2));
      PairIff(ns, k, 0, t.hour);
      PairIff(ns, k, 1, t.minute);
      PairIff(ns, k, 2, t.second);
      PairIff(ns, k, 3, t.day);
      PairIff(ns, k, 4, t.month);
      PairIff(ns, k, 5, t.year - 2000);
    } else if FlatTime(ns, k).Ok? {
      PairIff(ns, k, 5, Pair(ns, k, 5).value);
    }
  }

  lemma SixPairs(s: seq<nibble>, a: seq<nibble>, b: seq<nibble>, c: seq<nibble>, d: seq<nibble>, e: seq<nibble>, f: seq<nibble>)
    requires |s| == 12 && |a| == |b| == |c| == |d| == |e| == |f| == 2
    ensures s == a + b + c + d + e + f <==>
      s[0..2] == a && s[2..4] == b && s[4..6] == c && s[6..8] == d && s[8..10] == e && s[10..12] == f
  {
    var t := a + b + c + d + e + f;
    assert t[0..2] == a && t[2..4] == b && t[4..6] == c && t[6..8] == d && t[8..10] == e && t[10..12] == f;
    assert s == s[0..2] + s[2..4] + s[4..6] + s[6..8] + s[8..10] + s[10..12];
  }

  lemma CoordinateIff(ns: seq<nibble>, k: nat, width: nat, degrees: nat, minutes: nat)
    requires k + width + 6 <= |ns|
    ensures Scan(ns, k, width) == Ok(degrees) && Scan(ns, k + width, 6) == Ok(minutes) && minutes < 600000 <==>
      && degrees < Pow10(width) && minutes < 600000
      && ns[k..k + width] == Digits(degrees, width) && ns[k + width..k + width + 6] == Digits(minutes, 6)
  {
    hide Scan, Digits, Pow10;
    ScanIff(ns, k, width, degrees);
    ScanIff(ns, k + width, 6, minutes);
    Powers();
  }

  lemma SixPieces(s: seq<nibble>, a: seq<nibble>, b: seq<nibble>, c: seq<nibble>, d: seq<nibble>, e: seq<nibble>, f: nibble)
    requires |s| == 20 && |a| == 2 && |b| == 6 && |c| == 2 && |d| == 3 && |e| == 6
    ensures s == a + b + c + d + e + [f] <==>
      s[0..2] == a && s[2..8] == b && s[8..10] == c && s[10..13] == d && s[13..19] == e && s[19] == f
  {
    var t := a + b + c + d + e + [f];
    assert t[0..2] == a && t[2..8] == b && t[8..10] == c && t[10..13] == d && t[13..19] == e && t[19] == f;
    assert s == s[0..2] + s[2..8] + s[8..10] + s[10..13] + s[13..19] + [s[19]];
  }

  /** The fields of a place stand in these twenty nibbles. */
  predicate PlaceAt(ns: seq<nibble>, k: nat, p: PlaceFields)
    requires k + 20 <= |ns|
  {
    && Scan(ns, k, 2) == Ok(p.latDegrees) && Scan(ns, k + 2, 6) == Ok(p.latMinutes) && p.latMinutes < 600000
    && PackByte(ns[k + 8], ns[k + 9]) == p.battery
    && Scan(ns, k + 10, 3) == Ok(p.lonDegrees) && Scan(ns, k + 13, 6) == Ok(p.lonMinutes) && p.lonMinutes < 600000
    && ns[k + 19] == p.flags
  }

  lemma PlaceAtIff(ns: seq<nibble>, k: nat, p: PlaceFields)
    requires k + 20 <= |ns|
    ensures PlaceAt(ns, k, p) <==>
      && p.latDegrees < 100 && p.latMinutes < 600000 && p.lonDegrees < 1000 && p.lonMinutes < 600000
      && ns[k..k + 20] == PlaceNibbles(p)
  {
    hide Scan, Digits, Pow10;
    var s := ns[k..k + 20];
    CoordinateIff(ns, k, 2, p.latDegrees, p.latMinutes);
    CoordinateIff(ns, k + 10, 3, p.lonDegrees, p.lonMinutes);
    Powers();
    SixPieces(s, Digits(p.latDegrees, 2), Digits(p.latMinutes, 6), [p.battery / 16, p.battery % 16],
              Digits(p.lonDegrees, 3), Digits(p.lonMinutes, 6), p.flags);
    Slice(ns, k, k + 20, 0, 2);
    Slice(ns, k, k + 20, 2, 8);
    Slice(ns, k, k + 20, 10, 13);
    Slice(ns, k, k + 20, 13, 19);
    assert s[8..10] == [ns[k + 8], ns[k + 9]];
    PackHalves(p.battery);
  }

  /** A written place reads as what it stands for. */
  lemma PlaceWritten(ns: seq<nibble>, k: nat, p: PlaceFields)
    requires k + 20 <= |ns| && WritablePlace(p) && ns[k..k + 20] == PlaceNibbles(p)
    ensures FlatPlace(ns, k) == Ok(PlaceOf(p))
  {
    hide Scan, PlaceNibbles, Angle, ValidCoordinates, Signed, BitSet, BatteryPercent;
    PlaceAtIff(ns, k, p);
  }

  function PlaceFieldsAt(ns: seq<nibble>, k: nat): PlaceFields
    requires k + 20 <= |ns| && FlatPlace(ns, k).Ok?
  {
    PlaceFields(Scan(ns, k, 2).value, Scan(ns, k + 2, 6).value, PackByte(ns[k + 8], ns[k + 9]),
                Scan(ns, k + 10, 3).value, Scan(ns, k + 13, 6).value, ns[k + 19])
  }

  /** Every accepted place is the writing of its own fields. */
  lemma PlaceRead(ns: seq<nibble>, k: nat)
    requires k + 20 <= |ns| && FlatPlace(ns, k).Ok?
    ensures var p := PlaceFieldsAt(ns, k);
      WritablePlace(p) && ns[k..k + 20] == PlaceNibbles(p) && FlatPlace(ns, k) == Ok(PlaceOf(p))
  {
    hide Scan, PlaceNibbles, Angle, ValidCoordinates, Signed, BitSet, BatteryPercent;
    PlaceAtIff(ns, k, PlaceFieldsAt(ns, k));
  }

  /** Speed and course are read exactly from their own six nibbles; the hundreds of the course are at most 3. */
  lemma MotionIff(ns: seq<nibble>, k: nat, m: Motion)
    requires k + 6 <= |ns|
    ensures FlatMotion(ns, k) == Ok(m) <==> WritableMotion(m) && ns[k..k + 6] == MotionNibbles(m)
    ensures FlatMotion(ns, k).Ok? ==> ns[k + 3] <= 3
  {
    hide Scan, Digits, Pow10;
    Powers();
    var s := ns[k..k + 6];
    assert s == ns[k..k + 3] + [ns[k + 3]] + ns[k + 4..k + 6];
    if FlatMotion(ns, k) == Ok(m) {
      ScanIff(ns, k, 3, m.speed);
      ScanIff(ns, k + 4, 2, Scan(ns, k + 4, 2).value);
      assert m.course % 100 == Scan(ns, k + 4, 2).value;
    }
    if WritableMotion(m) && s == MotionNibbles(m) {
      var t := MotionNibbles(m);
      assert t[0..3] == Digits(m.speed, 3) && t[3] == m.course / 100 && t[4..6] == Digits(m.course % 100, 2);
      assert s[0..3] == ns[k..k + 3] && s[4..6] == ns[k + 4..k + 6];
      ScanIff(ns, k, 3, m.speed);
      ScanIff(ns, k + 4, 2, m.course % 100);
    }
    if FlatMotion(ns, k).Ok? {
      ScanIff(ns, k + 4, 2, Scan(ns, k + 4, 2).value);
    }
  }

  /** The nibbles of a written frame, part by part. */
  lemma WrittenNibbles(rec: Record)
    requires Writable(rec)
    ensures var frame := Write(rec);
      var at := FieldsAt(frame);
      && |frame| == at + 23 + |rec.trailing| && at == 1 + |rec.id| / 2
      && frame[0] == rec.marker && frame[1..at] == PackDigits(rec.id)
      && Nibbles(frame)[2 * at..2 * at + 38] == BodyNibbles(rec)
      && frame[at + 19..] == PutDword(rec.status) + rec.trailing && frame[at + 23..] == rec.trailing
  {
    hide PackDigits, BodyNibbles, PutDword, Pack, Nibble, AllDigits, ValidIMEI, WritableTime, WritablePlace, WritableMotion;
    DwordRoundTrip(rec.status, []);
    assert PutDword(rec.status) + [] == PutDword(rec.status);
    var frame := Write(rec);
    var at := 1 + |rec.id| / 2;
    var body := Pack(BodyNibbles(rec));
    assert frame == [rec.marker] + PackDigits(rec.id) + body + (PutDword(rec.status) + rec.trailing);
    assert frame[at..at + 19] == body;
    NibblesOfPack(BodyNibbles(rec));
    NibblesOfSlice(frame, at, at + 19);
  }

  lemma NibblesOfSlice(b: bytes, i: nat, j: nat)
    requires i <= j <= |b|
    ensures Nibbles(b)[2 * i..2 * j] == Nibbles(b[i..j])
  {
    hide Nibble;
    forall q | 0 <= q < 2 * (j - i) ensures Nibble(b, 2 * i + q) == Nibble(b[i..j], q) {
      NibbleOfSlice(b, i, j, q);
    }
  }

  lemma NibbleOfSlice(b: bytes, i: nat, j: nat, q: nat)
    requires i <= j <= |b| && q < 2 * (j - i)
    ensures Nibble(b, 2 * i + q) == Nibble(b[i..j], q)
  {
    assert (2 * i + q) / 2 == i + q / 2;
  }

  lemma ThreePieces(s: seq<nibble>, t: seq<nibble>, p: seq<nibble>, m: seq<nibble>)
    requires |s| == 38 && |t| == 12 && |p| == 20 && |m| == 6
    ensures s == t + p + m <==> s[0..12] == t && s[12..32] == p && s[32..38] == m
  {
    var whole := t + p + m;
    assert whole[0..12] == t && whole[12..32] == p && whole[32..38] == m;
    assert s == s[0..12] + s[12..32] + s[32..38];
  }

  lemma BodyParts(ns: seq<nibble>, k: nat, rec: Record)
    requires k + 38 <= |ns| && Writable(rec)
    ensures ns[k..k + 38] == BodyNibbles(rec) <==>
      && ns[k..k + 12] == TimeNibbles(rec.time)
      && ns[k + 12..k + 12 + 20] == PlaceNibbles(rec.place)
      && ns[k + 32..k + 32 + 6] == MotionNibbles(rec.motion)
  {
    hide TimeNibbles, PlaceNibbles, MotionNibbles, WritableTime, WritablePlace, WritableMotion, ValidIMEI, AllDigits;
    ThreePieces(ns[k..k + 38], TimeNibbles(rec.time), PlaceNibbles(rec.place), MotionNibbles(rec.motion));
    Slice(ns, k, k + 38, 0, 12);
    Slice(ns, k, k + 38, 12, 32);
    Slice(ns, k, k + 38, 32, 38);
  }

  /** A body reads as what was written in it. */
  lemma BodyWritten(ns: seq<nibble>, k: nat, rec: Record)
    requires k + 38 <= |ns| && Writable(rec) && ns[k..k + 38] == BodyNibbles(rec)
    ensures FlatBody(ns, k) == Ok(Body(rec.time, PlaceOf(rec.place), rec.motion))
  {
    hide BodyNibbles, FlatTime, FlatPlace, FlatMotion, ValidIMEI, AllDigits;
    hide WritableTime, WritablePlace, WritableMotion, PlaceOf, TimeNibbles, PlaceNibbles, MotionNibbles;
    BodyParts(ns, k, rec);
    TimeIff(ns, k, rec.time);
    PlaceWritten(ns, k + 12, rec.place);
    MotionIff(ns, k + 32, rec.motion);
  }

  /** The frame written from a record decodes to exactly what the record says. */
  lemma RoundTrip(rec: Record)
    requires Writable(rec)
    ensures FlatDecode(Write(rec)) == Ok(Meaning(rec))
  {
    hide Write, PackDigits, BodyNibbles, PutDword, GetDword, Nibbles, Hex, ValidIMEI, FlatBody;
    hide WritableTime, WritablePlace, WritableMotion, Report, PlaceOf;
    WrittenNibbles(rec);
    HexOfPacked(rec.id);
    BodyWritten(Nibbles(Write(rec)), 2 * FieldsAt(Write(rec)), rec);
    DwordRoundTrip(rec.status, rec.trailing);
  }

  /** The record an accepted frame was written from. */
  function ReadRecord(frame: bytes): Record
    requires |frame| >= MIN_BINARY_PAYLOAD && FlatBody(Nibbles(frame), 2 * FieldsAt(frame)).Ok?
  {
    var ns, at := Nibbles(frame), FieldsAt(frame);
    Record(frame[0], Hex(frame[1..at]), FlatTime(ns, 2 * at).value, PlaceFieldsAt(ns, 2 * at + 12),
           FlatMotion(ns, 2 * at + 32).value, GetDword(frame[at + 19..]), frame[at + 23..])
  }

  lemma HexHasNoSpaces(b: bytes)
    ensures Trim(Hex(b)) == Hex(b)
    ensures ValidIMEI(Hex(b)) ==> AllDigits(Hex(b))
  {
    hide Trim;
    TrimNothing(Hex(b));
  }

  lemma RecordIsWritable(frame: bytes)
    requires FlatDecode(frame).Ok?
    ensures var at, rec := FieldsAt(frame), ReadRecord(frame);
      && Writable(rec) && Nibbles(frame)[2 * at..2 * at + 38] == BodyNibbles(rec)
      && FlatBody(Nibbles(frame), 2 * at) == Ok(Body(rec.time, PlaceOf(rec.place), rec.motion))
  {
    hide BodyNibbles, FlatTime, FlatPlace, FlatMotion, ValidIMEI, AllDigits, Hex, Nibbles, PlaceFieldsAt, GetDword, Report;
    hide WritableTime, WritablePlace, WritableMotion, PlaceOf, TimeNibbles, PlaceNibbles, MotionNibbles;
    var ns, at, rec := Nibbles(frame), FieldsAt(frame), ReadRecord(frame);
    HexHasNoSpaces(frame[1..at]);
    TimeIff(ns, 2 * at, rec.time);
    PlaceRead(ns, 2 * at + 12);
    MotionIff(ns, 2 * at + 32, rec.motion);
    BodyParts(ns, 2 * at, rec);
  }

  /** Every accepted frame is the writing of a record, so there is no second way to spell a report. */
  lemma AcceptedIsWritten(frame: bytes)
    ensures FlatDecode(frame).Ok? ==>
      var rec := ReadRecord(frame);
      Writable(rec) && Write(rec) == frame && FlatDecode(frame) == Ok(Meaning(rec))
  {
    hide BodyNibbles, Hex, Nibbles, GetDword, Pack, PackDigits, PutDword, Writable, Report, FlatBody, ValidIMEI;
    if FlatDecode(frame).Err? {
      return;
    }
    var at, rec := FieldsAt(frame), ReadRecord(frame);
    RecordIsWritable(frame);
    PackedIsWritten(frame, at, rec);
  }

  lemma FiveParts(frame: bytes, at: nat)
    requires 1 <= at && at + 23 <= |frame|
    ensures frame == [frame[0]] + frame[1..at] + frame[at..at + 19] + frame[at + 19..at + 23] + frame[at + 23..]
  {
  }

  lemma PackedIsWritten(frame: bytes, at: nat, rec: Record)
    requires at + 23 <= |frame| && at >= 1 && Writable(rec)
    requires Nibbles(frame)[2 * at..2 * at + 38] == BodyNibbles(rec)
    requires rec.marker == frame[0] && rec.id == Hex(frame[1..at]) && rec.trailing == frame[at + 23..]
    requires rec.status == GetDword(frame[at + 19..])
    ensures Write(rec) == frame
  {
    hide BodyNibbles, Hex, Nibbles, GetDword, Pack, PackDigits, PutDword, WritableTime, WritablePlace, WritableMotion, ValidIMEI, AllDigits;
    var id, body, status := frame[1..at], frame[at..at + 19], frame[at + 19..at + 23];
    PackedOfHex(id);
    NibblesOfSlice(frame, at, at + 19);
    PackOfNibbles(body);
    assert frame[at + 19..][..4] == status;
    DwordBytes(status, frame[at + 19..], rec.status);
    FiveParts(frame, at);
  }

  lemma DwordBytes(b: bytes, from: bytes, status: dword)
    requires |b| == 4 && |from| >= 4 && from[..4] == b && GetDword(from) == status
    ensures PutDword(status) == b
  {
    assert from[0] == b[0] && from[1] == b[1] && from[2] == b[2] && from[3] == b[3];
  }
}
