/** gt06/frame.go: delimiters, the resynchronising framer, and the frame codec. */
module Gt06Frame {
  import opened Bytes
  import opened Wrappers
  import opened Crc
  import opened Framing

  const START_SHORT: byte := 0x78
  const START_LONG: byte := 0x79
  const STOP_CR: byte := 0x0D
  const STOP_LF: byte := 0x0A
  const MAX_FRAME_LENGTH := 4096

  predicate IsStart(b: byte) {
    b == START_SHORT || b == START_LONG
  }

  predicate StartAt(buf: bytes, i: nat) {
    i + 1 < |buf| && IsStart(buf[i]) && buf[i + 1] == buf[i]
  }

  function FirstStart(buf: bytes, i: nat): (r: int)
    ensures r < 0 ==> forall k | i <= k :: !StartAt(buf, k)
    ensures r >= 0 ==> i <= r && StartAt(buf, r) && forall k | i <= k < r :: !StartAt(buf, k)
    decreases |buf| - i
  {
    if i + 1 >= |buf| then -1 else if StartAt(buf, i) then i else FirstStart(buf, i + 1)
  }

  /** indexOfStart. */
  method IndexOfStart(buf: bytes) returns (r: int)
    ensures r == FirstStart(buf, 0)
  {
    var i := 0;
    while i + 1 < |buf|
      invariant FirstStart(buf, i) == FirstStart(buf, 0)
    {
      if IsStart(buf[i]) && buf[i + 1] == buf[i] {
        return i;
      }
      i := i + 1;
    }
    return -1;
  }

  function HeaderSize(buf: bytes): nat
    requires |buf| > 0
  {
    if buf[0] == START_LONG then 4 else 3
  }

  function LengthField(buf: bytes): nat
    requires |buf| > 0 && |buf| >= HeaderSize(buf)
  {
    if buf[0] == START_LONG then GetWord(buf[2..]) else buf[2]
  }

  /** A lone last delimiter byte may be half of a delimiter split between two reads. */
  function Keep(buf: bytes): nat {
    if |buf| > 0 && IsStart(buf[|buf| - 1]) then 1 else 0
  }

  function NextFrame(buf: bytes): (s: Step)
    ensures SoundStep(buf, s)
    ensures buf != [] && !s.More? ==> s.n > 0
    ensures s.More? ==> |buf| <= 4101
  {
    var start := FirstStart(buf, 0);
    if start < 0 then
      if |buf| == Keep(buf) then More else Bad(|buf| - Keep(buf))
    else if start > 0 then Bad(start)
    else if |buf| < HeaderSize(buf) then More
    else
      var length := LengthField(buf);
      if length < 5 || length > MAX_FRAME_LENGTH then Bad(2)
      else
        var total := HeaderSize(buf) + length + 2;
        if |buf| < total then More
        else if buf[total - 2] != STOP_CR || buf[total - 1] != STOP_LF then Bad(2)
        else Frame(buf[..total], total)
  }

  datatype Packet = Packet(typ: byte, content: bytes, serial: word)

  datatype FrameError = FrameTooShort | BodyTooShort | BadCrc(want: word, got: word)

  function DecodeFrame(frame: bytes): Result<Packet, FrameError> {
    if |frame| < 9 then Err(FrameTooShort)
    else
      var body := frame[HeaderSize(frame)..|frame| - 2];
      if |body| < 5 then Err(BodyTooShort)
      else
        var want := GetWord(body[|body| - 2..]);
        var got := CrcITU(frame[2..|frame| - 4]);
        if want != got then Err(BadCrc(want, got))
        else Ok(Packet(body[0], body[1..|body| - 4], GetWord(body[|body| - 4..])))
  }

  /** The bytes the checksum covers: length, type, content and serial number. */
  function Covered(typ: byte, content: bytes, serial: word): bytes {
    [Truncate8(1 + |content| + 2 + 2), typ] + content + PutWord(serial)
  }

  function BuildFrame(typ: byte, content: bytes, serial: word): bytes {
    var covered := Covered(typ, content, serial);
    [START_SHORT, START_SHORT] + covered + PutWord(CrcITU(covered)) + [STOP_CR, STOP_LF]
  }

  /** buildFrame: the same bytes appended to one growing buffer. */
  method AssembleFrame(typ: byte, content: bytes, serial: word) returns (out: bytes)
    ensures out == BuildFrame(typ, content, serial)
  {
    var length := 1 + |content| + 2 + 2;
    out := [START_SHORT, START_SHORT, Truncate8(length), typ];
    out := out + content;
    out := out + PutWord(serial);
    assert out[2..] == Covered(typ, content, serial);
    var crc := ComputeCrcITU(out[2..]);
    out := out + PutWord(crc);
    out := out + [STOP_CR, STOP_LF];
  }

  // ---- The codec ----

  /** The bytes of a built frame, one by one; its checksum covers everything from the length on. */
  lemma BuiltShape(typ: byte, content: bytes, serial: word)
    ensures var f, n := BuildFrame(typ, content, serial), |content|;
      && |f| == n + 10
      && f[0] == 0x78 && f[1] == 0x78 && f[2] == (n + 5) % 0x100 && f[3] == typ
      && f[4..4 + n] == content
      && f[n + 4] == serial / 0x100 && f[n + 5] == serial % 0x100
      && f[n + 6] == CrcITU(f[2..n + 6]) / 0x100 && f[n + 7] == CrcITU(f[2..n + 6]) % 0x100
      && f[n + 8] == 0x0D && f[n + 9] == 0x0A
    ensures var f := BuildFrame(typ, content, serial);
      && f[2..|f| - 4] == Covered(typ, content, serial)
      && f[|f| - 6..|f| - 4] == PutWord(serial)
      && f[|f| - 4..|f| - 2] == PutWord(CrcITU(Covered(typ, content, serial)))
  {
    hide CrcITU;
    var f := BuildFrame(typ, content, serial);
    assert f[2..|f| - 4] == Covered(typ, content, serial);
  }

  /** Decoding returns exactly what was built, whatever the content and its length. */
  lemma DecodeBuilt(typ: byte, content: bytes, serial: word)
    ensures DecodeFrame(BuildFrame(typ, content, serial)) == Ok(Packet(typ, content, serial))
  {
    hide CrcITU;
    var f := BuildFrame(typ, content, serial);
    var crc := CrcITU(Covered(typ, content, serial));
    BuiltShape(typ, content, serial);
    var body := f[3..|f| - 2];
    assert body[|body| - 2..] == f[|f| - 4..|f| - 2];
    assert body[|body| - 4..] == PutWord(serial) + PutWord(crc);
    assert body[1..|body| - 4] == f[4..4 + |content|];
    WordRoundTrip(crc, []);
    assert PutWord(crc) + [] == PutWord(crc);
    WordRoundTrip(serial, PutWord(crc));
  }

  /** The framer hands a built frame out whole exactly when its content is at most 250 bytes. */
  lemma FramerSeesBuiltIff(typ: byte, content: bytes, serial: word, rest: bytes)
    ensures var f := BuildFrame(typ, content, serial);
      NextFrame(f + rest) == Frame(f, |f|) <==> |content| <= 250
  {
    hide CrcITU, BuildFrame, NextFrame, PutWord;
    var f := BuildFrame(typ, content, serial);
    BuiltShape(typ, content, serial);
    AnswerAtDelimiter(f + rest);
    assert (f + rest)[..|f|] == f;
  }

  // ---- Long frames ----

  /** The covered bytes of a frame with the long delimiter: the length takes two bytes, high one first. */
  function LongCovered(typ: byte, content: bytes, serial: word): bytes
    requires |content| + 5 < 0x1_0000
  {
    [(|content| + 5) / 0x100, (|content| + 5) % 0x100, typ] + content + [serial / 0x100, serial % 0x100]
  }

  /** What a tracker that uses the long delimiter sends. */
  function LongFrame(typ: byte, content: bytes, serial: word): (f: bytes)
    requires |content| + 5 < 0x1_0000
    ensures |f| == |content| + 11
  {
    var covered := LongCovered(typ, content, serial);
    var sum: int := CrcITU(covered);
    [0x79, 0x79] + covered + [sum / 0x100, sum % 0x100] + [0x0D, 0x0A]
  }

  /** The framer hands a long frame out whole exactly when its length field is at most 4096. */
  lemma FramerSeesLongIff(typ: byte, content: bytes, serial: word, rest: bytes)
    requires |content| + 5 < 0x1_0000
    ensures var f := LongFrame(typ, content, serial);
      NextFrame(f + rest) == Frame(f, |f|) <==> |content| + 5 <= 4096
  {
    hide CrcITU;
    var f := LongFrame(typ, content, serial);
    assert StartAt(f + rest, 0);
    assert (f + rest)[..|f|] == f;
    LongLength(typ, content, serial, rest);
  }

  lemma LongLength(typ: byte, content: bytes, serial: word, rest: bytes)
    requires |content| + 5 < 0x1_0000
    ensures var buf := LongFrame(typ, content, serial) + rest;
      && HeaderSize(buf) == 4 && LengthField(buf) == |content| + 5
      && buf[|content| + 9] == 0x0D && buf[|content| + 10] == 0x0A
  {
    hide CrcITU;
    var buf := LongFrame(typ, content, serial) + rest;
    assert buf[2] == (|content| + 5) / 0x100 && buf[3] == (|content| + 5) % 0x100;
  }

  /** And it decodes to what it carries. */
  lemma DecodeLong(typ: byte, content: bytes, serial: word)
    requires |content| + 5 < 0x1_0000
    ensures DecodeFrame(LongFrame(typ, content, serial)) == Ok(Packet(typ, content, serial))
  {
    hide CrcITU;
    var f, n := LongFrame(typ, content, serial), |content|;
    var sum: int := CrcITU(LongCovered(typ, content, serial));
    assert f[2..|f| - 4] == LongCovered(typ, content, serial);
    var body := f[4..|f| - 2];
    assert body == [typ] + content + [serial / 0x100, serial % 0x100] + [sum / 0x100, sum % 0x100];
    assert body[1..|body| - 4] == content;
    assert body[|body| - 2..] == [sum / 0x100, sum % 0x100];
    assert body[|body| - 4..][0] == serial / 0x100 && body[|body| - 4..][1] == serial % 0x100;
  }

  // ---- The framer's answers, byte by byte ----

  predicate Doubled(buf: bytes, i: nat) {
    i + 1 < |buf| && buf[i + 1] == buf[i] && (buf[i] == 0x78 || buf[i] == 0x79)
  }

  /** What a buffer that starts with a delimiter holds: its header size and its length field. */
  lemma AnswerAtDelimiter(buf: bytes)
    requires Doubled(buf, 0)
    ensures var h := if buf[0] == 0x78 then 3 else 4;
      if |buf| < h then NextFrame(buf) == More
      else
        var length: int := if buf[0] == 0x78 then buf[2] else 256 * buf[2] as int + buf[3];
        if length < 5 || length > 4096 then NextFrame(buf) == Bad(2)
        else if |buf| < h + length + 2 then NextFrame(buf) == More
        else if buf[h + length] != 0x0D || buf[h + length + 1] != 0x0A then NextFrame(buf) == Bad(2)
        else NextFrame(buf) == Frame(buf[..h + length + 2], h + length + 2)
  {
    assert StartAt(buf, 0);
  }

  /** Anything before the first delimiter is dropped, except a last byte that may be half of one. */
  lemma AnswerOtherwise(buf: bytes, i: nat)
    requires !Doubled(buf, 0) && forall k: nat | k < i :: !Doubled(buf, k)
    ensures Doubled(buf, i) ==> NextFrame(buf) == Bad(i)
    ensures i == |buf| ==>
      var kept := if buf != [] && (buf[|buf| - 1] == 0x78 || buf[|buf| - 1] == 0x79) then 1 else 0;
      NextFrame(buf) == if |buf| == kept then More else Bad(|buf| - kept)
  {
    assert forall k: nat :: Doubled(buf, k) == StartAt(buf, k);
    if Doubled(buf, i) {
      FirstIs(buf, i);
    }
  }

  lemma FirstIs(buf: bytes, i: nat)
    requires StartAt(buf, i) && forall k: nat | k < i :: !StartAt(buf, k)
    ensures FirstStart(buf, 0) == i
  {
    var r := FirstStart(buf, 0);
    assert r >= 0 ==> StartAt(buf, r);
  }

  // ---- Damage ----

  /** Two frames of one length that agree on delimiter, checksum and stop bytes. */
  predicate SameOutside(frame: bytes, damaged: bytes) {
    |damaged| == |frame| >= 9 && damaged[..2] == frame[..2] && damaged[|frame| - 4..] == frame[|frame| - 4..]
  }

  function Checked(frame: bytes): bytes
    requires |frame| >= 9
  {
    frame[2..|frame| - 4]
  }

  /** Damage to the covered bytes that changes their checksum makes a valid frame invalid. */
  lemma CoveredDamageRejected(frame: bytes, damaged: bytes)
    requires SameOutside(frame, damaged) && CrcITU(Checked(frame)) != CrcITU(Checked(damaged))
    ensures DecodeFrame(frame).Ok? ==> DecodeFrame(damaged).Err? && DecodeFrame(damaged).error.BadCrc?
  {
    hide CrcITU;
    SameCrcField(frame, damaged);
  }

  /** Damage confined to 16 consecutive covered bits makes a valid frame invalid. */
  lemma BurstRejected(frame: bytes, damaged: bytes, w: nat)
    requires SameOutside(frame, damaged) && damaged != frame
    requires DifferOnlyInWindow(Checked(frame), Checked(damaged), w)
    ensures DecodeFrame(frame).Ok? ==> DecodeFrame(damaged).Err? && DecodeFrame(damaged).error.BadCrc?
  {
    hide CrcITU, DecodeFrame;
    var n := |frame|;
    assert frame == frame[..2] + frame[2..n - 4] + frame[n - 4..];
    assert damaged == damaged[..2] + damaged[2..n - 4] + damaged[n - 4..];
    BurstChangesCrc(Checked(frame), Checked(damaged), w);
    CoveredDamageRejected(frame, damaged);
  }

  /** So does damage that flips an odd number of covered bits. */
  lemma OddDamageRejected(frame: bytes, damaged: bytes)
    requires SameOutside(frame, damaged)
    requires Parity(MessageBits(Checked(frame))) != Parity(MessageBits(Checked(damaged)))
    ensures DecodeFrame(frame).Ok? ==> DecodeFrame(damaged).Err? && DecodeFrame(damaged).error.BadCrc?
  {
    hide CrcITU, DecodeFrame, Parity, MessageBits;
    OddDamageChangesCrc(Checked(frame), Checked(damaged));
    CoveredDamageRejected(frame, damaged);
  }

  /** The checksum a frame carries. */
  function Carried(frame: bytes): word
    requires |frame| >= 9
  {
    GetWord(frame[|frame| - 4..])
  }

  lemma DecodesIff(frame: bytes)
    requires |frame| >= 9
    ensures DecodeFrame(frame).Ok? <==> |frame| >= HeaderSize(frame) + 7 && CrcITU(Checked(frame)) == Carried(frame)
  {
    hide CrcITU;
    var h, n := HeaderSize(frame), |frame|;
    if n >= h + 7 {
      var body := frame[h..n - 2];
      assert body[|body| - 2..] == frame[n - 4..][..2];
    }
  }

  /**
    Damage anywhere between delimiter and stop bytes, checksum included: a damaged frame is accepted
    exactly when its covered bytes feed a zero register to the change of its checksum.
   */
  lemma DamageAcceptedIff(frame: bytes, damaged: bytes)
    requires |damaged| == |frame| >= 9 && damaged[0] == frame[0]
    ensures DecodeFrame(frame).Ok? ==>
      (DecodeFrame(damaged).Ok? <==>
        Feed(Zeros(16), Xor(MessageBits(Checked(frame)), MessageBits(Checked(damaged))))
          == Xor(BitsOf(Carried(frame), 16), BitsOf(Carried(damaged), 16)))
  {
    hide CrcITU, DecodeFrame, Feed, MessageBits, BitsOf, Carried;
    DecodesIff(frame);
    DecodesIff(damaged);
    SumDifference(Checked(frame), Checked(damaged));
    XorAgree(BitsOf(CrcITU(Checked(frame)), 16), BitsOf(CrcITU(Checked(damaged)), 16), BitsOf(Carried(damaged), 16));
    WordBitsInjective(CrcITU(Checked(damaged)), Carried(damaged));
  }

  lemma XorAgree(a: Bits, b: Bits, c: Bits)
    requires |a| == |b| == |c|
    ensures Xor(a, b) == Xor(a, c) <==> b == c
  {
    if Xor(a, b) == Xor(a, c) {
      forall i | 0 <= i < |b| ensures b[i] == c[i] {
        assert Xor(a, b)[i] == Xor(a, c)[i];
      }
    }
  }

  /**
    Because the checksum is sent high byte first, 16-bit bursts across its border can pass: flipping the
    top bit of the serial number's low byte and bits 15, 10 and 3 of the checksum, all within 13
    consecutive bits of the wire, turns one valid frame into another.
   */
  lemma BurstAcrossBorder(typ: byte, content: bytes, serial: word)
    requires serial % 0x100 < 0x80
    ensures var here, there := Covered(typ, content, serial), Covered(typ, content, serial + 0x80);
      && there == here[|here| - 1 := here[|here| - 1] + 0x80]
      && Xor(BitsOf(CrcITU(here), 16), BitsOf(CrcITU(there), 16)) == POLYNOMIAL
    ensures DecodeFrame(BuildFrame(typ, content, serial)) == Ok(Packet(typ, content, serial))
    ensures DecodeFrame(BuildFrame(typ, content, serial + 0x80)) == Ok(Packet(typ, content, serial + 0x80))
  {
    hide CrcITU, DecodeFrame, BuildFrame, BitsOf, POLYNOMIAL;
    DecodeBuilt(typ, content, serial);
    DecodeBuilt(typ, content, serial + 0x80);
    var here, there := Covered(typ, content, serial), Covered(typ, content, serial + 0x80);
    var data, b := here[..|here| - 1], here[|here| - 1];
    assert (serial + 0x80) / 0x100 == serial / 0x100 && (serial + 0x80) % 0x100 == serial % 0x100 + 0x80;
    assert here == data + [b] && there == data + [b + 0x80];
    LastBitShows(data, b);
  }

  lemma SameCrcField(frame: bytes, damaged: bytes)
    requires |frame| == |damaged| >= 9
    requires damaged[..2] == frame[..2] && damaged[|frame| - 4..] == frame[|frame| - 4..]
    ensures HeaderSize(frame) == HeaderSize(damaged)
    ensures |frame| - HeaderSize(frame) >= 7 ==>
      GetWord(frame[HeaderSize(frame)..|frame| - 2][|frame| - HeaderSize(frame) - 4..])
      == GetWord(damaged[HeaderSize(frame)..|frame| - 2][|frame| - HeaderSize(frame) - 4..])
  {
    var n, h := |frame|, HeaderSize(frame);
    assert frame[..2][0] == damaged[..2][0];
    if n - h >= 7 {
      assert frame[h..n - 2][n - h - 4..] == frame[n - 4..][..2];
      assert damaged[h..n - 2][n - h - 4..] == damaged[n - 4..][..2];
    }
  }

  /** Any damage confined to the two checksum bytes is detected too. */
  lemma ChecksumDamageRejected(frame: bytes, damaged: bytes)
    requires |damaged| == |frame| >= 9 && damaged[..|frame| - 4] == frame[..|frame| - 4]
    requires damaged[|frame| - 4..|frame| - 2] != frame[|frame| - 4..|frame| - 2]
    ensures DecodeFrame(frame).Ok? ==> DecodeFrame(damaged).Err? && DecodeFrame(damaged).error.BadCrc?
  {
    hide CrcITU;
    if DecodeFrame(frame).Err? {
      return;
    }
    var n, h := |frame|, HeaderSize(frame);
    assert frame[0] == frame[..n - 4][0] && damaged[0] == damaged[..n - 4][0];
    assert frame[2..n - 4] == frame[..n - 4][2..] && damaged[2..n - 4] == damaged[..n - 4][2..];
    var bf, bd := frame[h..n - 2], damaged[h..n - 2];
    assert bf[|bf| - 2..] == frame[n - 4..n - 2];
    assert bd[|bd| - 2..] == damaged[n - 4..n - 2];
    WordInjective(bf[|bf| - 2..], bd[|bd| - 2..]);
  }

  lemma WordInjective(a: bytes, b: bytes)
    requires |a| == |b| == 2 && a != b
    ensures GetWord(a) != GetWord(b)
  {
  }
}
