/** The gt06 login: the IMEI packed two digits a byte (gt06/simulate.go), and read back. */
module Gt06Login {
  import opened Bytes
  import opened Wrappers
  import opened Text
  import opened Tracker
  import opened Crc
  import opened Gt06Frame
  import opened Gt06Codec

  datatype LoginError = ImeiTooLong | NotADigit

  const ZERO: byte := 0x30

  /** Sprintf("%016s"): padded with zeros on the left. */
  function Pad16(imei: bytes): (s: bytes)
    requires |imei| <= 16
    ensures |s| == 16
  {
    seq(16 - |imei|, i => ZERO) + imei
  }

  function LoginFrame(imei: bytes, serial: word): Result<bytes, LoginError> {
    if |imei| > 16 then Err(ImeiTooLong)
    else if !AllDigits(Pad16(imei)) then Err(NotADigit)
    else Ok(BuildFrame(MSG_LOGIN, PackDigits(Pad16(imei)), serial))
  }

  /** BuildLoginFrame: the eight bytes are written in place, stopping at the first non-digit. */
  method BuildLoginFrame(imei: bytes, serial: word) returns (r: Result<bytes, LoginError>)
    ensures r == LoginFrame(imei, serial)
  {
    hide BuildFrame;
    if |imei| > 16 {
      return Err(ImeiTooLong);
    }
    var padded := Pad16(imei);
    var content := new byte[8];
    var i := 0;
    while i < 8
      invariant 0 <= i <= 8
      invariant forall k | 0 <= k < 2 * i :: IsDigit(padded[k])
      invariant forall k | 0 <= k < i :: content[k] == PackByte(DigitValue(padded[2 * k]), DigitValue(padded[2 * k + 1]))
    {
      if !IsDigit(padded[2 * i]) || !IsDigit(padded[2 * i + 1]) {
        return Err(NotADigit);
      }
      content[i] := PackByte(DigitValue(padded[2 * i]), DigitValue(padded[2 * i + 1]));
      i := i + 1;
    }
    assert content[..] == PackDigits(padded);
    var frame := AssembleFrame(MSG_LOGIN, content[..], serial);
    return Ok(frame);
  }

  // ---- Round trips ----

  /** Reading a packed identifier drops the padding digit and nothing else. */
  lemma DecodePacked(digits: bytes)
    requires |digits| == 16 && AllDigits(digits)
    ensures DecodeIMEI(PackDigits(digits)) == digits[1..]
  {
    hide PackDigits, Hex;
    var b := PackDigits(digits);
    HexOfPacked(digits);
    assert b[..8] == b;
  }

  /** Any login content with a zero padding nibble and decimal digits is the packing of the IMEI it decodes to. */
  lemma PackDecoded(content: bytes)
    requires |content| == 8 && content[0] < 16 && AllDigits(DecodeIMEI(content))
    ensures PackDigits(Pad16(DecodeIMEI(content))) == content
  {
    hide PackDigits;
    assert content[..8] == content;
    assert Hex(content)[0] == ZERO;
    assert Pad16(DecodeIMEI(content)) == Hex(content);
    PackedOfHex(content);
  }

  /** What the server makes of a built login: the 15 digits after the padding one, acknowledged, or a refusal. */
  lemma LoginArrives(ackGps: bool, now: DateTime, imei: bytes, serial: word)
    requires LoginFrame(imei, serial).Ok?
    ensures var r := Parse(ackGps, now, LoginFrame(imei, serial).value);
      var digits := Pad16(imei)[1..];
      r == if exists i :: 0 <= i < 15 && digits[i] != ZERO
           then Ok(BLANK.(kind := KindLogin, imei := digits, ack := BuildFrame(MSG_LOGIN, [], serial)))
           else Err(InvalidIMEI)
  {
    hide DecodeFrame, BuildFrame, PackDigits, Pad16, DecodeIMEI, Trim;
    var digits := Pad16(imei);
    DecodeBuilt(MSG_LOGIN, PackDigits(digits), serial);
    DecodePacked(digits);
    TrimNothing(digits[1..]);
  }

  /** A login carries its IMEI exactly when it has 15 digits: 16 lose the first, fewer gain zeros. */
  lemma LoginExactIff(ackGps: bool, now: DateTime, imei: bytes, serial: word)
    requires ValidIMEI(imei) && |imei| <= 16 && AllDigits(imei)
    ensures LoginFrame(imei, serial).Ok?
    ensures var r := Parse(ackGps, now, LoginFrame(imei, serial).value);
      (r.Ok? && r.value.imei == imei) <==> |imei| == 15
  {
    hide DecodeFrame, BuildFrame, PackDigits, DecodeIMEI, Trim;
    TrimNothing(imei);
    LoginArrives(ackGps, now, imei, serial);
    if |imei| == 15 {
      assert Pad16(imei)[1..] == imei;
    }
  }

  /** The frame of a 15-digit IMEI: one padding nibble, then its digits, two a byte. */
  lemma LoginBytes(imei: bytes, serial: word, i: nat)
    requires |imei| == 15 && (forall k | 0 <= k < 15 :: 0x30 <= imei[k] <= 0x39) && 1 <= i < 8
    ensures LoginFrame(imei, serial).Ok?
    ensures var f := LoginFrame(imei, serial).value;
      && |f| == 18 && f[..4] == [0x78, 0x78, 13, 0x01] && f[12] == serial / 256 && f[13] == serial % 256
      && f[4] == DigitOf(imei[0]) && f[4 + i] == 16 * DigitOf(imei[2 * i - 1]) + DigitOf(imei[2 * i])
  {
    hide BuildFrame, PackDigits, Pad16, CrcITU;
    var padded := Pad16(imei);
    PadOne(imei);
    BuiltShape(0x01, PackDigits(padded), serial);
    var f := BuildFrame(0x01, PackDigits(padded), serial);
    assert f[4..12] == PackDigits(padded);
    PackedAt(padded, 0);
    PackedAt(padded, i);
    assert f[4] == PackDigits(padded)[0] && f[4 + i] == PackDigits(padded)[i];
  }

  lemma PadOne(imei: bytes)
    requires |imei| == 15 && (forall k | 0 <= k < 15 :: 0x30 <= imei[k] <= 0x39)
    ensures Pad16(imei) == [0x30] + imei && AllDigits(Pad16(imei))
  {
  }

  function DigitOf(c: int): int {
    c - 48
  }

  lemma PackedAt(s: bytes, i: nat)
    requires AllDigits(s) && |s| % 2 == 0 && i < |s| / 2
    ensures PackDigits(s)[i] == 16 * DigitOf(s[2 * i]) + DigitOf(s[2 * i + 1])
  {
  }
}
