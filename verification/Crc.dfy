/**
  The frame check sequence of gt06/frame.go (CRC-16/X-25, Appendix C.2 of RFC 1662).

  Machine words are bit strings here, least significant bit first, so `c & 1` is the first bit
  and `c >> 1` drops it. The byte-wise register is shown to feed the input bit by bit; feeding is
  linear and loses nothing, and every claim about undetected errors follows from that.
 */
module Crc {
  import opened Bytes

  type Bits = seq<bool>
  type Reg = r: seq<bool> | |r| == 16 witness [false, false, false, false, false, false, false, false,
    false, false, false, false, false, false, false, false]

  function Zeros(n: nat): (z: Bits)
    ensures |z| == n && forall i | 0 <= i < n :: !z[i]
  {
    seq(n, _ => false)
  }

  function Xor(a: Bits, b: Bits): (x: Bits)
    requires |a| == |b|
    ensures |x| == |a| && forall i | 0 <= i < |a| :: x[i] == (a[i] != b[i])
  {
    seq(|a|, i requires 0 <= i < |a| => a[i] != b[i])
  }

  /** 0x8408. */
  const POLYNOMIAL: Reg :=
    [false, false, false, true, false, false, false, false,
     false, false, true, false, false, false, false, true]

  const ALL_ONES: Reg :=
    [true, true, true, true, true, true, true, true,
     true, true, true, true, true, true, true, true]

  function BitsOf(b: nat, n: nat): (s: Bits)
    ensures |s| == n
    decreases n
  {
    if n == 0 then [] else [b % 2 == 1] + BitsOf(b / 2, n - 1)
  }

  function ByteBits(b: byte): (s: Bits)
    ensures |s| == 8
  {
    BitsOf(b, 8)
  }

  /** The number a bit string stands for. */
  function Value(s: Bits): nat {
    if s == [] then 0 else (if s[0] then 1 else 0) + 2 * Value(s[1..])
  }

  /** The body of the inner loop. */
  function Turn(c: Reg): Reg {
    if c[0] then Xor(c[1..] + [false], POLYNOMIAL) else c[1..] + [false]
  }

  function Turns(c: Reg, n: nat): Reg
    decreases n
  {
    if n == 0 then c else Turns(Turn(c), n - 1)
  }

  /** `crc ^= uint16(b)`. */
  function Mix(c: Reg, b: byte): Reg {
    Xor(c, ByteBits(b) + Zeros(8))
  }

  /** The register after `data`, started at `c`. */
  function Register(c: Reg, data: bytes): Reg
    decreases |data|
  {
    if data == [] then c else Register(Turns(Mix(c, data[0]), 8), data[1..])
  }

  function CrcITU(data: bytes): word {
    WordValue(Xor(Register(ALL_ONES, data), ALL_ONES));
    Value(Xor(Register(ALL_ONES, data), ALL_ONES))
  }

  /** The inner loop of crcITU. */
  method MixByte(c: Reg, b: byte) returns (crc: Reg)
    ensures crc == Turns(Mix(c, b), 8)
  {
    hide ByteBits, Xor, POLYNOMIAL, Zeros;
    crc := Xor(c, ByteBits(b) + Zeros(8));
    for k := 0 to 8
      invariant Turns(crc, 8 - k) == Turns(Mix(c, b), 8)
    {
      if crc[0] {
        crc := Xor(crc[1..] + [false], POLYNOMIAL);
      } else {
        crc := crc[1..] + [false];
      }
    }
  }

  /** crcITU itself: one 16-bit register, eight turns a byte. */
  method ComputeCrcITU(data: bytes) returns (sum: word)
    ensures sum == CrcITU(data)
  {
    var crc: Reg := ALL_ONES;
    for i := 0 to |data|
      invariant Register(crc, data[i..]) == Register(ALL_ONES, data)
    {
      assert data[i..][1..] == data[i + 1..];
      crc := MixByte(crc, data[i]);
    }
    WordValue(Xor(crc, ALL_ONES));
    sum := Value(Xor(crc, ALL_ONES));
  }

  // ---- Bit strings and the numbers they stand for ----

  function Pow2(n: nat): (p: nat)
    ensures p > 0
  {
    if n == 0 then 1 else 2 * Pow2(n - 1)
  }

  lemma {:induction false} ValueBound(s: Bits)
    ensures Value(s) < Pow2(|s|)
  {
    if s != [] {
      ValueBound(s[1..]);
    }
  }

  lemma WordValue(s: Reg)
    ensures Value(s) < 0x1_0000
  {
    ValueBound(s);
    assert Pow2(4) == 16;
    assert Pow2(8) == 0x100;
    assert Pow2(12) == 0x1000;
    assert Pow2(16) == 0x1_0000;
  }

  lemma {:induction false} ValueInjective(s: Bits, t: Bits)
    requires |s| == |t| && Value(s) == Value(t)
    ensures s == t
  {
    if s != [] {
      ValueInjective(s[1..], t[1..]);
      assert s == [s[0]] + s[1..] && t == [t[0]] + t[1..];
    }
  }

  lemma {:induction false} ValueOfBits(b: nat, n: nat)
    requires b < Pow2(n)
    ensures Value(BitsOf(b, n)) == b
    decreases n
  {
    if n > 0 {
      ValueOfBits(b / 2, n - 1);
      assert BitsOf(b, n)[1..] == BitsOf(b / 2, n - 1);
    }
  }

  lemma ByteBitsInjective(a: byte, b: byte)
    requires ByteBits(a) == ByteBits(b)
    ensures a == b
  {
    assert Pow2(4) == 16;
    assert Pow2(8) == 0x100;
    ValueOfBits(a, 8);
    ValueOfBits(b, 8);
  }

  lemma XorCancels(a: Bits, b: Bits, c: Bits)
    requires |a| == |b| == |c|
    ensures Xor(Xor(a, c), Xor(b, c)) == Xor(a, b)
    ensures (Xor(a, b) == Zeros(|a|)) <==> a == b
  {
    if Xor(a, b) == Zeros(|a|) {
      forall i | 0 <= i < |a| ensures a[i] == b[i] {
        assert !Xor(a, b)[i];
      }
    }
  }

  // ---- One bit at a time ----

  /** The whole input as one bit string, least significant bit of each byte first. */
  function MessageBits(data: bytes): (m: Bits)
    ensures |m| == 8 * |data|
  {
    if data == [] then [] else ByteBits(data[0]) + MessageBits(data[1..])
  }

  function MixBit(c: Reg, bit: bool): Reg {
    c[0 := c[0] != bit]
  }

  function Feed(c: Reg, s: Bits): Reg
    decreases |s|
  {
    if s == [] then c else Feed(Turn(MixBit(c, s[0])), s[1..])
  }

  lemma {:induction false} FeedConcat(c: Reg, s: Bits, t: Bits)
    ensures Feed(c, s + t) == Feed(Feed(c, s), t)
    decreases |s|
  {
    if s == [] {
      assert s + t == t;
    } else {
      assert (s + t)[1..] == s[1..] + t;
      FeedConcat(Turn(MixBit(c, s[0])), s[1..], t);
    }
  }

  lemma TurnXor(a: Reg, b: Reg)
    ensures Turn(Xor(a, b)) == Xor(Turn(a), Turn(b))
  {
  }

  /** Bits waiting further up the register are only shifted by a turn. */
  lemma TurnLeavesRest(c: Reg, s: Bits)
    requires 0 < |s| <= 16
    ensures Turn(Xor(c, s + Zeros(16 - |s|))) == Xor(Turn(MixBit(c, s[0])), s[1..] + Zeros(17 - |s|))
  {
  }

  /** Mixing up to 16 bits in at once and turning is feeding them one by one. */
  lemma {:induction false} FeedIsMixThenTurn(c: Reg, s: Bits)
    requires |s| <= 16
    ensures Feed(c, s) == Turns(Xor(c, s + Zeros(16 - |s|)), |s|)
    decreases |s|
  {
    hide Turn, MixBit;
    if s == [] {
      assert Xor(c, s + Zeros(16)) == c;
    } else {
      TurnLeavesRest(c, s);
      FeedIsMixThenTurn(Turn(MixBit(c, s[0])), s[1..]);
    }
  }

  /** The byte-wise register of the code feeds the message bit by bit. */
  lemma {:induction false} RegisterFeedsBits(c: Reg, data: bytes)
    ensures Register(c, data) == Feed(c, MessageBits(data))
    decreases |data|
  {
    if data != [] {
      FeedIsMixThenTurn(c, ByteBits(data[0]));
      FeedConcat(c, ByteBits(data[0]), MessageBits(data[1..]));
      RegisterFeedsBits(Turns(Mix(c, data[0]), 8), data[1..]);
    }
  }

  lemma {:induction false} FeedXor(c: Reg, d: Reg, s: Bits, t: Bits)
    requires |s| == |t|
    ensures Xor(Feed(c, s), Feed(d, t)) == Feed(Xor(c, d), Xor(s, t))
    decreases |s|
  {
    if s != [] {
      var c', d' := MixBit(c, s[0]), MixBit(d, t[0]);
      TurnXor(c', d');
      FeedXor(Turn(c'), Turn(d'), s[1..], t[1..]);
      assert Xor(c', d') == MixBit(Xor(c, d), Xor(s, t)[0]);
      assert Xor(s, t)[1..] == Xor(s[1..], t[1..]);
    }
  }

  lemma TurnKeepsNonZero(c: Reg)
    requires c != Zeros(16)
    ensures Turn(c) != Zeros(16)
  {
    if c[0] {
      assert Turn(c)[15];
    } else {
      var i :| 0 <= i < 16 && c[i] != Zeros(16)[i];
      assert Turn(c)[i - 1];
    }
  }

  lemma {:induction false} TurnsKeepNonZero(c: Reg, n: nat)
    requires c != Zeros(16)
    ensures Turns(c, n) != Zeros(16)
    decreases n
  {
    if n > 0 {
      TurnKeepsNonZero(c);
      TurnsKeepNonZero(Turn(c), n - 1);
    }
  }

  lemma {:induction false} FeedZeros(c: Reg, n: nat)
    ensures Feed(c, Zeros(n)) == Turns(c, n)
    decreases n
  {
    if n > 0 {
      assert MixBit(c, false) == c;
      assert Zeros(n)[1..] == Zeros(n - 1);
      FeedZeros(Turn(c), n - 1);
    }
  }

  lemma {:induction false} TurnsOfZero(n: nat)
    ensures Turns(Zeros(16), n) == Zeros(16)
    decreases n
  {
    if n > 0 {
      assert Zeros(16)[1..] + [false] == Zeros(16);
      TurnsOfZero(n - 1);
    }
  }

  // ---- The residue ----

  lemma Doubled(p: nat, v: nat)
    ensures (2 * p) * v == 2 * (p * v)
  {
  }

  lemma {:induction false} ValueConcat(s: Bits, t: Bits)
    ensures Value(s + t) == Value(s) + Pow2(|s|) * Value(t)
  {
    if s == [] {
      assert s + t == t;
    } else {
      assert (s + t)[1..] == s[1..] + t;
      ValueConcat(s[1..], t);
      assert Pow2(|s|) == 2 * Pow2(|s| - 1);
      Doubled(Pow2(|s| - 1), Value(t));
    }
  }

  lemma BytesValue(b: byte)
    ensures Value(ByteBits(b)) == b
  {
    assert Pow2(4) == 16;
    assert Pow2(8) == 0x100;
    ValueOfBits(b, 8);
  }

  /** A word sent low byte first is fed to the register as its own bits. */
  lemma WordBits(s: Reg)
    ensures Value(s) < 0x1_0000
    ensures MessageBits([Value(s) % 0x100, Value(s) / 0x100]) == s
  {
    hide ByteBits;
    WordValue(s);
    var low: byte, high: byte := Value(s) % 0x100, Value(s) / 0x100;
    var t := ByteBits(low) + ByteBits(high);
    assert Pow2(4) == 16;
    assert Pow2(8) == 0x100;
    ValueConcat(ByteBits(low), ByteBits(high));
    BytesValue(low);
    BytesValue(high);
    ValueInjective(t, s);
    assert [low, high][1..] == [high] && [high][1..] == [];
    assert MessageBits([high]) == ByteBits(high) + [];
  }

  lemma {:induction false} RegisterConcat(c: Reg, a: bytes, b: bytes)
    ensures Register(c, a + b) == Register(Register(c, a), b)
    decreases |a|
  {
    hide Turns, Mix;
    if a == [] {
      assert a + b == b;
    } else {
      assert (a + b)[1..] == a[1..] + b;
      RegisterConcat(Turns(Mix(c, a[0]), 8), a[1..], b);
    }
  }

  lemma MixedWithItself(r: Reg)
    ensures Xor(r, Xor(r, ALL_ONES) + Zeros(0)) == ALL_ONES
  {
  }

  /**
    Running over the data and then its own checksum, low byte first, leaves the same register for all data.
    This is the order of Appendix C.2 of RFC 1662; the frames of gt06 carry the high byte first.
   */
  lemma ResidueIsConstant(data: bytes)
    ensures var sum := CrcITU(data);
      Register(ALL_ONES, data + [sum % 0x100, sum / 0x100]) == Turns(ALL_ONES, 16)
  {
    hide Turns, Feed, Register, MessageBits, Xor;
    var r := Register(ALL_ONES, data);
    var check := Xor(r, ALL_ONES);
    WordBits(check);
    var tail: bytes := [Value(check) % 0x100, Value(check) / 0x100];
    RegisterConcat(ALL_ONES, data, tail);
    RegisterFeedsBits(r, tail);
    FeedIsMixThenTurn(r, check);
    MixedWithItself(r);
  }

  // ---- The checksum in plain numbers ----

  /** One turn of a 16-bit register as a number: halve, and on an odd number flip bits 15, 10 and 3. */
  function TurnWord(n: word): word {
    var half := n / 2;
    if n % 2 == 0 then half
    else half + 0x8000 + (if half / 0x400 % 2 == 1 then -0x400 else 0x400) + (if half / 8 % 2 == 1 then -8 else 8)
  }

  /** The lowest bit of `b`, added to bit 0 without carry. */
  function MixWord(n: word, b: nat): word {
    if b % 2 == 0 then n else if n % 2 == 0 then n + 1 else n - 1
  }

  /** `count` bits of `b`, lowest first, fed one by one. */
  function FeedWord(n: word, b: nat, count: nat): word
    decreases count
  {
    if count == 0 then n
    else
      FeedWord(TurnWord(MixWord(n, b)), b / 2, count - 1)
  }

  function RegisterWord(n: word, data: bytes): word
    decreases |data|
  {
    if data == [] then n else RegisterWord(FeedWord(n, data[0], 8), data[1..])
  }

  /** `v` halved `i` times. */
  function Halved(v: nat, i: nat): nat {
    if i == 0 then v else Halved(v / 2, i - 1)
  }

  lemma ValueOfFirst(s: Bits)
    requires s != []
    ensures Value(s) % 2 == (if s[0] then 1 else 0) && Value(s) / 2 == Value(s[1..])
  {
  }

  lemma {:induction false} BitOfValue(s: Bits, i: nat)
    requires i < |s|
    ensures s[i] == (Halved(Value(s), i) % 2 == 1)
    decreases i
  {
    hide Value;
    ValueOfFirst(s);
    if i > 0 {
      BitOfValue(s[1..], i - 1);
    }
  }

  lemma HalvedThrice(v: nat, i: nat)
    requires i >= 3
    ensures Halved(v, i) == Halved(v / 8, i - 3)
  {
    assert Halved(v, i) == Halved(v / 2, i - 1) == Halved(v / 2 / 2, i - 2) == Halved(v / 2 / 2 / 2, i - 3);
    assert v / 2 / 2 / 2 == v / 8;
  }

  lemma EighthsOf(v: nat)
    ensures v / 8 / 8 / 8 / 2 == v / 0x400
  {
  }

  lemma HalvedTo(v: nat)
    ensures Halved(v, 3) == v / 8 && Halved(v, 10) == v / 0x400
  {
    hide Halved;
    HalvedThrice(v, 3);
    HalvedThrice(v, 10);
    HalvedThrice(v / 8, 7);
    HalvedThrice(v / 8 / 8, 4);
    HalvedOnce(v / 8);
    HalvedOnce(v / 8 / 8 / 8);
    EighthsOf(v);
  }

  lemma HalvedOnce(v: nat)
    ensures Halved(v, 0) == v && Halved(v, 1) == v / 2
  {
    assert Halved(v / 2, 0) == v / 2;
  }

  lemma {:induction false} FlipValue(s: Bits, i: nat)
    requires i < |s|
    ensures Value(s[i := !s[i]]) == if s[i] then Value(s) - Pow2(i) else Value(s) + Pow2(i)
    decreases i
  {
    var t := s[i := !s[i]];
    if i == 0 {
      assert t[1..] == s[1..];
    } else {
      assert t[1..] == s[1..][i - 1 := !s[1..][i - 1]];
      FlipValue(s[1..], i - 1);
    }
  }

  lemma {:induction false} ValueShifted(s: Bits)
    ensures Value(s + [false]) == Value(s)
  {
    if s == [] {
      assert [false][1..] == [];
    } else {
      assert (s + [false])[1..] == s[1..] + [false];
      ValueShifted(s[1..]);
    }
  }

  lemma PolynomialFlips(s: Reg)
    requires !s[15]
    ensures Xor(s, POLYNOMIAL) == s[3 := !s[3]][10 := !s[10]][15 := true]
  {
  }

  lemma Powers()
    ensures Pow2(3) == 8 && Pow2(10) == 0x400 && Pow2(15) == 0x8000
  {
    assert Pow2(5) == 32;
    assert Pow2(8) == 0x100;
    assert Pow2(12) == 0x1000;
  }

  /** Xoring the generator into a register whose top bit is clear, in numbers. */
  lemma XorInNumbers(s: Reg)
    requires !s[15]
    ensures var v := Value(s);
      Value(Xor(s, POLYNOMIAL))
      == v + 0x8000 + (if v / 0x400 % 2 == 1 then -0x400 else 0x400) + (if v / 8 % 2 == 1 then -8 else 8)
  {
    hide POLYNOMIAL, Xor, Halved, Value;
    PolynomialFlips(s);
    Powers();
    var s3 := s[3 := !s[3]];
    var s10 := s3[10 := !s3[10]];
    FlipValue(s, 3);
    FlipValue(s3, 10);
    FlipValue(s10, 15);
    BitOfValue(s, 3);
    BitOfValue(s, 10);
    HalvedTo(Value(s));
  }

  lemma TurnIsWord(c: Reg)
    ensures Value(c) < 0x1_0000 && Value(Turn(c)) == TurnWord(Value(c))
  {
    hide POLYNOMIAL, Xor;
    WordValue(c);
    var s: Reg := c[1..] + [false];
    ValueShifted(c[1..]);
    assert Value(c) == (if c[0] then 1 else 0) + 2 * Value(c[1..]);
    XorInNumbers(s);
  }

  lemma MixBitIsWord(c: Reg, bit: bool)
    ensures Value(c) < 0x1_0000
    ensures Value(MixBit(c, bit)) == if !bit then Value(c) else if Value(c) % 2 == 0 then Value(c) + 1 else Value(c) - 1
  {
    WordValue(c);
    if bit {
      assert MixBit(c, bit) == c[0 := !c[0]];
      FlipValue(c, 0);
      assert Value(c) == (if c[0] then 1 else 0) + 2 * Value(c[1..]);
    } else {
      assert MixBit(c, bit) == c;
    }
  }

  lemma {:induction false} FeedIsWord(c: Reg, b: nat, n: nat)
    ensures Value(c) < 0x1_0000 && Value(Feed(c, BitsOf(b, n))) == FeedWord(Value(c), b, n)
    decreases n
  {
    hide Turn, MixBit, TurnWord, Value;
    WordValue(c);
    if n > 0 {
      var bit := b % 2 == 1;
      var mixed := MixBit(c, bit);
      MixBitIsWord(c, bit);
      TurnIsWord(mixed);
      FeedIsWord(Turn(mixed), b / 2, n - 1);
      assert BitsOf(b, n)[1..] == BitsOf(b / 2, n - 1);
    }
  }

  lemma {:induction false} RegisterIsWord(c: Reg, data: bytes)
    ensures Value(c) < 0x1_0000 && Value(Register(c, data)) == RegisterWord(Value(c), data)
    decreases |data|
  {
    hide Turns, Mix, Value, Feed, FeedWord;
    WordValue(c);
    if data != [] {
      FeedIsMixThenTurn(c, ByteBits(data[0]));
      FeedIsWord(c, data[0], 8);
      RegisterIsWord(Turns(Mix(c, data[0]), 8), data[1..]);
      MixIs(c, data[0]);
    }
  }

  lemma MixIs(c: Reg, b: byte)
    ensures Mix(c, b) == Xor(c, ByteBits(b) + Zeros(16 - |ByteBits(b)|))
  {
  }

  lemma {:induction false} ComplementValue(s: Bits, ones: Bits)
    requires |s| == |ones| && forall i | 0 <= i < |ones| :: ones[i]
    ensures Value(Xor(s, ones)) == Pow2(|s|) - 1 - Value(s)
  {
    if s != [] {
      assert Xor(s, ones)[1..] == Xor(s[1..], ones[1..]);
      ComplementValue(s[1..], ones[1..]);
    }
  }

  lemma OnesValue(ones: Reg)
    requires forall i | 0 <= i < 16 :: ones[i]
    ensures Value(ones) == 0xFFFF && Pow2(16) == 0x1_0000
  {
    assert Pow2(4) == 16;
    assert Pow2(8) == 0x100;
    assert Pow2(12) == 0x1000;
    assert Pow2(16) == 0x1_0000;
    assert Xor(Zeros(16), ones) == ones;
    ComplementValue(Zeros(16), ones);
    ZerosValue(16);
  }

  lemma {:induction false} ZerosValue(n: nat)
    ensures Value(Zeros(n)) == 0
  {
    if n > 0 {
      assert Zeros(n)[1..] == Zeros(n - 1);
      ZerosValue(n - 1);
    }
  }

  /** crcITU in arithmetic alone: start at 0xFFFF, feed the bits, subtract from 0xFFFF. */
  lemma SumInNumbers(data: bytes)
    ensures CrcITU(data) == 0xFFFF - RegisterWord(0xFFFF, data)
  {
    hide Value, Register, RegisterWord, Xor;
    OnesValue(ALL_ONES);
    RegisterIsWord(ALL_ONES, data);
    ComplementValue(Register(ALL_ONES, data), ALL_ONES);
  }

  lemma FeedTwice(n: word, b: nat, count: nat, m: word, l: word)
    requires count >= 2 && m == TurnWord(MixWord(n, b)) && l == TurnWord(MixWord(m, b / 2))
    ensures FeedWord(n, b, count) == FeedWord(l, b / 2 / 2, count - 2)
  {
    hide TurnWord, MixWord;
    assert FeedWord(n, b, count) == FeedWord(m, b / 2, count - 1);
  }

  /** Four turns, one by one. */
  lemma FourFed(n: word, b: nat, count: nat, n1: word, n2: word, n3: word, n4: word, rest: nat)
    requires count >= 4 && rest == b / 16
    requires n1 == TurnWord(MixWord(n, b)) && n2 == TurnWord(MixWord(n1, b / 2))
    requires n3 == TurnWord(MixWord(n2, b / 2 / 2)) && n4 == TurnWord(MixWord(n3, b / 2 / 2 / 2))
    ensures FeedWord(n, b, count) == FeedWord(n4, rest, count - 4)
  {
    hide TurnWord, MixWord, FeedWord;
    FeedTwice(n, b, count, n1, n2);
    FeedTwice(n2, b / 2 / 2, count - 2, n3, n4);
    assert b / 2 / 2 / 2 / 2 == rest;
  }

  lemma NothingFed(n: word, b: nat)
    ensures FeedWord(n, b, 0) == n
  {
  }

  lemma {:induction false} FeedWordAdds(n: word, m: nat, k: nat)
    ensures FeedWord(n, 0, m + k) == FeedWord(FeedWord(n, 0, m), 0, k)
    decreases m
  {
    hide TurnWord, MixWord;
    if m > 0 {
      FeedWordAdds(TurnWord(MixWord(n, 0)), m - 1, k);
    }
  }

  lemma Digits1To3()
    ensures FeedWord(0xFFFF, 0x31, 8) == 0x2F8D && FeedWord(0x2F8D, 0x32, 8) == 0x4D53 && FeedWord(0x4D53, 0x33, 8) == 0x634B
  {
    hide FeedWord;
    FourFed(0xFFFF, 0x31, 8, 0x7FFF, 0xBBF7, 0xD9F3, 0xE8F1, 3);
    FourFed(0xE8F1, 3, 4, 0x7478, 0xBE34, 0x5F1A, 0x2F8D, 0);
    NothingFed(0x2F8D, 0);
    FourFed(0x2F8D, 0x32, 8, 0x93CE, 0xCDEF, 0xE2FF, 0xF577, 3);
    FourFed(0xF577, 3, 4, 0x7ABB, 0x3D5D, 0x9AA6, 0x4D53, 0);
    NothingFed(0x4D53, 0);
    FourFed(0x4D53, 0x33, 8, 0x26A9, 0x1354, 0x09AA, 0x04D5, 3);
    FourFed(0x04D5, 3, 4, 0x026A, 0x853D, 0xC696, 0x634B, 0);
    NothingFed(0x634B, 0);
  }

  lemma Digits4To6()
    ensures FeedWord(0x634B, 0x34, 8) == 0x8B13 && FeedWord(0x8B13, 0x35, 8) == 0x44BF && FeedWord(0x44BF, 0x36, 8) == 0x198D
  {
    hide FeedWord;
    FourFed(0x634B, 0x34, 8, 0xB5AD, 0xDEDE, 0xEB67, 0xF1BB, 3);
    FourFed(0xF1BB, 3, 4, 0x78DD, 0x3C6E, 0x1E37, 0x8B13, 0);
    NothingFed(0x8B13, 0);
    FourFed(0x8B13, 0x35, 8, 0x4589, 0xA6CC, 0xD76E, 0x6BB7, 3);
    FourFed(0x6BB7, 3, 4, 0x35DB, 0x1AED, 0x897E, 0x44BF, 0);
    NothingFed(0x44BF, 0);
    FourFed(0x44BF, 0x36, 8, 0xA657, 0x532B, 0x2995, 0x90C2, 3);
    FourFed(0x90C2, 3, 4, 0xCC69, 0x6634, 0x331A, 0x198D, 0);
    NothingFed(0x198D, 0);
  }

  lemma Digits7To9()
    ensures FeedWord(0x198D, 0x37, 8) == 0x1AC8 && FeedWord(0x1AC8, 0x38, 8) == 0xF795 && FeedWord(0xF795, 0x39, 8) == 0x6F91
  {
    hide FeedWord;
    FourFed(0x198D, 0x37, 8, 0x0CC6, 0x826B, 0x4135, 0xA492, 3);
    FourFed(0xA492, 3, 4, 0xD641, 0x6B20, 0x3590, 0x1AC8, 0);
    NothingFed(0x1AC8, 0);
    FourFed(0x1AC8, 0x38, 8, 0x0D64, 0x06B2, 0x0359, 0x01AC, 3);
    FourFed(0x01AC, 3, 4, 0x84DE, 0xC667, 0xE73B, 0xF795, 0);
    NothingFed(0xF795, 0);
    FourFed(0xF795, 0x39, 8, 0x7BCA, 0x3DE5, 0x9AFA, 0xC975, 3);
    FourFed(0xC975, 3, 4, 0x64BA, 0xB655, 0xDF22, 0x6F91, 0);
    NothingFed(0x6F91, 0);
  }

  /** The check value of the standard: the checksum of the nine digits "123456789". */
  lemma CheckValue()
    ensures CrcITU([0x31, 0x32, 0x33, 0x34, 0x35, 0x36, 0x37, 0x38, 0x39]) == 0x906E
  {
    hide CrcITU, FeedWord;
    var d: bytes := [0x31, 0x32, 0x33, 0x34, 0x35, 0x36, 0x37, 0x38, 0x39];
    SumInNumbers(d);
    Digits1To3();
    Digits4To6();
    Digits7To9();
    assert RegisterWord(0xFFFF, d) == RegisterWord(0x2F8D, d[1..]);
    assert RegisterWord(0x2F8D, d[1..]) == RegisterWord(0x4D53, d[2..]);
    assert RegisterWord(0x4D53, d[2..]) == RegisterWord(0x634B, d[3..]);
    assert RegisterWord(0x634B, d[3..]) == RegisterWord(0x8B13, d[4..]);
    assert RegisterWord(0x8B13, d[4..]) == RegisterWord(0x44BF, d[5..]);
    assert RegisterWord(0x44BF, d[5..]) == RegisterWord(0x198D, d[6..]);
    assert RegisterWord(0x198D, d[6..]) == RegisterWord(0x1AC8, d[7..]);
    assert RegisterWord(0x1AC8, d[7..]) == RegisterWord(0xF795, d[8..]);
    assert RegisterWord(0xF795, d[8..]) == RegisterWord(0x6F91, d[9..]);
  }

  /**
    Running over the data and then its own checksum, low byte first, from all ones, always ends at 0xF0B8:
    the good final value of Appendix C.2 of RFC 1662, in that order of the two bytes. (The frames of gt06
    carry the high byte first.)
   */
  lemma ResidueIsGood(data: bytes)
    ensures var sum := CrcITU(data);
      Value(Register([true, true, true, true, true, true, true, true, true, true, true, true, true, true, true, true],
                     data + [sum % 0x100, sum / 0x100])) == 0xF0B8
  {
    hide Turns, Register, CrcITU, Value;
    ResidueIsConstant(data);
    TurnsInNumbers();
  }

  lemma TurnsInNumbers()
    ensures Value(Turns(ALL_ONES, 16)) == 0xF0B8
  {
    hide Feed, Value, Turns, FeedWord;
    OnesValue(ALL_ONES);
    FeedZeros(ALL_ONES, 16);
    ZeroBits(16);
    FeedIsWord(ALL_ONES, 0, 16);
    FourFed(0xFFFF, 0x00, 8, 0xFBF7, 0xF9F3, 0xF8F1, 0xF870, 0);
    FourFed(0xF870, 0, 4, 0x7C38, 0x3E1C, 0x1F0E, 0x0F87, 0);
    NothingFed(0x0F87, 0);
    FourFed(0x0F87, 0x00, 8, 0x83CB, 0xC5ED, 0xE6FE, 0x737F, 0);
    FourFed(0x737F, 0, 4, 0xBDB7, 0xDAD3, 0xE961, 0xF0B8, 0);
    NothingFed(0xF0B8, 0);
    FeedWordAdds(0xFFFF, 8, 8);
  }

  lemma {:induction false} ZeroBits(n: nat)
    ensures BitsOf(0, n) == Zeros(n)
  {
    if n > 0 {
      ZeroBits(n - 1);
    }
  }

  // ---- What the checksum detects ----

  lemma {:induction false} BitsOfValue(s: Bits)
    ensures BitsOf(Value(s), |s|) == s
  {
    if s != [] {
      BitsOfValue(s[1..]);
      var v := Value(s);
      assert v % 2 == (if s[0] then 1 else 0) && v / 2 == Value(s[1..]);
      assert s == [s[0]] + s[1..];
    }
  }

  /** The checksums of two inputs of one length differ by what their difference feeds to a zero register. */
  lemma SumDifference(a: bytes, b: bytes)
    requires |a| == |b|
    ensures Xor(BitsOf(CrcITU(a), 16), BitsOf(CrcITU(b), 16))
      == Feed(Zeros(16), Xor(MessageBits(a), MessageBits(b)))
  {
    hide Feed, Register, MessageBits, Value, BitsOf;
    var ra, rb := Register(ALL_ONES, a), Register(ALL_ONES, b);
    RegisterFeedsBits(ALL_ONES, a);
    RegisterFeedsBits(ALL_ONES, b);
    FeedXor(ALL_ONES, ALL_ONES, MessageBits(a), MessageBits(b));
    XorCancels(ALL_ONES, ALL_ONES, ALL_ONES);
    XorCancels(ra, rb, ALL_ONES);
    BitsOfValue(Xor(ra, ALL_ONES));
    BitsOfValue(Xor(rb, ALL_ONES));
  }

  /** Two inputs of one length collide exactly when their difference feeds a zero register to zero. */
  lemma CollisionIff(a: bytes, b: bytes)
    requires |a| == |b|
    ensures CrcITU(a) == CrcITU(b)
      <==> Feed(Zeros(16), Xor(MessageBits(a), MessageBits(b))) == Zeros(16)
  {
    hide CrcITU, Feed, MessageBits, BitsOf;
    SumDifference(a, b);
    XorCancels(BitsOf(CrcITU(a), 16), BitsOf(CrcITU(b), 16), Zeros(16));
    WordBitsInjective(CrcITU(a), CrcITU(b));
  }

  lemma WordBitsInjective(v: word, w: word)
    ensures BitsOf(v, 16) == BitsOf(w, 16) ==> v == w
  {
    hide BitsOf, Value;
    assert Pow2(4) == 16;
    assert Pow2(8) == 0x100;
    assert Pow2(12) == 0x1000;
    assert Pow2(16) == 0x1_0000;
    ValueOfBits(v, 16);
    ValueOfBits(w, 16);
  }

  /** A set bit 7 in the last byte alone changes the checksum by the generator. */
  lemma LastBitFeedsGenerator(n: nat)
    ensures Feed(Zeros(16), Zeros(n) + [true]) == POLYNOMIAL
  {
    hide Turns, Turn;
    FeedConcat(Zeros(16), Zeros(n), [true]);
    FeedZeros(Zeros(16), n);
    TurnsOfZero(n);
    var c: Reg := MixBit(Zeros(16), true);
    assert Feed(c, []) == c;
    assert [true][1..] == [];
    assert Feed(Zeros(16), [true]) == Feed(Turn(c), []);
    OneTurnsToGenerator(c);
  }

  lemma OneTurnsToGenerator(c: Reg)
    requires c == Zeros(16)[0 := true]
    ensures Turn(c) == POLYNOMIAL
  {
    hide POLYNOMIAL;
    assert c[1..] + [false] == Zeros(16);
  }

  lemma {:induction false} TopBit(b: nat, n: nat)
    requires n > 0 && b < Pow2(n - 1)
    ensures BitsOf(b + Pow2(n - 1), n) == BitsOf(b, n)[n - 1 := true] && !BitsOf(b, n)[n - 1]
    decreases n
  {
    if n > 1 {
      TopBit(b / 2, n - 1);
      assert (b + Pow2(n - 1)) / 2 == b / 2 + Pow2(n - 2) && (b + Pow2(n - 1)) % 2 == b % 2;
    }
  }

  lemma {:induction false} MessageBitsSnoc(data: bytes, b: byte)
    ensures MessageBits(data + [b]) == MessageBits(data) + ByteBits(b)
  {
    hide ByteBits;
    if data == [] {
      assert [b][1..] == [] && ByteBits(b) + [] == ByteBits(b);
    } else {
      assert (data + [b])[1..] == data[1..] + [b];
      MessageBitsSnoc(data[1..], b);
    }
  }

  /** Two inputs that differ in bit 7 of their last byte have checksums that differ by the generator, 0x8408. */
  lemma LastBitShows(data: bytes, b: byte)
    requires b < 0x80
    ensures Xor(BitsOf(CrcITU(data + [b]), 16), BitsOf(CrcITU(data + [b + 0x80]), 16)) == POLYNOMIAL
  {
    hide CrcITU, Feed, MessageBits, BitsOf, POLYNOMIAL;
    var c: byte := b + 0x80;
    assert Pow2(3) == 8 && Pow2(7) == 0x80 by {
      assert Pow2(5) == 32;
    }
    TopBit(b, 8);
    MessageBitsSnoc(data, b);
    MessageBitsSnoc(data, c);
    SumDifference(data + [b], data + [c]);
    var n := 8 * |data| + 7;
    assert Xor(MessageBits(data + [b]), MessageBits(data + [c])) == Zeros(n) + [true];
    LastBitFeedsGenerator(n);
  }

  /** Whether an odd number of bits are set. */
  function Parity(s: Bits): bool {
    if s == [] then false else s[0] != Parity(s[1..])
  }

  lemma {:induction false} ParityXor(a: Bits, b: Bits)
    requires |a| == |b|
    ensures Parity(Xor(a, b)) == (Parity(a) != Parity(b))
  {
    if a != [] {
      assert Xor(a, b)[1..] == Xor(a[1..], b[1..]);
      ParityXor(a[1..], b[1..]);
    }
  }

  lemma {:induction false} ParityConcat(a: Bits, b: Bits)
    ensures Parity(a + b) == (Parity(a) != Parity(b))
  {
    if a == [] {
      assert a + b == b;
    } else {
      assert (a + b)[1..] == a[1..] + b;
      ParityConcat(a[1..], b);
    }
  }

  lemma {:induction false} ParityZeros(n: nat)
    ensures !Parity(Zeros(n))
  {
    if n > 0 {
      assert Zeros(n)[1..] == Zeros(n - 1);
      ParityZeros(n - 1);
    }
  }

  /** With the bit that falls out the generator has four terms, so a turn keeps the parity. */
  lemma TurnKeepsParity(c: Reg)
    ensures Parity(Turn(c)) == Parity(c)
  {
    var shifted := c[1..] + [false];
    ParityConcat(c[1..], [false]);
    if c[0] {
      ParityXor(shifted, POLYNOMIAL);
      PolynomialIsOdd();
    }
  }

  lemma PolynomialTerms()
    ensures POLYNOMIAL == (Zeros(3) + [true]) + ((Zeros(6) + [true]) + (Zeros(4) + [true]))
  {
  }

  lemma ParityOfOne(n: nat)
    ensures Parity(Zeros(n) + [true])
  {
    ParityZeros(n);
    ParityConcat(Zeros(n), [true]);
  }

  lemma PolynomialIsOdd()
    ensures Parity(POLYNOMIAL)
  {
    hide Parity, Zeros, POLYNOMIAL;
    var one, two, three := Zeros(3) + [true], Zeros(6) + [true], Zeros(4) + [true];
    PolynomialTerms();
    ParityOfOne(3);
    ParityOfOne(6);
    ParityOfOne(4);
    ParityConcat(two, three);
    ParityConcat(one, two + three);
  }

  lemma {:induction false} FeedParity(c: Reg, s: Bits)
    ensures Parity(Feed(c, s)) == (Parity(c) != Parity(s))
    decreases |s|
  {
    hide Turn;
    if s != [] {
      TurnKeepsParity(MixBit(c, s[0]));
      assert MixBit(c, s[0]) == [c[0] != s[0]] + c[1..];
      FeedParity(Turn(MixBit(c, s[0])), s[1..]);
    }
  }

  /** Damage that flips an odd number of bits, however spread out, changes the checksum. */
  lemma OddDamageChangesCrc(a: bytes, b: bytes)
    requires |a| == |b| && Parity(MessageBits(a)) != Parity(MessageBits(b))
    ensures CrcITU(a) != CrcITU(b)
  {
    hide CrcITU, Feed, Xor, MessageBits, Parity;
    var d := Xor(MessageBits(a), MessageBits(b));
    ParityXor(MessageBits(a), MessageBits(b));
    ParityZeros(16);
    FeedParity(Zeros(16), d);
    CollisionIff(a, b);
  }

  /** Bit `k` of the input, least significant bit of each byte first. */
  predicate Bit(data: bytes, k: nat)
    requires k < 8 * |data|
  {
    ByteBits(data[k / 8])[k % 8]
  }

  lemma {:induction false} BitOfMessage(data: bytes, k: nat)
    requires k < 8 * |data|
    ensures MessageBits(data)[k] == Bit(data, k)
    decreases |data|
  {
    hide ByteBits;
    if k >= 8 {
      BitOfMessage(data[1..], k - 8);
      assert data[1..][(k - 8) / 8] == data[k / 8];
    }
  }

  lemma {:induction false} MessageBitsInjective(a: bytes, b: bytes)
    requires |a| == |b| && MessageBits(a) == MessageBits(b)
    ensures a == b
    decreases |a|
  {
    if a != [] {
      assert MessageBits(a)[..8] == ByteBits(a[0]) && MessageBits(b)[..8] == ByteBits(b[0]);
      assert MessageBits(a)[8..] == MessageBits(a[1..]) && MessageBits(b)[8..] == MessageBits(b[1..]);
      ByteBitsInjective(a[0], b[0]);
      MessageBitsInjective(a[1..], b[1..]);
      assert a == [a[0]] + a[1..] && b == [b[0]] + b[1..];
    }
  }

  /** The two inputs agree outside the 16 consecutive bits that start at `w`. */
  ghost predicate DifferOnlyInWindow(a: bytes, b: bytes, w: nat)
    requires |a| == |b|
  {
    forall k: nat | k < 8 * |a| && !(w <= k < w + 16) :: Bit(a, k) == Bit(b, k)
  }

  /** A nonzero string of at most 16 bits, fed to a zero register, leaves it nonzero. */
  lemma BurstLeavesTrace(burst: Bits, i: nat)
    requires |burst| <= 16 && i < |burst| && burst[i]
    ensures Feed(Zeros(16), burst) != Zeros(16)
  {
    var padded: Reg := burst + Zeros(16 - |burst|);
    assert Xor(Zeros(16), padded) == padded;
    FeedIsMixThenTurn(Zeros(16), burst);
    assert padded[i];
    TurnsKeepNonZero(padded, |burst|);
  }

  /** Zeros before the burst do nothing, zeros after it cannot hide it. */
  lemma ZerosAroundBurst(d: Bits, w: nat, burst: Bits, n: nat)
    requires d == Zeros(w) + burst + Zeros(n)
    requires Feed(Zeros(16), burst) != Zeros(16)
    ensures Feed(Zeros(16), d) != Zeros(16)
  {
    FeedConcat(Zeros(16), Zeros(w) + burst, Zeros(n));
    FeedConcat(Zeros(16), Zeros(w), burst);
    FeedZeros(Zeros(16), w);
    TurnsOfZero(w);
    FeedZeros(Feed(Zeros(16), burst), n);
    TurnsKeepNonZero(Feed(Zeros(16), burst), n);
  }

  /** Every burst of up to 16 consecutive bits changes the checksum. */
  lemma BurstChangesCrc(a: bytes, b: bytes, w: nat)
    requires |a| == |b| && a != b
    requires DifferOnlyInWindow(a, b, w)
    ensures CrcITU(a) != CrcITU(b)
  {
    var d := Xor(MessageBits(a), MessageBits(b));
    DifferenceShows(a, b);
    var i: nat :| i < |d| && d[i];
    forall k: nat | k < |d| && !(w <= k < w + 16) ensures !d[k] {
      BitOfMessage(a, k);
      BitOfMessage(b, k);
      assert Bit(a, k) == Bit(b, k);
    }
    BurstInZeros(d, w, if w + 16 < |d| then w + 16 else |d|, i);
    CollisionIff(a, b);
  }

  lemma BurstInZeros(d: Bits, w: nat, to: nat, i: nat)
    requires w <= i < to <= |d| && to - w <= 16 && d[i]
    requires forall k: nat | k < |d| && !(w <= k < to) :: !d[k]
    ensures Feed(Zeros(16), d) != Zeros(16)
  {
    hide Feed, Turn, Turns, Zeros;
    BurstLeavesTrace(d[w..to], i - w);
    CutOutBurst(d, w, to);
    ZerosAroundBurst(d, w, d[w..to], |d| - to);
  }

  lemma CutOutBurst(d: Bits, w: nat, to: nat)
    requires w <= to <= |d|
    requires forall k: nat | k < |d| && !(w <= k < to) :: !d[k]
    ensures d == Zeros(w) + d[w..to] + Zeros(|d| - to)
  {
  }

  lemma DifferenceShows(a: bytes, b: bytes)
    requires |a| == |b| && a != b
    ensures exists i :: 0 <= i < 8 * |a| && Xor(MessageBits(a), MessageBits(b))[i]
  {
    var x, y := MessageBits(a), MessageBits(b);
    if x == y {
      MessageBitsInjective(a, b);
    } else {
      var i :| 0 <= i < |x| && x[i] != y[i];
      assert Xor(x, y)[i];
    }
  }
}
