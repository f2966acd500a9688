/** Byte strings as text: trimming, digits and hexadecimal. */
module Text {
  import opened Bytes

  const COMMA: byte := 0x2C
  const HASH: byte := 0x23

  predicate IsSpace(c: byte) {
    c == 0x20 || 0x09 <= c <= 0x0D
  }

  predicate IsPrintable(c: byte) {
    0x20 <= c <= 0x7E
  }

  predicate IsDigit(c: byte) {
    0x30 <= c <= 0x39
  }

  predicate AllDigits(s: bytes) {
    forall i | 0 <= i < |s| :: IsDigit(s[i])
  }

  predicate IsAlphanumeric(c: byte) {
    IsDigit(c) || 0x41 <= c <= 0x5A || 0x61 <= c <= 0x7A
  }

  function TrimLeft(s: bytes): (t: bytes)
    ensures |t| <= |s| && t == s[|s| - |t|..]
    ensures t != [] ==> !IsSpace(t[0])
    ensures s != [] && !IsSpace(s[0]) ==> t == s
  {
    if s != [] && IsSpace(s[0]) then TrimLeft(s[1..]) else s
  }

  function TrimRight(s: bytes): (t: bytes)
    ensures |t| <= |s| && t == s[..|t|]
    ensures t != [] ==> !IsSpace(t[|t| - 1])
  {
    if s != [] && IsSpace(s[|s| - 1]) then TrimRight(s[..|s| - 1]) else s
  }

  /** strings.TrimSpace on ASCII. */
  function Trim(s: bytes): bytes {
    TrimRight(TrimLeft(s))
  }

  lemma TrimNothing(s: bytes)
    requires s != [] ==> !IsSpace(s[0]) && !IsSpace(s[|s| - 1])
    ensures Trim(s) == s
  {
    assert TrimLeft(s) == s;
  }

  /** Blank, tab, line feed, vertical tab, form feed and carriage return. */
  predicate Blanks(s: bytes) {
    forall i | 0 <= i < |s| :: s[i] == 32 || s[i] == 9 || s[i] == 10 || s[i] == 11 || s[i] == 12 || s[i] == 13
  }

  /** Trimming takes exactly the blanks off both ends. */
  lemma TrimExactly(a: bytes, m: bytes, b: bytes)
    requires Blanks(a) && Blanks(b)
    requires m != [] ==> !Blanks([m[0]]) && !Blanks([m[|m| - 1]])
    ensures Trim(a + m + b) == m
  {
    if m == [] {
      assert a + m + b == (a + b) + [];
      TrimLeftBlanks(a + b, []);
    } else {
      assert a + m + b == a + (m + b);
      assert !IsSpace(m[0]) && !IsSpace(m[|m| - 1]) by {
        assert [m[0]][0] == m[0] && [m[|m| - 1]][0] == m[|m| - 1];
      }
      TrimLeftBlanks(a, m + b);
      TrimRightBlanks(m, b);
    }
  }

  lemma {:induction false} TrimLeftBlanks(a: bytes, rest: bytes)
    requires Blanks(a) && (rest != [] ==> !IsSpace(rest[0]))
    ensures TrimLeft(a + rest) == rest
  {
    if a == [] {
      assert a + rest == rest;
    } else {
      assert IsSpace(a[0]) && (a + rest)[1..] == a[1..] + rest;
      TrimLeftBlanks(a[1..], rest);
    }
  }

  lemma {:induction false} TrimRightBlanks(m: bytes, b: bytes)
    requires Blanks(b) && (m != [] ==> !IsSpace(m[|m| - 1]))
    ensures TrimRight(m + b) == m
  {
    if b == [] {
      assert m + b == m;
    } else {
      var n := |b| - 1;
      assert IsSpace(b[n]) && (m + b)[..|m| + n] == m + b[..n];
      TrimRightBlanks(m, b[..n]);
    }
  }

  /** One lower-case hexadecimal digit. */
  function HexDigit(n: nat): byte
    requires n < 16
  {
    if n < 10 then 0x30 + n else 0x61 + n - 10
  }

  /** Two hexadecimal digits a byte, high nibble first. */
  function Hex(b: bytes): (s: bytes)
    ensures |s| == 2 * |b|
  {
    seq(2 * |b|, i requires 0 <= i < 2 * |b| => HexDigit(Nibble(b, i)))
  }

  /** Nibble `i` of a byte string, high nibble first. */
  function Nibble(b: bytes, i: nat): nat
    requires i < 2 * |b|
    ensures Nibble(b, i) < 16
  {
    if i % 2 == 0 then b[i / 2] / 16 else b[i / 2] % 16
  }

  type nibble = n: int | 0 <= n < 16

  function Nibbles(b: bytes): (ns: seq<nibble>)
    ensures |ns| == 2 * |b|
  {
    seq(2 * |b|, i requires 0 <= i < 2 * |b| => Nibble(b, i))
  }

  /** Two nibbles a byte, the first in the high half. */
  function Pack(ns: seq<nibble>): (b: bytes)
    requires |ns| % 2 == 0
    ensures |b| == |ns| / 2
  {
    seq(|ns| / 2, i requires 0 <= i < |ns| / 2 => PackByte(ns[2 * i], ns[2 * i + 1]))
  }

  function PackByte(high: nibble, low: nibble): (b: byte)
    ensures b / 16 == high && b % 16 == low
  {
    16 * high + low
  }

  lemma NibblesOfPack(ns: seq<nibble>)
    requires |ns| % 2 == 0
    ensures Nibbles(Pack(ns)) == ns
  {
    hide PackByte;
    forall i | 0 <= i < |ns| ensures Nibble(Pack(ns), i) == ns[i] {
      assert Pack(ns)[i / 2] == PackByte(ns[i / 2 * 2], ns[i / 2 * 2 + 1]);
    }
  }

  lemma HalvesOfByte(b: bytes, i: nat)
    requires i < |b|
    ensures PackByte(Nibble(b, 2 * i), Nibble(b, 2 * i + 1)) == b[i]
  {
  }

  lemma PackOfNibbles(b: bytes)
    ensures Pack(Nibbles(b)) == b
  {
    hide Nibble, PackByte;
    forall i | 0 <= i < |b| ensures Pack(Nibbles(b))[i] == b[i] {
      HalvesOfByte(b, i);
    }
  }

  /** A digit string as BCD, two digits a byte. */
  function PackDigits(s: bytes): (b: bytes)
    requires AllDigits(s) && |s| % 2 == 0
    ensures |b| == |s| / 2
  {
    Pack(seq(|s|, i requires 0 <= i < |s| => DigitValue(s[i])))
  }

  lemma HexOfPacked(s: bytes)
    requires AllDigits(s) && |s| % 2 == 0
    ensures Hex(PackDigits(s)) == s
  {
    hide Pack, Nibble;
    var ns: seq<nibble> := seq(|s|, i requires 0 <= i < |s| => DigitValue(s[i]));
    var b := Pack(ns);
    NibblesOfPack(ns);
    forall i | 0 <= i < |s| ensures Hex(b)[i] == s[i] {
      assert Nibbles(b)[i] == DigitValue(s[i]);
    }
  }

  lemma PackedOfHex(b: bytes)
    requires AllDigits(Hex(b))
    ensures PackDigits(Hex(b)) == b
  {
    hide Pack, Nibble;
    var s := Hex(b);
    var ns: seq<nibble> := seq(|s|, i requires 0 <= i < |s| => DigitValue(s[i]));
    PackOfNibbles(b);
    forall i | 0 <= i < |s| ensures ns[i] == Nibbles(b)[i] {
      assert s[i] == HexDigit(Nibble(b, i));
    }
    assert ns == Nibbles(b);
  }

  /** The decimal digits of a number. */
  function Decimal(n: nat): (s: bytes)
    ensures |s| > 0 && AllDigits(s)
  {
    if n < 10 then [0x30 + n] else Decimal(n / 10) + [0x30 + n % 10]
  }

  function DigitValue(c: byte): nat
    requires IsDigit(c)
  {
    c - 0x30
  }

  /** The number a digit string stands for. */
  function DigitsValue(s: bytes): (n: nat)
    requires AllDigits(s)
  {
    if s == [] then 0 else 10 * DigitsValue(s[..|s| - 1]) + DigitValue(s[|s| - 1])
  }

  lemma {:induction false} DecimalRoundTrip(n: nat)
    ensures DigitsValue(Decimal(n)) == n
  {
    if n < 10 {
      assert Decimal(n)[..0] == [];
    } else {
      var s := Decimal(n);
      assert s[..|s| - 1] == Decimal(n / 10);
      DecimalRoundTrip(n / 10);
    }
  }

  lemma {:induction false} DecimalLength(n: nat, digits: nat)
    requires n < Pow10(digits) && digits > 0
    ensures |Decimal(n)| <= digits
    decreases digits
  {
    if n >= 10 {
      DecimalLength(n / 10, digits - 1);
    }
  }

  function Pow10(n: nat): nat {
    if n == 0 then 1 else 10 * Pow10(n - 1)
  }

  // ---- Searching for a byte ----

  /** The fields of a comma-separated text. */
  function Split(s: bytes): (fields: seq<bytes>)
    ensures |fields| >= 1
  {
    if s == [] then [[]]
    else
      var rest := Split(s[1..]);
      if s[0] == COMMA then [[]] + rest else [[s[0]] + rest[0]] + rest[1..]
  }

  /** A field ends at the first comma. */
  lemma {:induction false} SplitField(w: bytes, s: bytes)
    requires COMMA !in w
    ensures Split(w) == [w]
    ensures Split(w + [COMMA] + s) == [w] + Split(s)
  {
    var t := w + [COMMA] + s;
    if w == [] {
      assert t[1..] == s;
    } else {
      SplitField(w[1..], s);
      assert t[1..] == w[1..] + [COMMA] + s;
      assert [w[0]] + w[1..] == w;
    }
  }

  function IndexOf(buf: bytes, target: byte): (i: int)
    ensures -1 <= i < |buf|
  {
    if buf == [] then -1
    else if buf[0] == target then 0
    else
      var i := IndexOf(buf[1..], target);
      if i < 0 then -1 else i + 1
  }

  lemma {:induction false} FirstIsIndexOf(terminator: byte, buf: bytes, i: nat)
    requires i <= |buf| && (forall k | 0 <= k < i :: buf[k] != terminator)
    requires i < |buf| ==> buf[i] == terminator
    ensures IndexOf(buf, terminator) == if i < |buf| then i else -1
  {
    if i > 0 {
      FirstIsIndexOf(terminator, buf[1..], i - 1);
    }
  }

  lemma {:induction false} IndexInConcat(terminator: byte, a: bytes, b: bytes)
    ensures IndexOf(a + b, terminator) ==
      if IndexOf(a, terminator) >= 0 then IndexOf(a, terminator)
      else if IndexOf(b, terminator) >= 0 then |a| + IndexOf(b, terminator)
      else -1
  {
    if a == [] {
      assert a + b == b;
    } else {
      assert (a + b)[1..] == a[1..] + b;
      IndexInConcat(terminator, a[1..], b);
    }
  }

  lemma {:induction false} IndexMeans(terminator: byte, s: bytes)
    requires IndexOf(s, terminator) >= 0
    ensures var i := IndexOf(s, terminator); s[i] == terminator && forall k | 0 <= k < i :: s[k] != terminator
  {
    if s[0] != terminator {
      IndexMeans(terminator, s[1..]);
      forall k | 0 <= k < IndexOf(s, terminator) ensures s[k] != terminator {
        assert k > 0 ==> s[k] == s[1..][k - 1];
      }
    }
  }
}
