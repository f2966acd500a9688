/** Bytes and the big-endian integers the protocols are made of. */
module Bytes {

  type byte = b: int | 0 <= b < 0x100
  type word = w: int | 0 <= w < 0x1_0000
  type dword = d: int | 0 <= d < 0x1_0000_0000
  type bytes = seq<byte>

  /** Go's `byte(x)` of a non-negative integer: the low eight bits. */
  function Truncate8(x: nat): byte {
    x % 0x100
  }

  /** A bit of a flag word; `mask` is its weight. */
  predicate BitSet(flags: nat, mask: nat)
    requires mask > 0
  {
    flags / mask % 2 == 1
  }

  /** binary.BigEndian.AppendUint16 and Uint16. */
  function PutWord(w: word): bytes {
    [w / 0x100, w % 0x100]
  }

  function GetWord(b: bytes): word
    requires |b| >= 2
  {
    var high: int, low: int := b[0], b[1];
    high * 0x100 + low
  }

  /** binary.BigEndian.AppendUint32 and Uint32. */
  function PutDword(d: dword): bytes {
    PutWord(d / 0x1_0000) + PutWord(d % 0x1_0000)
  }

  function GetDword(b: bytes): dword
    requires |b| >= 4
  {
    var high: int, low: int := GetWord(b), GetWord(b[2..]);
    high * 0x1_0000 + low
  }

  /** Four bytes read as one number, the first the most significant. */
  function FourBytes(a: nat, b: nat, c: nat, d: nat): nat {
    0x100_0000 * a + 0x1_0000 * b + 0x100 * c + d
  }

  lemma DwordInBytes(g: bytes)
    requires |g| >= 4
    ensures GetDword(g) == FourBytes(g[0], g[1], g[2], g[3])
  {
  }

  lemma WordRoundTrip(w: word, rest: bytes)
    ensures |PutWord(w)| == 2 && GetWord(PutWord(w) + rest) == w
  {
  }

  lemma DwordRoundTrip(d: dword, rest: bytes)
    ensures |PutDword(d)| == 4 && GetDword(PutDword(d) + rest) == d
  {
    var high, low := PutWord(d / 0x1_0000), PutWord(d % 0x1_0000);
    assert PutDword(d) + rest == high + (low + rest);
    assert (PutDword(d) + rest)[2..] == low + rest;
  }
}
