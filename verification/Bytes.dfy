/** Bytes, machine words, byte-order conversions and the IEEE CRC-32.

    Bytes and words are bounded integers, so that a wrap-around has to be written
    out where the source relies on one. */
module Bytes {

  const U16_MAX: int := 0xFFFF
  const U32_MAX: int := 0xFFFF_FFFF

  type byte = x: int | 0 <= x < 0x100
  type u16 = x: int | 0 <= x <= U16_MAX
  type u32 = x: int | 0 <= x <= U32_MAX

  // A record, or a line's payload.
  type Rec = seq<byte>

  // ---------- byte order ----------

  function Le16(v: u16): (s: seq<byte>)
    ensures |s| == 2
  {
    [v % 0x100, v / 0x100]
  }

  function Le32(v: u32): (s: seq<byte>)
    ensures |s| == 4
  {
    [v % 0x100, v / 0x100 % 0x100, v / 0x1_0000 % 0x100, v / 0x100_0000]
  }

  function Be32(v: u32): (s: seq<byte>)
    ensures |s| == 4
  {
    [v / 0x100_0000, v / 0x1_0000 % 0x100, v / 0x100 % 0x100, v % 0x100]
  }

  // The word with these four bytes, least significant first.
  function Word(b0: byte, b1: byte, b2: byte, b3: byte): u32 {
    b0 as int + 0x100 * (b1 as int) + 0x1_0000 * (b2 as int) + 0x100_0000 * (b3 as int)
  }

  lemma WordOfDigits(v: u32)
    ensures Word(v % 0x100, v / 0x100 % 0x100, v / 0x1_0000 % 0x100, v / 0x100_0000) == v
  {
    assert v / 0x1_0000 == v / 0x100 / 0x100;
    assert v / 0x100_0000 == v / 0x100 / 0x100 / 0x100;
  }

  lemma LowDigit(a: byte, u: nat, b: byte, v: nat)
    ensures a + 0x100 * u == b + 0x100 * v <==> a == b && u == v
  {
  }

  lemma SameDigits(a0: byte, a1: byte, a2: byte, a3: byte, b0: byte, b1: byte, b2: byte, b3: byte)
    ensures Word(a0, a1, a2, a3) == Word(b0, b1, b2, b3) <==> a0 == b0 && a1 == b1 && a2 == b2 && a3 == b3
  {
    LowDigit(a0, a1 + 0x100 * (a2 + 0x100 * a3), b0, b1 + 0x100 * (b2 + 0x100 * b3));
    LowDigit(a1, a2 + 0x100 * a3, b1, b2 + 0x100 * b3);
    LowDigit(a2, a3, b2, b3);
  }

  function GetLe16(s: seq<byte>, off: nat): u16
    requires off + 2 <= |s|
  {
    s[off] as int + 0x100 * (s[off + 1] as int)
  }

  function GetLe32(s: seq<byte>, off: nat): u32
    requires off + 4 <= |s|
  {
    Word(s[off], s[off + 1], s[off + 2], s[off + 3])
  }

  function GetBe32(s: seq<byte>, off: nat): u32
    requires off + 4 <= |s|
  {
    Word(s[off + 3], s[off + 2], s[off + 1], s[off])
  }

  // A word written at `off` is the word read back from `off`.
  lemma Le16At(v: u16, s: seq<byte>, off: nat)
    requires off + 2 <= |s| && s[off..off + 2] == Le16(v)
    ensures GetLe16(s, off) == v
  {
    assert s[off] == s[off..off + 2][0] && s[off + 1] == s[off..off + 2][1];
  }

  lemma Le32At(v: u32, s: seq<byte>, off: nat)
    requires off + 4 <= |s| && s[off..off + 4] == Le32(v)
    ensures GetLe32(s, off) == v
  {
    var t := s[off..off + 4];
    WordOfDigits(v);
    assert s[off] == t[0] && s[off + 1] == t[1] && s[off + 2] == t[2] && s[off + 3] == t[3];
  }

  lemma Be32At(v: u32, s: seq<byte>, off: nat)
    requires off + 4 <= |s| && s[off..off + 4] == Be32(v)
    ensures GetBe32(s, off) == v
  {
    var t := s[off..off + 4];
    WordOfDigits(v);
    assert s[off] == t[0] && s[off + 1] == t[1] && s[off + 2] == t[2] && s[off + 3] == t[3];
  }

  // Two bytes, or four, are read as v exactly when they are the encoding of v.
  lemma Le16Iff(v: u16, s: seq<byte>, off: nat)
    requires off + 2 <= |s|
    ensures GetLe16(s, off) == v <==> s[off..off + 2] == Le16(v)
  {
    if GetLe16(s, off) == v {
      LowDigit(s[off], s[off + 1], v % 0x100, v / 0x100);
      assert s[off..off + 2] == [s[off], s[off + 1]];
    } else if s[off..off + 2] == Le16(v) {
      Le16At(v, s, off);
    }
  }

  lemma Le32Iff(v: u32, s: seq<byte>, off: nat)
    requires off + 4 <= |s|
    ensures GetLe32(s, off) == v <==> s[off..off + 4] == Le32(v)
  {
    if GetLe32(s, off) == v {
      WordOfDigits(v);
      SameDigits(s[off], s[off + 1], s[off + 2], s[off + 3],
                 v % 0x100, v / 0x100 % 0x100, v / 0x1_0000 % 0x100, v / 0x100_0000);
      assert s[off..off + 4] == [s[off], s[off + 1], s[off + 2], s[off + 3]];
    } else if s[off..off + 4] == Le32(v) {
      Le32At(v, s, off);
    }
  }

  // A word with one byte altered is another word.
  lemma AlteredWord(s: seq<byte>, off: nat, i: nat, x: byte)
    requires off + 4 <= |s| && off <= i < off + 4 && x != s[i]
    ensures GetLe32(s[i := x], off) != GetLe32(s, off)
  {
    var t := s[i := x];
    SameDigits(s[off], s[off + 1], s[off + 2], s[off + 3], t[off], t[off + 1], t[off + 2], t[off + 3]);
  }

  /** The two byte orders, spelled out. */
  lemma ByteOrders(s: seq<byte>)
    requires s == [0x12, 0x34, 0x56, 0x78]
    ensures Le16(0x3412) == s[..2] && Le32(0x7856_3412) == s && Be32(0x1234_5678) == s
    ensures GetLe16(s, 0) == 0x3412 && GetLe32(s, 0) == 0x7856_3412 && GetBe32(s, 0) == 0x1234_5678
  {
  }

  // ---------- blocks of equal bytes ----------

  function Fill(b: byte, n: nat): (s: seq<byte>)
    ensures |s| == n && forall i :: 0 <= i < n ==> s[i] == b
  {
    seq(n, _ => b)
  }

  // ---------- text ----------

  // A string of 7-bit characters as bytes.
  function Ascii(text: string): (s: seq<byte>)
    ensures |s| == |text|
  {
    seq(|text|, i requires 0 <= i < |text| => text[i] as int % 0x80)
  }

  // ---------- IEEE CRC-32 (reflected, polynomial 0xEDB8_8320) ----------

  function CrcBits(c: bv32, k: nat): bv32
    decreases k
  {
    if k == 0 then c
    else CrcBits(if c & 1 == 1 then (c >> 1) ^ 0xEDB8_8320 else c >> 1, k - 1)
  }

  function Bit(one: bool, value: bv32): bv32 {
    if one then value else 0
  }

  // A hexadecimal digit as the low four bits of a register.
  function Nibble(n: nat): bv32
    requires n < 16
  {
    Bit(n / 8 == 1, 8) | Bit(n / 4 % 2 == 1, 4) | Bit(n / 2 % 2 == 1, 2) | Bit(n % 2 == 1, 1)
  }

  // A byte as the low eight bits.
  function Bits(b: byte): bv32 {
    (Nibble(b / 16) << 4) | Nibble(b % 16)
  }

  function CrcFeed(c: bv32, s: seq<byte>): bv32
    decreases |s|
  {
    if |s| == 0 then c else CrcFeed(CrcBits(c ^ Bits(s[0]), 8), s[1..])
  }

  function Unsigned(c: bv32): u32 {
    c as int
  }

  function Crc32(s: seq<byte>): u32 {
    Unsigned(CrcFeed(0xFFFF_FFFF, s) ^ 0xFFFF_FFFF)
  }

  // One byte, given what it does to the register.
  lemma FeedByte(c: bv32, b: byte, x: bv32, s: seq<byte>, next: bv32)
    requires s != [] && s[0] == b && Bits(b) == x && CrcBits(c ^ x, 8) == next
    ensures CrcFeed(c, s) == CrcFeed(next, s[1..])
  {
    hide CrcBits, Bits;
  }

  // The register after each byte of the check string.
  lemma Registers()
    ensures CrcBits(0xFFFF_FFFF ^ 0x31, 8) == 0x7C23_1048
    ensures CrcBits(0x7C23_1048 ^ 0x32, 8) == 0xB0AC_BB32
    ensures CrcBits(0xB0AC_BB32 ^ 0x33, 8) == 0x77B7_9C2D
    ensures CrcBits(0x77B7_9C2D ^ 0x34, 8) == 0x641C_1F5C
    ensures CrcBits(0x641C_1F5C ^ 0x35, 8) == 0x340A_C5E3
    ensures CrcBits(0x340A_C5E3 ^ 0x36, 8) == 0xF68D_2C9E
    ensures CrcBits(0xF68D_2C9E ^ 0x37, 8) == 0xAFFC_9660
    ensures CrcBits(0xAFFC_9660 ^ 0x38, 8) == 0x651F_2550
    ensures CrcBits(0x651F_2550 ^ 0x39, 8) == 0x340B_C6D9
  {
  }

  lemma Digits()
    ensures Bits(0x31) == 0x31 && Bits(0x32) == 0x32 && Bits(0x33) == 0x33
    ensures Bits(0x34) == 0x34 && Bits(0x35) == 0x35 && Bits(0x36) == 0x36
    ensures Bits(0x37) == 0x37 && Bits(0x38) == 0x38 && Bits(0x39) == 0x39
  {
  }

  lemma FeedNothing(c: bv32, s: seq<byte>)
    requires s == []
    ensures CrcFeed(c, s) == c
  {
  }

  lemma FeedFirstFive(s: seq<byte>)
    requires |s| == 9 && s[..5] == [0x31, 0x32, 0x33, 0x34, 0x35]
    ensures CrcFeed(0xFFFF_FFFF, s) == CrcFeed(0x340A_C5E3, s[5..])
  {
    Registers();
    Digits();
    hide CrcBits, CrcFeed, Bits;
    assert s[0..] == s;
    assert forall i :: 0 <= i < 5 ==> s[i] == s[..5][i];
    FeedByte(0xFFFF_FFFF, 0x31, 0x31, s[0..], 0x7C23_1048);
    FeedByte(0x7C23_1048, 0x32, 0x32, s[1..], 0xB0AC_BB32);
    FeedByte(0xB0AC_BB32, 0x33, 0x33, s[2..], 0x77B7_9C2D);
    FeedByte(0x77B7_9C2D, 0x34, 0x34, s[3..], 0x641C_1F5C);
    FeedByte(0x641C_1F5C, 0x35, 0x35, s[4..], 0x340A_C5E3);
  }

  lemma FeedLastFour(s: seq<byte>)
    requires s == [0x36, 0x37, 0x38, 0x39]
    ensures CrcFeed(0x340A_C5E3, s) == 0x340B_C6D9
  {
    Registers();
    Digits();
    hide CrcBits, CrcFeed, Bits;
    assert s[0..] == s;
    FeedByte(0x340A_C5E3, 0x36, 0x36, s[0..], 0xF68D_2C9E);
    FeedByte(0xF68D_2C9E, 0x37, 0x37, s[1..], 0xAFFC_9660);
    FeedByte(0xAFFC_9660, 0x38, 0x38, s[2..], 0x651F_2550);
    FeedByte(0x651F_2550, 0x39, 0x39, s[3..], 0x340B_C6D9);
    FeedNothing(0x340B_C6D9, s[4..]);
  }

  /** The standard check value of the IEEE CRC-32, over "123456789". */
  lemma CrcCheckValue()
    ensures Crc32([0x31, 0x32, 0x33, 0x34, 0x35, 0x36, 0x37, 0x38, 0x39]) == 0xCBF4_3926
  {
    Complement();
    hide CrcBits, CrcFeed, Bits, Unsigned;
    var s: seq<byte> := [0x31, 0x32, 0x33, 0x34, 0x35, 0x36, 0x37, 0x38, 0x39];
    FeedFirstFive(s);
    FeedLastFour(s[5..]);
  }

  lemma Complement()
    ensures Unsigned(0x340B_C6D9 ^ 0xFFFF_FFFF) == 0xCBF4_3926
  {
  }
}
