/** What the CRC-32 detects for certain: a stretch of at most one altered byte. */
module CrcDetection {
  import opened Bytes

  function Shifted(c: bv32): bv32 {
    if c & 1 == 1 then (c >> 1) ^ 0xEDB8_8320 else c >> 1
  }

  lemma ShiftedDiffers(a: bv32, b: bv32)
    requires a != b
    ensures Shifted(a) != Shifted(b)
  {
  }

  lemma BitsStep(c: bv32, k: nat)
    requires k > 0
    ensures CrcBits(c, k) == CrcBits(Shifted(c), k - 1)
  {
  }

  lemma {:induction false} BitsDiffer(a: bv32, b: bv32, k: nat)
    requires a != b
    ensures CrcBits(a, k) != CrcBits(b, k)
    decreases k
  {
    if k > 0 {
      BitsStep(a, k);
      BitsStep(b, k);
      ShiftedDiffers(a, b);
      hide CrcBits, Shifted;
      BitsDiffer(Shifted(a), Shifted(b), k - 1);
    }
  }

  lemma XorDiffers(a: bv32, b: bv32, x: bv32)
    requires a != b
    ensures a ^ x != b ^ x && x ^ a != x ^ b
  {
  }

  // The register after one more byte.
  function AfterByte(c: bv32, b: byte): bv32 {
    CrcBits(c ^ Bits(b), 8)
  }

  lemma AfterByteDiffers(a: bv32, b: bv32, x: byte)
    requires a != b
    ensures AfterByte(a, x) != AfterByte(b, x)
  {
    hide CrcBits, Bits;
    XorDiffers(a, b, Bits(x));
    BitsDiffer(a ^ Bits(x), b ^ Bits(x), 8);
  }

  lemma OtherByteDiffers(c: bv32, x: byte, y: byte)
    requires x != y
    ensures AfterByte(c, x) != AfterByte(c, y)
  {
    BitsDistinct(x, y);
    hide CrcBits, Bits;
    XorDiffers(Bits(x), Bits(y), c);
    BitsDiffer(c ^ Bits(x), c ^ Bits(y), 8);
  }

  lemma SameNibble(m: nat, n: nat)
    requires m < 16 && n < 16 && Nibble(m) == Nibble(n)
    ensures m == n
  {
    SameFour(m / 8 == 1, m / 4 % 2 == 1, m / 2 % 2 == 1, m % 2 == 1,
             n / 8 == 1, n / 4 % 2 == 1, n / 2 % 2 == 1, n % 2 == 1);
    hide Bit;
  }

  lemma SameFour(a3: bool, a2: bool, a1: bool, a0: bool, b3: bool, b2: bool, b1: bool, b0: bool)
    requires Bit(a3, 8) | Bit(a2, 4) | Bit(a1, 2) | Bit(a0, 1) == Bit(b3, 8) | Bit(b2, 4) | Bit(b1, 2) | Bit(b0, 1)
    ensures a3 == b3 && a2 == b2 && a1 == b1 && a0 == b0
  {
  }

  lemma FourAreSmall(a3: bool, a2: bool, a1: bool, a0: bool)
    ensures (Bit(a3, 8) | Bit(a2, 4) | Bit(a1, 2) | Bit(a0, 1)) & 0xFFFF_FFF0 == 0
  {
  }

  lemma NibbleIsSmall(n: nat)
    requires n < 16
    ensures Nibble(n) & 0xFFFF_FFF0 == 0
  {
    FourAreSmall(n / 8 == 1, n / 4 % 2 == 1, n / 2 % 2 == 1, n % 2 == 1);
    hide Bit;
  }

  lemma SameHalves(a: bv32, b: bv32, c: bv32, d: bv32)
    requires (a << 4) | b == (c << 4) | d
    requires a & 0xFFFF_FFF0 == 0 && b & 0xFFFF_FFF0 == 0 && c & 0xFFFF_FFF0 == 0 && d & 0xFFFF_FFF0 == 0
    ensures a == c && b == d
  {
  }

  lemma SameBits(x: byte, y: byte)
    requires Bits(x) == Bits(y)
    ensures x == y
  {
    NibbleIsSmall(x / 16);
    NibbleIsSmall(x % 16);
    NibbleIsSmall(y / 16);
    NibbleIsSmall(y % 16);
    hide Nibble;
    SameHalves(Nibble(x / 16), Nibble(x % 16), Nibble(y / 16), Nibble(y % 16));
    SameNibble(x / 16, y / 16);
    SameNibble(x % 16, y % 16);
  }

  lemma BitsDistinct(x: byte, y: byte)
    requires x != y
    ensures Bits(x) != Bits(y)
  {
    hide Bits;
    if Bits(x) == Bits(y) {
      SameBits(x, y);
    }
  }

  lemma FeedStep(c: bv32, s: seq<byte>)
    requires s != []
    ensures CrcFeed(c, s) == CrcFeed(AfterByte(c, s[0]), s[1..])
  {
    hide CrcBits, Bits;
  }

  lemma {:induction false} FeedDiffers(a: bv32, b: bv32, s: seq<byte>)
    requires a != b
    ensures CrcFeed(a, s) != CrcFeed(b, s)
    decreases |s|
  {
    if s == [] {
      FeedNothing(a, s);
      FeedNothing(b, s);
    } else {
      FeedStep(a, s);
      FeedStep(b, s);
      hide CrcFeed, AfterByte;
      AfterByteDiffers(a, b, s[0]);
      FeedDiffers(AfterByte(a, s[0]), AfterByte(b, s[0]), s[1..]);
    }
  }

  lemma {:induction false} FeedAltered(c: bv32, s: seq<byte>, i: nat, b: byte)
    requires i < |s| && b != s[i]
    ensures CrcFeed(c, s[i := b]) != CrcFeed(c, s)
    decreases |s|
  {
    var t := s[i := b];
    FeedStep(c, s);
    FeedStep(c, t);
    hide CrcFeed, AfterByte;
    if i == 0 {
      assert t[1..] == s[1..];
      OtherByteDiffers(c, s[0], b);
      FeedDiffers(AfterByte(c, b), AfterByte(c, s[0]), s[1..]);
    } else {
      assert t[1..] == s[1..][i - 1 := b];
      FeedAltered(AfterByte(c, s[0]), s[1..], i - 1, b);
    }
  }

  lemma UnsignedDiffers(a: bv32, b: bv32)
    requires a != b
    ensures Unsigned(a) != Unsigned(b)
  {
    assert (a as int) as bv32 == a;
    assert (b as int) as bv32 == b;
  }

  // The checksum for a final register.
  function Finish(c: bv32): u32 {
    Unsigned(c ^ 0xFFFF_FFFF)
  }

  lemma FinishDiffers(a: bv32, b: bv32)
    requires a != b
    ensures Finish(a) != Finish(b)
  {
    hide Unsigned;
    XorDiffers(a, b, 0xFFFF_FFFF);
    UnsignedDiffers(a ^ 0xFFFF_FFFF, b ^ 0xFFFF_FFFF);
  }

  lemma CrcIs(s: seq<byte>)
    ensures Crc32(s) == Finish(CrcFeed(0xFFFF_FFFF, s))
  {
    hide CrcFeed, Unsigned;
  }

  /** One altered byte, wherever it is and whatever it is changed to, alters the CRC-32. */
  lemma AlteredByteShows(s: seq<byte>, i: nat, b: byte)
    requires i < |s| && b != s[i]
    ensures Crc32(s[i := b]) != Crc32(s)
  {
    hide *;
    CrcIs(s);
    CrcIs(s[i := b]);
    FeedAltered(0xFFFF_FFFF, s, i, b);
    FinishDiffers(CrcFeed(0xFFFF_FFFF, s[i := b]), CrcFeed(0xFFFF_FFFF, s));
  }
}
