/** The PNG container as the standards define it, and a decoder that knows nothing of the
    encoder: PNG Specification (Second Edition) sections 5.2, 5.3, 9.2, 11.2.2, 11.2.4 and
    11.2.5, RFC 1950 section 2.2 and RFC 1951 section 3.2.4.

    The decoder reads 8-bit grayscale images without interlacing whose data is in stored
    blocks and whose scanlines are unfiltered; it rejects everything else. */
module PngFormat {
  import opened Bytes
  import opened Options

  const SIGNATURE: seq<byte> := [0x89, 0x50, 0x4E, 0x47, 0x0D, 0x0A, 0x1A, 0x0A]
  const IHDR: seq<byte> := [0x49, 0x48, 0x44, 0x52]
  const IDAT: seq<byte> := [0x49, 0x44, 0x41, 0x54]
  const IEND: seq<byte> := [0x49, 0x45, 0x4E, 0x44]

  const INT_MAX := 0x7FFF_FFFF
  const STORED_MAX := 65535
  const ADLER_MOD := 65521

  datatype Image = Image(w: nat, h: nat, pixels: seq<byte>)

  // ---------- chunks ----------

  datatype Chunk = Chunk(tag: seq<byte>, data: seq<byte>)

  function ParseChunks(s: seq<byte>): Option<seq<Chunk>>
    decreases |s|
  {
    if s == [] then Some([])
    else if |s| < 12 then None
    else
      var n := GetBe32(s, 0);
      if n > INT_MAX || |s| < 12 + n then None
      else if GetBe32(s, 8 + n) != Crc32(s[4..8 + n]) then None
      else
        match ParseChunks(s[12 + n..])
        case None => None
        case Some(rest) => Some([Chunk(s[4..8], s[8..8 + n])] + rest)
  }

  // The data of consecutive IDAT chunks, joined.
  function JoinData(cs: seq<Chunk>): Option<seq<byte>> {
    if cs == [] then Some([])
    else if cs[0].tag != IDAT then None
    else
      match JoinData(cs[1..])
      case None => None
      case Some(rest) => Some(cs[0].data + rest)
  }

  // ---------- zlib and stored deflate blocks ----------

  // The data of stored blocks up to and including the first final one, and what follows it.
  function InflateStored(s: seq<byte>): Option<(seq<byte>, seq<byte>)>
    decreases |s|
  {
    if |s| < 5 || s[0] / 2 % 4 != 0 then None
    else
      var n := GetLe16(s, 1);
      if n as int + GetLe16(s, 3) as int != 0xFFFF || |s| < 5 + n then None
      else if s[0] % 2 == 1 then Some((s[5..5 + n], s[5 + n..]))
      else
        match InflateStored(s[5 + n..])
        case None => None
        case Some((rest, after)) => Some((s[5..5 + n] + rest, after))
  }

  // The two Adler-32 sums, before they are reduced.
  function SumA(s: seq<byte>): nat {
    if s == [] then 1 else SumA(s[..|s| - 1]) + s[|s| - 1]
  }

  function SumB(s: seq<byte>): nat {
    if s == [] then 0 else SumB(s[..|s| - 1]) + SumA(s)
  }

  function Adler32(s: seq<byte>): u32 {
    SumB(s) % ADLER_MOD * 0x1_0000 + SumA(s) % ADLER_MOD
  }

  // n (n + 1) / 2, the weight of a stretch of n equal bytes.
  lemma Triangle(b: byte, n: nat)
    requires n > 0
    ensures b * (n * (n + 1) / 2) == b * ((n - 1) * n / 2) + n * b
    ensures n * b == (n - 1) * b + b
  {
    var t := (n - 1) * n / 2;
    assert n * (n + 1) == (n - 1) * n + 2 * n;
    assert n * (n + 1) / 2 == t + n;
    assert b * (t + n) == b * t + b * n;
  }

  lemma {:induction false} SumsOfFill(b: byte, n: nat)
    ensures SumA(Fill(b, n)) == 1 + n * b
    ensures SumB(Fill(b, n)) == n + b * (n * (n + 1) / 2)
  {
    if n > 0 {
      var s := Fill(b, n);
      assert s[..n - 1] == Fill(b, n - 1);
      assert SumA(s) == SumA(s[..n - 1]) + b && SumB(s) == SumB(s[..n - 1]) + SumA(s);
      hide SumA, SumB;
      SumsOfFill(b, n - 1);
      Triangle(b, n);
    }
  }

  /** The sums of two stretches, as RFC 1950 lets them be combined. */
  lemma {:induction false} SumsJoin(a: seq<byte>, b: seq<byte>)
    ensures SumA(a + b) == SumA(a) + SumA(b) - 1
    ensures SumB(a + b) == SumB(a) + |b| * (SumA(a) - 1) + SumB(b)
  {
    if b == [] {
      assert a + b == a;
    } else {
      var b' := b[..|b| - 1];
      assert (a + b)[..|a + b| - 1] == a + b';
      assert SumA(a + b) == SumA(a + b') + b[|b| - 1] && SumB(a + b) == SumB(a + b') + SumA(a + b);
      assert SumA(b) == SumA(b') + b[|b| - 1] && SumB(b) == SumB(b') + SumA(b);
      hide SumA, SumB;
      SumsJoin(a, b');
      assert |b| * (SumA(a) - 1) == |b'| * (SumA(a) - 1) + (SumA(a) - 1);
    }
  }

  /** The Adler-32 of a white line of 320 pixels: both sums exceed the modulus. */
  lemma AdlerOfWhiteLine()
    ensures Adler32([0] + Fill(0xFF, 320)) == 0xE44A_3ED0
  {
    SumsOfFill(0xFF, 320);
    SumsOfFill(0, 1);
    assert Fill(0, 1) == [0];
    SumsJoin([0], Fill(0xFF, 320));
  }

  /** The standard check value of Adler-32, over "123456789". */
  lemma AdlerCheckValue()
    ensures Adler32([0x31, 0x32, 0x33, 0x34, 0x35, 0x36, 0x37, 0x38, 0x39]) == 0x091E_01DE
  {
    var s: seq<byte> := [0x31, 0x32, 0x33, 0x34, 0x35, 0x36, 0x37, 0x38, 0x39];
    SumsOfThree(0x31, 0x32, 0x33);
    SumsOfThree(0x34, 0x35, 0x36);
    SumsOfThree(0x37, 0x38, 0x39);
    SumsJoin([0x31, 0x32, 0x33], [0x34, 0x35, 0x36]);
    SumsJoin([0x31, 0x32, 0x33] + [0x34, 0x35, 0x36], [0x37, 0x38, 0x39]);
    assert [0x31, 0x32, 0x33] + [0x34, 0x35, 0x36] + [0x37, 0x38, 0x39] == s;
  }

  lemma SumsOfThree(a: byte, b: byte, c: byte)
    ensures SumA([a, b, c]) == 1 + a + b + c && SumB([a, b, c]) == 3 + 3 * a + 2 * b + c
  {
    SumsOfFill(a, 1);
    SumsOfFill(b, 1);
    SumsOfFill(c, 1);
    assert Fill(a, 1) == [a] && Fill(b, 1) == [b] && Fill(c, 1) == [c];
    SumsJoin([a], [b]);
    SumsJoin([a] + [b], [c]);
    assert [a] + [b] + [c] == [a, b, c];
  }

  function InflateZlib(s: seq<byte>): Option<seq<byte>> {
    if |s| < 2 || s[0] % 16 != 8 || s[0] / 16 > 7 then None
    else if (s[0] as int * 0x100 + s[1] as int) % 31 != 0 || s[1] / 32 % 2 != 0 then None
    else
      match InflateStored(s[2..])
      case None => None
      case Some((data, check)) =>
        if |check| != 4 || GetBe32(check, 0) != Adler32(data) then None else Some(data)
  }

  // ---------- scanlines ----------

  // Pixels of h unfiltered scanlines of w pixels.
  function Unfilter(w: nat, h: nat, s: seq<byte>): Option<seq<byte>>
    decreases h
  {
    if h == 0 then (if s == [] then Some([]) else None)
    else if |s| < w + 1 || s[0] != 0 then None
    else
      match Unfilter(w, h - 1, s[w + 1..])
      case None => None
      case Some(rest) => Some(s[1..w + 1] + rest)
  }

  // ---------- the image ----------

  function Decode(s: seq<byte>): Option<Image> {
    if |s| < 8 || s[..8] != SIGNATURE then None
    else
      match ParseChunks(s[8..])
      case None => None
      case Some(cs) =>
        if |cs| < 3 || cs[0].tag != IHDR || |cs[0].data| != 13 || cs[|cs| - 1] != Chunk(IEND, []) then None
        else
          var hd := cs[0].data;
          var w, h := GetBe32(hd, 0), GetBe32(hd, 4);
          if w == 0 || h == 0 || w > INT_MAX || h > INT_MAX || hd[8..] != [8, 0, 0, 0, 0] then None
          else
            match JoinData(cs[1..|cs| - 1])
            case None => None
            case Some(z) =>
              match InflateZlib(z)
              case None => None
              case Some(raw) =>
                match Unfilter(w, h, raw)
                case None => None
                case Some(px) => Some(Image(w, h, px))
  }
}
