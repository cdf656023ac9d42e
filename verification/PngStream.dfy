/** The byte stream that the encoder produces, its size, and the proof that the decoder gets
    the image back. */
module PngStream {
  import opened Bytes
  import opened Options
  import opened PngFormat

  // ---------- the stream ----------

  function ChunkBytes(tag: seq<byte>, data: seq<byte>): (s: seq<byte>)
    requires |tag| == 4 && |data| <= INT_MAX
    ensures |s| == 12 + |data|
  {
    Be32(|data|) + (tag + data) + Be32(Crc32(tag + data))
  }

  function Header(w: u32, h: u32): (s: seq<byte>)
    ensures |s| == 13
  {
    Be32(w) + Be32(h) + [8, 0, 0, 0, 0]
  }

  // Rows of w pixels, each after a filter byte 0.
  function Scanlines(w: nat, h: nat, px: seq<byte>): (s: seq<byte>)
    requires |px| == w * h
    ensures |s| == (w + 1) * h
    decreases h
  {
    if h == 0 then []
    else
      RowSize(w, h);
      [0] + px[..w] + Scanlines(w, h - 1, px[w..])
  }

  lemma RowSize(w: nat, h: nat)
    requires h > 0
    ensures w * h == w + w * (h - 1) && (w + 1) * h == w + 1 + (w + 1) * (h - 1)
  {
  }

  function BlockHeader(final: bool, n: nat): (s: seq<byte>)
    requires n <= STORED_MAX
    ensures |s| == 5
  {
    [if final then 1 else 0] + Le16(n) + Le16(0xFFFF - n)
  }

  // Without data there is not even a final block.
  function Blocks(raw: seq<byte>): seq<byte>
    decreases |raw|
  {
    if raw == [] then []
    else if |raw| <= STORED_MAX then BlockHeader(true, |raw|) + raw
    else BlockHeader(false, STORED_MAX) + raw[..STORED_MAX] + Blocks(raw[STORED_MAX..])
  }

  function ZlibStream(raw: seq<byte>): seq<byte> {
    [0x78, 0x01] + Blocks(raw) + Be32(Adler32(raw))
  }

  function Chunks(hd: seq<byte>, z: seq<byte>): (s: seq<byte>)
    requires |hd| <= INT_MAX && |z| <= INT_MAX
    ensures |s| == 36 + |hd| + |z|
  {
    ChunkBytes(IHDR, hd) + (ChunkBytes(IDAT, z) + ChunkBytes(IEND, []))
  }

  function Png(w: u16, h: u16, px: seq<byte>): seq<byte>
    requires |px| == w as int * h as int && |ZlibStream(Scanlines(w, h, px))| <= INT_MAX
  {
    SIGNATURE + Chunks(Header(w, h), ZlibStream(Scanlines(w, h, px)))
  }

  // The scanlines of a picture of two rows of two pixels, and the zlib stream that holds them.
  lemma TwoByTwoScanlines(px: seq<byte>, raw: seq<byte>)
    requires px == [0x10, 0x20, 0x30, 0x40] && raw == [0, 0x10, 0x20, 0, 0x30, 0x40]
    ensures Scanlines(2, 2, px) == raw && Adler32(raw) == 0x0176_00A1
  {
    assert px[2..] == [0x30, 0x40];
    assert Scanlines(2, 0, px[2..][2..]) == [];
    assert Scanlines(2, 1, px[2..]) == [0, 0x30, 0x40];
    SumsOfThree(0, 0x10, 0x20);
    SumsOfThree(0, 0x30, 0x40);
    SumsJoin([0, 0x10, 0x20], [0, 0x30, 0x40]);
    assert raw == [0, 0x10, 0x20] + [0, 0x30, 0x40];
  }

  lemma TwoByTwoData(raw: seq<byte>)
    requires raw == [0, 0x10, 0x20, 0, 0x30, 0x40] && Adler32(raw) == 0x0176_00A1
    ensures ZlibStream(raw) == [0x78, 0x01, 1, 6, 0, 0xF9, 0xFF] + raw + [0x01, 0x76, 0x00, 0xA1]
  {
    hide Adler32;
    assert Be32(0x0176_00A1) == [0x01, 0x76, 0x00, 0xA1];
    assert Blocks(raw) == [1, 6, 0, 0xF9, 0xFF] + raw;
  }

  /** A picture of two rows of two pixels, byte by byte. */
  lemma TwoByTwo(px: seq<byte>, head: seq<byte>, data: seq<byte>)
    requires px == [0x10, 0x20, 0x30, 0x40]
    requires head == [0x49, 0x48, 0x44, 0x52, 0, 0, 0, 2, 0, 0, 0, 2, 8, 0, 0, 0, 0]
    requires data == [0x49, 0x44, 0x41, 0x54] + ([0x78, 0x01, 1, 6, 0, 0xF9, 0xFF]
                     + [0, 0x10, 0x20, 0, 0x30, 0x40] + [0x01, 0x76, 0x00, 0xA1])
    ensures |ZlibStream(Scanlines(2, 2, px))| <= INT_MAX
    ensures Png(2, 2, px) == [0x89, 0x50, 0x4E, 0x47, 0x0D, 0x0A, 0x1A, 0x0A]
      + ([0, 0, 0, 13] + head + Be32(Crc32(head))
         + ([0, 0, 0, 17] + data + Be32(Crc32(data))
            + ([0, 0, 0, 0] + [0x49, 0x45, 0x4E, 0x44] + Be32(Crc32([0x49, 0x45, 0x4E, 0x44])))))
  {
    TwoByTwoScanlines(px, [0, 0x10, 0x20, 0, 0x30, 0x40]);
    TwoByTwoData([0, 0x10, 0x20, 0, 0x30, 0x40]);
    Be32OfSizes();
    assert IEND + [] == IEND;
    hide Crc32, Adler32, Scanlines, ZlibStream, Be32;
    assert IHDR + Header(2, 2) == head;
  }

  lemma Be32OfSizes()
    ensures Be32(0) == [0, 0, 0, 0] && Be32(2) == [0, 0, 0, 2] && Be32(13) == [0, 0, 0, 13] && Be32(17) == [0, 0, 0, 17]
  {
  }

  // ---------- its size ----------

  function BlockCount(n: nat): nat {
    if n == 0 then 0 else if n <= STORED_MAX then 1 else 1 + BlockCount(n - STORED_MAX)
  }

  lemma {:induction false} BlocksSize(raw: seq<byte>)
    ensures |Blocks(raw)| == |raw| + 5 * BlockCount(|raw|)
    decreases |raw|
  {
    if |raw| > STORED_MAX {
      BlocksSize(raw[STORED_MAX..]);
    }
  }

  // One block for every started 65535 bytes.
  lemma {:induction false} BlockCountIsCeiling(n: nat)
    ensures BlockCount(n) == (n + STORED_MAX - 1) / STORED_MAX
    decreases n
  {
    if n > STORED_MAX {
      BlockCountIsCeiling(n - STORED_MAX);
    }
  }

  function PngSize(w: nat, h: nat): nat {
    63 + (w + 1) * h + 5 * BlockCount((w + 1) * h)
  }

  lemma PngSizeIs(w: u16, h: u16, px: seq<byte>)
    requires |px| == w as int * h as int
    ensures |ZlibStream(Scanlines(w, h, px))| == PngSize(w, h) - 57
    ensures |ZlibStream(Scanlines(w, h, px))| <= INT_MAX ==> |Png(w, h, px)| == PngSize(w, h)
  {
    BlocksSize(Scanlines(w, h, px));
  }

  /** The advertised worst-case size is enough exactly when there are at most 13 blocks. */
  lemma MaxSizeSuffices(w: nat, h: nat)
    ensures PngSize(w, h) <= w * h + h + 128 <==> ((w + 1) * h + 65534) / 65535 <= 13
  {
    assert (w + 1) * h == w * h + h;
    BlockCountIsCeiling((w + 1) * h);
  }

  // ---------- the decoder gets it back ----------

  lemma ParseOneChunk(tag: seq<byte>, data: seq<byte>, rest: seq<byte>)
    requires |tag| == 4 && |data| <= INT_MAX && ParseChunks(rest).Some?
    ensures ParseChunks(ChunkBytes(tag, data) + rest) == Some([Chunk(tag, data)] + ParseChunks(rest).value)
  {
    hide Crc32, GetBe32, Be32;
    var s, n := ChunkBytes(tag, data) + rest, |data|;
    ChunkReads(tag, data, rest);
    assert s[12 + n..] == rest;
    assert ParseChunks(s) == match ParseChunks(s[12 + n..])
      case None => None
      case Some(cs) => Some([Chunk(s[4..8], s[8..8 + n])] + cs);
  }

  lemma ChunkReads(tag: seq<byte>, data: seq<byte>, rest: seq<byte>)
    requires |tag| == 4 && |data| <= INT_MAX
    ensures var s, n := ChunkBytes(tag, data) + rest, |data|;
      && GetBe32(s, 0) == n && s[4..8] == tag && s[8..8 + n] == data
      && s[4..8 + n] == tag + data && GetBe32(s, 8 + n) == Crc32(tag + data)
  {
    hide Crc32, GetBe32, Be32;
    var s, n := ChunkBytes(tag, data) + rest, |data|;
    assert s[0..4] == Be32(n);
    Be32At(n, s, 0);
    assert s[4..8 + n] == tag + data;
    assert s[8 + n..8 + n + 4] == Be32(Crc32(tag + data));
    Be32At(Crc32(tag + data), s, 8 + n);
  }

  lemma BlockHeaderReads(final: bool, n: nat, rest: seq<byte>)
    requires n <= STORED_MAX
    ensures var s := BlockHeader(final, n) + rest;
      s[0] == (if final then 1 else 0) && GetLe16(s, 1) == n && GetLe16(s, 3) == 0xFFFF - n && s[5..] == rest
  {
    var hd, s := BlockHeader(final, n), BlockHeader(final, n) + rest;
    assert s[1..3] == hd[1..3] == Le16(n);
    assert s[3..5] == hd[3..5] == Le16(0xFFFF - n);
    Le16At(n, s, 1);
    Le16At(0xFFFF - n, s, 3);
  }

  lemma SplitAfter(s: seq<byte>, k: nat, a: seq<byte>, b: seq<byte>)
    requires k <= |s| && s[k..] == a + b
    ensures s[k..k + |a|] == a && s[k + |a|..] == b
  {
    assert s[k..k + |a|] == s[k..][..|a|] && s[k + |a|..] == s[k..][|a|..];
  }

  lemma InflateFinal(block: seq<byte>, after: seq<byte>)
    requires |block| <= STORED_MAX
    ensures InflateStored(BlockHeader(true, |block|) + (block + after)) == Some((block, after))
  {
    hide GetLe16, BlockHeader;
    BlockHeaderReads(true, |block|, block + after);
    SplitAfter(BlockHeader(true, |block|) + (block + after), 5, block, after);
  }

  lemma InflateMore(block: seq<byte>, rest: seq<byte>, data: seq<byte>, after: seq<byte>)
    requires |block| <= STORED_MAX && InflateStored(rest) == Some((data, after))
    ensures InflateStored(BlockHeader(false, |block|) + (block + rest)) == Some((block + data, after))
  {
    hide GetLe16, BlockHeader;
    var s, n := BlockHeader(false, |block|) + (block + rest), |block|;
    BlockHeaderReads(false, n, block + rest);
    SplitAfter(s, 5, block, rest);
    assert |s| == 5 + n + |rest|;
    assert InflateStored(s) == match InflateStored(s[5 + n..])
      case None => None
      case Some((d, a)) => Some((s[5..5 + n] + d, a));
  }

  lemma {:induction false} InflateBlocks(raw: seq<byte>, after: seq<byte>)
    requires raw != []
    ensures InflateStored(Blocks(raw) + after) == Some((raw, after))
    decreases |raw|
  {
    hide InflateStored, BlockHeader;
    if |raw| <= STORED_MAX {
      assert Blocks(raw) + after == BlockHeader(true, |raw|) + (raw + after);
      InflateFinal(raw, after);
    } else {
      var block, more := raw[..STORED_MAX], raw[STORED_MAX..];
      assert Blocks(raw) + after == BlockHeader(false, |block|) + (block + (Blocks(more) + after));
      InflateBlocks(more, after);
      InflateMore(block, Blocks(more) + after, more, after);
      assert block + more == raw;
    }
  }

  lemma InflateWhole(raw: seq<byte>)
    requires raw != []
    ensures InflateZlib(ZlibStream(raw)) == Some(raw)
  {
    hide Adler32, Blocks, InflateStored, GetBe32, Be32;
    var s, check := ZlibStream(raw), Be32(Adler32(raw));
    assert s == [0x78, 0x01] + (Blocks(raw) + check);
    assert s[0] == 0x78 && s[1] == 0x01;
    assert s[2..] == Blocks(raw) + check;
    InflateBlocks(raw, check);
    assert check[0..4] == check;
    Be32At(Adler32(raw), check, 0);
  }

  lemma {:induction false} UnfilterScanlines(w: nat, h: nat, px: seq<byte>)
    requires |px| == w * h
    ensures Unfilter(w, h, Scanlines(w, h, px)) == Some(px)
    decreases h
  {
    if h > 0 {
      RowSize(w, h);
      var s := Scanlines(w, h, px);
      assert s[1..w + 1] == px[..w] && s[w + 1..] == Scanlines(w, h - 1, px[w..]);
      UnfilterScanlines(w, h - 1, px[w..]);
      assert px[..w] + px[w..] == px;
    }
  }

  lemma ParseThree(hd: seq<byte>, z: seq<byte>)
    requires |hd| <= INT_MAX && |z| <= INT_MAX
    ensures ParseChunks(Chunks(hd, z)) == Some([Chunk(IHDR, hd), Chunk(IDAT, z), Chunk(IEND, [])])
  {
    NoChunks();
    hide ChunkBytes, ParseChunks;
    assert ChunkBytes(IEND, []) + [] == ChunkBytes(IEND, []);
    ParseOneChunk(IEND, [], []);
    assert [Chunk(IEND, [])] + [] == [Chunk(IEND, [])];
    ParseOneChunk(IDAT, z, ChunkBytes(IEND, []));
    assert [Chunk(IDAT, z)] + [Chunk(IEND, [])] == [Chunk(IDAT, z), Chunk(IEND, [])];
    ParseOneChunk(IHDR, hd, ChunkBytes(IDAT, z) + ChunkBytes(IEND, []));
    assert [Chunk(IHDR, hd)] + [Chunk(IDAT, z), Chunk(IEND, [])] == [Chunk(IHDR, hd), Chunk(IDAT, z), Chunk(IEND, [])];
  }

  lemma NoChunks()
    ensures ParseChunks([]) == Some([])
  {
  }

  lemma JoinOne(z: seq<byte>)
    ensures JoinData([Chunk(IDAT, z)]) == Some(z)
  {
    assert [Chunk(IDAT, z)][1..] == [];
    assert JoinData([]) == Some([]);
    assert z + [] == z;
  }

  lemma HeaderFields(w: u32, h: u32)
    ensures GetBe32(Header(w, h), 0) == w && GetBe32(Header(w, h), 4) == h && Header(w, h)[8..] == [8, 0, 0, 0, 0]
  {
    Be32At(w, Header(w, h), 0);
    Be32At(h, Header(w, h), 4);
  }

  // What the decoder makes of a header, one data chunk and an end chunk.
  lemma DecodeThree(s: seq<byte>, w: u32, h: u32, z: seq<byte>, raw: seq<byte>, px: seq<byte>)
    requires 0 < w <= INT_MAX && 0 < h <= INT_MAX && |s| >= 8 && s[..8] == SIGNATURE
    requires ParseChunks(s[8..]) == Some([Chunk(IHDR, Header(w, h)), Chunk(IDAT, z), Chunk(IEND, [])])
    requires InflateZlib(z) == Some(raw) && Unfilter(w, h, raw) == Some(px)
    ensures Decode(s) == Some(Image(w, h, px))
  {
    hide ParseChunks, InflateZlib, Unfilter, Header, GetBe32, JoinData;
    HeaderFields(w, h);
    JoinOne(z);
    var cs := [Chunk(IHDR, Header(w, h)), Chunk(IDAT, z), Chunk(IEND, [])];
    assert cs[1..|cs| - 1] == [Chunk(IDAT, z)];
  }

  /** For every image of at least one pixel whose stream fits in an int, the independent
      decoder accepts the encoder's output and returns the same width, height and pixels. */
  lemma RoundTrip(w: u16, h: u16, px: seq<byte>)
    requires w > 0 && h > 0 && |px| == w as int * h as int && PngSize(w, h) <= INT_MAX
    ensures |ZlibStream(Scanlines(w, h, px))| <= INT_MAX && Decode(Png(w, h, px)) == Some(Image(w, h, px))
  {
    PngSizeIs(w, h, px);
    SomeScanlines(w, h, px);
    hide ParseChunks, Chunks, InflateZlib, ZlibStream, Unfilter, Scanlines, Decode;
    var raw, s := Scanlines(w, h, px), Png(w, h, px);
    var body := Chunks(Header(w, h), ZlibStream(raw));
    assert s[..8] == SIGNATURE && s[8..] == body;
    ParseThree(Header(w, h), ZlibStream(raw));
    InflateWhole(raw);
    UnfilterScanlines(w, h, px);
    DecodeThree(s, w, h, ZlibStream(raw), raw, px);
  }

  lemma SomeScanlines(w: nat, h: nat, px: seq<byte>)
    requires h > 0 && |px| == w * h
    ensures Scanlines(w, h, px) != []
  {
    RowSize(w, h);
  }

  /** The encoder's output is a picture if and only if it has a pixel: without one the decoder
      rejects it. */
  lemma DecodesIff(w: u16, h: u16, px: seq<byte>)
    requires |px| == w as int * h as int && PngSize(w, h) <= INT_MAX
    ensures |ZlibStream(Scanlines(w, h, px))| <= INT_MAX
    ensures Decode(Png(w, h, px)) == if w > 0 && h > 0 then Some(Image(w, h, px)) else None
  {
    PngSizeIs(w, h, px);
    if w > 0 && h > 0 {
      RoundTrip(w, h, px);
    } else {
      HeaderFields(w, h);
      hide ParseChunks, Chunks, InflateZlib, ZlibStream, Unfilter, Scanlines, Header, GetBe32;
      var s := Png(w, h, px);
      assert s[..8] == SIGNATURE && s[8..] == Chunks(Header(w, h), ZlibStream(Scanlines(w, h, px)));
      ParseThree(Header(w, h), ZlibStream(Scanlines(w, h, px)));
    }
  }
}
