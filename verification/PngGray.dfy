/** The grayscale PNG encoder in the form of its source: a writer with a sticky error over the
    caller's buffer, scanlines streamed byte by byte into stored blocks, Adler-32 kept
    incrementally, and the length of the data chunk patched in place at the end. */
module PngGray {
  import opened Bytes
  import opened PngFormat
  import opened PngStream

  const ENOMEM := 12

  class PngWriter {
    const buf: array<byte>
    const cap: nat
    var len: nat
    var err: int
    ghost var log: seq<byte>  // everything handed to the writer so far

    // Either all of the log is in the buffer, or it did not fit.
    ghost predicate Valid()
      reads this, buf
    {
      && cap <= buf.Length
      && (err == 0 ==> len == |log| <= cap && buf[..len] == log)
      && (err != 0 ==> err == -ENOMEM && |log| > cap)
    }

    constructor (out: array<byte>, outSize: nat)
      requires outSize <= out.Length
      ensures Valid() && buf == out && cap == outSize && err == 0 && log == []
    {
      buf, cap, len, err, log := out, outSize, 0, 0, [];
    }

    method PutBytes(data: seq<byte>)
      requires Valid()
      modifies this, buf
      ensures Valid() && log == old(log) + data && buf[cap..] == old(buf[cap..])
      ensures err == 0 ==> old(err) == 0
    {
      log := log + data;
      if err != 0 {
        return;
      }
      if len + |data| > cap {
        err := -ENOMEM;
        return;
      }
      ghost var before := buf[..];
      forall i | 0 <= i < |data| {
        buf[len + i] := data[i];
      }
      assert buf[..len] == before[..len];
      assert buf[len..len + |data|] == data;
      len := len + |data|;
      assert buf[..len] == buf[..len - |data|] + buf[len - |data|..len];
    }

    method PutBe32(v: u32)
      requires Valid()
      modifies this, buf
      ensures Valid() && log == old(log) + Be32(v) && buf[cap..] == old(buf[cap..])
      ensures err == 0 ==> old(err) == 0
    {
      PutBytes(Be32(v));
    }

    // After an error the checksum is not written, and need not be.
    method PutChunk(tag: seq<byte>, payload: seq<byte>)
      requires Valid() && |tag| == 4 && |payload| <= INT_MAX
      modifies this, buf
      ensures Valid() && buf[cap..] == old(buf[cap..])
      ensures err == 0 ==> old(err) == 0 && log == old(log) + ChunkBytes(tag, payload)
      ensures err != 0 ==> |old(log)| + 12 + |payload| > cap
      ensures |log| <= |old(log)| + 12 + |payload|
    {
      hide Crc32, Be32;
      PutBe32(|payload|);
      var crcStart := len;
      PutBytes(tag);
      PutBytes(payload);
      if err == 0 {
        assert buf[crcStart..crcStart + 4 + |payload|] == log[crcStart..] == tag + payload;
        PutBe32(Crc32(buf[crcStart..crcStart + 4 + |payload|]));
      }
    }

    // Overwrite four bytes already written.
    method PatchBe32(pos: nat, v: u32)
      requires Valid() && err == 0 && pos + 4 <= len
      modifies this`log, buf
      ensures Valid() && log == old(log[..pos]) + Be32(v) + old(log[pos + 4..]) && buf[cap..] == old(buf[cap..])
    {
      ghost var before := buf[..];
      forall i | 0 <= i < 4 {
        buf[pos + i] := Be32(v)[i];
      }
      log := log[..pos] + Be32(v) + log[pos + 4..];
      assert buf[..len] == log;
    }
  }

  // ---------- the pixel under the cursor ----------

  lemma Successor(r: nat, m: nat)
    requires r > 0
    ensures r * m == (r - 1) * m + m
  {
  }

  lemma NoRows(m: nat)
    ensures m * 0 == 0 && 0 * m == 0
  {
  }

  lemma FirstRow(w: nat, h: nat, px: seq<byte>)
    requires |px| == w * h && h > 0
    ensures w <= |px| && |px[w..]| == w * (h - 1) && (w + 1) * h == w + 1 + (w + 1) * (h - 1)
    ensures Scanlines(w, h, px)[..w + 1] == [0] + px[..w]
    ensures Scanlines(w, h, px)[w + 1..] == Scanlines(w, h - 1, px[w..])
  {
    RowSize(w, h);
  }

  // Byte k of the scanlines is in some row and column: a filter byte, or pixel p.
  lemma {:induction false} ScanlineByte(w: nat, h: nat, px: seq<byte>, row: nat, col: nat, k: nat, p: int)
    requires |px| == w * h && h > 0 && col <= w && k == row * (w + 1) + col < (w + 1) * h && p == row * w + col - 1
    ensures row < h && (col > 0 ==> p < |px|)
    ensures Scanlines(w, h, px)[k] == if col == 0 then 0 else px[p]
    decreases h
  {
    hide Scanlines;
    FirstRow(w, h, px);
    NoRows(w);
    NoRows(w + 1);
    var s, rest := Scanlines(w, h, px), px[w..];
    if row == 0 {
      assert s[k] == s[..w + 1][k];
    } else {
      Successor(row, w + 1);
      Successor(row, w);
      assert h == 1 ==> (w + 1) * (h - 1) == 0;
      ScanlineByte(w, h - 1, rest, row - 1, col, k - (w + 1), p - w);
      assert s[k] == s[w + 1..][k - (w + 1)];
      assert col > 0 ==> rest[p - w] == px[p];
    }
  }

  lemma ReducedSum(x: nat, y: nat)
    ensures (x % ADLER_MOD + y) % ADLER_MOD == (x + y) % ADLER_MOD
  {
  }

  // The reduced sums of a prefix.
  lemma AdlerStep(s: seq<byte>, k: nat)
    requires k < |s|
    ensures SumA(s[..k + 1]) % ADLER_MOD == (SumA(s[..k]) % ADLER_MOD + s[k]) % ADLER_MOD
    ensures SumB(s[..k + 1]) % ADLER_MOD == (SumB(s[..k]) % ADLER_MOD + SumA(s[..k + 1]) % ADLER_MOD) % ADLER_MOD
  {
    assert s[..k + 1][..k] == s[..k];
    var x, y, b := SumA(s[..k]), SumA(s[..k + 1]), SumB(s[..k]);
    assert y == x + s[k] && SumB(s[..k + 1]) == b + y;
    hide SumA, SumB;
    ReducedSum(x, s[k]);
    ReducedSum(b, y % ADLER_MOD);
    ReducedSum(y, b);
    ReducedSum(b % ADLER_MOD, y);
    ReducedSum(b, y);
  }

  // The stream that is left once `emitted` bytes of the scanlines are out.
  function Rest(raw: seq<byte>, emitted: nat): seq<byte>
    requires emitted <= |raw|
  {
    Blocks(raw[emitted..])
  }

  lemma RestStep(raw: seq<byte>, emitted: nat, block: nat)
    requires emitted < |raw| && block == if |raw| - emitted < STORED_MAX then |raw| - emitted else STORED_MAX
    ensures Rest(raw, emitted) ==
      BlockHeader(emitted + block == |raw|, block) + raw[emitted..emitted + block] + Rest(raw, emitted + block)
  {
    var left := raw[emitted..];
    if |left| > STORED_MAX {
      assert left[STORED_MAX..] == raw[emitted + STORED_MAX..];
      assert left[..STORED_MAX] == raw[emitted..emitted + STORED_MAX];
    } else {
      assert left == raw[emitted..emitted + block];
    }
  }

  // The images that the encoder streams without reading past their pixels.
  predicate Encodable(w: u16, h: u16) {
    w > 0 || h <= 1
  }

  // The cursor stands on byte k of the scanlines, or behind the only byte of an image 0 by 1.
  ghost predicate AtByte(w: u16, row: nat, col: u16, k: nat) {
    k == row * (w as int + 1) + col as int && (col <= w || (w == 0 && row == 0 && col == 1))
  }

  // One step of the row and column counters.  `col` is 16 bits wide; for w = 65535 both w + 1 and
  // the counter wrap to 0 at the end of a row.
  function NextCursor(w: u16, row: nat, col: u16): (nat, u16) {
    if col == 0 then (row, 1)
    else
      var c := (col + 1) % 0x1_0000;
      if c == (w + 1) % 0x1_0000 then (row + 1, 0) else (row, c)
  }

  function Cursor(w: u16, k: nat): (nat, u16) {
    if k == 0 then (0, 0) else NextCursor(w, Cursor(w, k - 1).0, Cursor(w, k - 1).1)
  }

  // Every pixel that the encoder reads for an image of w by h exists.
  ghost predicate ReadsInside(w: u16, h: u16) {
    forall k: nat :: k < (w as int + 1) * h as int && Cursor(w, k).1 > 0 ==>
      Cursor(w, k).0 * w + Cursor(w, k).1 - 1 < w as int * h as int
  }

  lemma CursorStep(w: u16, row: nat, col: u16, k: nat)
    requires w > 0 && AtByte(w, row, col, k)
    ensures AtByte(w, NextCursor(w, row, col).0, NextCursor(w, row, col).1, k + 1)
  {
    Successor(row + 1, w + 1);
  }

  lemma {:induction false} CursorIs(w: u16, k: nat)
    requires w > 0
    ensures AtByte(w, Cursor(w, k).0, Cursor(w, k).1, k)
  {
    if k == 0 {
      NoRows(w + 1);
    } else {
      CursorIs(w, k - 1);
      CursorStep(w, Cursor(w, k - 1).0, Cursor(w, k - 1).1, k - 1);
    }
  }

  /** The encoder reads only pixels that exist if and only if the image has columns or at most
      one row. */
  lemma ReadsInsideIff(w: u16, h: u16)
    ensures ReadsInside(w, h) <==> Encodable(w, h)
  {
    if w > 0 && h > 0 {
      ghost var px := Fill(0, w as int * h as int);
      forall k: nat | k < (w as int + 1) * h as int && Cursor(w, k).1 > 0
        ensures Cursor(w, k).0 * w + Cursor(w, k).1 - 1 < w as int * h as int
      {
        CursorIs(w, k);
        ScanlineByte(w, h, px, Cursor(w, k).0, Cursor(w, k).1, k, Cursor(w, k).0 * w + Cursor(w, k).1 - 1);
      }
    } else if w == 0 {
      assert Cursor(w, 0) == (0, 0) && Cursor(w, 1) == (0, 1);
    }
  }

  /** The next byte of the scanlines. */
  method NextByte(gray: seq<byte>, w: u16, h: u16, row0: nat, col0: u16, ghost k: nat)
    returns (byt: byte, row: nat, col: u16)
    requires Encodable(w, h) && |gray| == w as int * h as int
    requires AtByte(w, row0, col0, k) && k < (w as int + 1) * h as int
    ensures byt == Scanlines(w, h, gray)[k] && AtByte(w, row, col, k + 1)
    ensures (row, col) == NextCursor(w, row0, col0)
  {
    hide Scanlines;
    row, col := row0, col0;
    ScanlineByte(w, h, gray, row, col, k, row * w + col - 1);
    if w > 0 {
      CursorStep(w, row, col, k);
    }
    if col == 0 {
      byt := 0;
      col := 1;
    } else {
      byt := gray[row * w + (col - 1)];
      col := (col + 1) % 0x1_0000;
      if col == (w + 1) % 0x1_0000 {
        col := 0;
        row := row + 1;
      }
    }
  }

  // One stored block: `block` bytes of the scanlines from the cursor on.
  method EmitBlock(pw: PngWriter, gray: seq<byte>, w: u16, h: u16, ghost emitted: nat, block: nat,
                   row0: nat, col0: u16, a0: nat, b0: nat)
    returns (row: nat, col: u16, a: nat, b: nat)
    requires pw.Valid() && Encodable(w, h) && |gray| == w as int * h as int
    requires emitted + block <= (w as int + 1) * h as int && AtByte(w, row0, col0, emitted)
    requires a0 == SumA(Scanlines(w, h, gray)[..emitted]) % ADLER_MOD
    requires b0 == SumB(Scanlines(w, h, gray)[..emitted]) % ADLER_MOD
    modifies pw, pw.buf
    ensures pw.Valid() && pw.buf[pw.cap..] == old(pw.buf[pw.cap..])
    ensures pw.log == old(pw.log) + Scanlines(w, h, gray)[emitted..emitted + block]
    ensures AtByte(w, row, col, emitted + block)
    ensures a == SumA(Scanlines(w, h, gray)[..emitted + block]) % ADLER_MOD
    ensures b == SumB(Scanlines(w, h, gray)[..emitted + block]) % ADLER_MOD
    ensures pw.err == 0 ==> old(pw.err) == 0
  {
    hide Scanlines, SumA, SumB, AtByte;
    ghost var raw := Scanlines(w, h, gray);
    row, col, a, b := row0, col0, a0, b0;
    for i := 0 to block
      invariant pw.Valid() && pw.buf[pw.cap..] == old(pw.buf[pw.cap..])
      invariant pw.log == old(pw.log) + raw[emitted..emitted + i]
      invariant AtByte(w, row, col, emitted + i)
      invariant a == SumA(raw[..emitted + i]) % ADLER_MOD && b == SumB(raw[..emitted + i]) % ADLER_MOD
      invariant pw.err == 0 ==> old(pw.err) == 0
    {
      AdlerStep(raw, emitted + i);
      var byt;
      byt, row, col := NextByte(gray, w, h, row, col, emitted + i);
      pw.PutBytes([byt]);
      a := (a + byt) % ADLER_MOD;
      b := (b + a) % ADLER_MOD;
    }
  }

  lemma NothingEmitted(w: u16, raw: seq<byte>)
    ensures AtByte(w, 0, 0, 0) && 1 == SumA(raw[..0]) % ADLER_MOD && 0 == SumB(raw[..0]) % ADLER_MOD
    ensures Rest(raw, 0) == Blocks(raw)
  {
    assert raw[0..] == raw;
  }

  lemma AllEmitted(raw: seq<byte>, a: nat, b: nat)
    requires a == SumA(raw[..|raw|]) % ADLER_MOD && b == SumB(raw[..|raw|]) % ADLER_MOD
    ensures Rest(raw, |raw|) == [] && b * 0x1_0000 + a == Adler32(raw)
  {
    assert raw[..|raw|] == raw;
  }

  // All stored blocks, with the checksum of what they hold.
  method StreamBlocks(pw: PngWriter, gray: seq<byte>, w: u16, h: u16) returns (adler: u32)
    requires pw.Valid() && Encodable(w, h) && |gray| == w as int * h as int
    modifies pw, pw.buf
    ensures pw.Valid() && pw.buf[pw.cap..] == old(pw.buf[pw.cap..])
    ensures pw.log == old(pw.log) + Blocks(Scanlines(w, h, gray)) && adler == Adler32(Scanlines(w, h, gray))
    ensures pw.err == 0 ==> old(pw.err) == 0
  {
    hide Scanlines, Blocks, SumA, SumB, AtByte, Rest, BlockHeader, Adler32;
    ghost var raw := Scanlines(w, h, gray);
    var rawTotal := (w as int + 1) * h as int;
    var a: nat, b: nat, emitted: nat, row: nat, col: u16 := 1, 0, 0, 0, 0;
    NothingEmitted(w, raw);
    while emitted < rawTotal
      invariant pw.Valid() && pw.buf[pw.cap..] == old(pw.buf[pw.cap..])
      invariant emitted <= rawTotal && AtByte(w, row, col, emitted)
      invariant a == SumA(raw[..emitted]) % ADLER_MOD && b == SumB(raw[..emitted]) % ADLER_MOD
      invariant pw.log + Rest(raw, emitted) == old(pw.log) + Blocks(raw)
      invariant pw.err == 0 ==> old(pw.err) == 0
    {
      var block := if rawTotal - emitted < STORED_MAX then rawTotal - emitted else STORED_MAX;
      RestStep(raw, emitted, block);
      ghost var before := pw.log;
      pw.PutBytes(BlockHeader(emitted + block == rawTotal, block));
      row, col, a, b := EmitBlock(pw, gray, w, h, emitted, block, row, col, a, b);
      assert pw.log + Rest(raw, emitted + block) == before + Rest(raw, emitted);
      emitted := emitted + block;
    }
    AllEmitted(raw, a, b);
    assert pw.log + [] == pw.log;
    adler := b * 0x1_0000 + a;
  }

  // The data chunk once its length has been patched and its checksum appended.
  lemma PatchedChunk(head: seq<byte>, z: seq<byte>, log: seq<byte>, n: nat)
    requires n == |head| && |z| <= INT_MAX && log == head + Be32(0) + IDAT + z
    ensures log[n + 4..n + 4 + 4 + |z|] == IDAT + z
    ensures log[..n] + Be32(|z|) + log[n + 4..] + Be32(Crc32(IDAT + z)) == head + ChunkBytes(IDAT, z)
  {
    hide Be32, Crc32;
    assert log[..n] == head && log[n + 4..] == IDAT + z;
  }

  // Patch the length of the data chunk, append its checksum and the end chunk.
  method FinishImage(pw: PngWriter, idatLenPos: nat, idatTagPos: nat, ghost head: seq<byte>, ghost z: seq<byte>)
    requires pw.Valid() && pw.err == 0 && pw.log == head + Be32(0) + IDAT + z
    requires idatLenPos == |head| && idatTagPos == idatLenPos + 4 && |z| <= INT_MAX
    modifies pw, pw.buf
    ensures pw.Valid() && pw.buf[pw.cap..] == old(pw.buf[pw.cap..])
    ensures pw.err == 0 ==> pw.log == head + ChunkBytes(IDAT, z) + ChunkBytes(IEND, [])
    ensures pw.err != 0 ==> |head| + 24 + |z| > pw.cap
  {
    hide ChunkBytes, Crc32, Be32;
    PatchedChunk(head, z, pw.log, idatLenPos);
    var idatPayload := pw.len - idatTagPos - 4;
    pw.PatchBe32(idatLenPos, idatPayload);
    assert pw.log[idatTagPos..] == IDAT + z;
    pw.PutBe32(Crc32(pw.buf[idatTagPos..idatTagPos + 4 + idatPayload]));
    pw.PutChunk(IEND, []);
  }

  lemma SizeOfParts(w: u16, h: u16, px: seq<byte>, head: seq<byte>)
    requires |px| == w as int * h as int && head == SIGNATURE + ChunkBytes(IHDR, Header(w, h))
    ensures var z := ZlibStream(Scanlines(w, h, px));
      && |head| == 33 && PngSize(w, h) == |head| + 24 + |z|
      && (|z| <= INT_MAX ==> Png(w, h, px) == head + ChunkBytes(IDAT, z) + ChunkBytes(IEND, []))
  {
    hide ChunkBytes, Scanlines, ZlibStream, PngSize;
    PngSizeIs(w, h, px);
  }

  // Signature, header, and the start of the data chunk with a length to be patched.
  method StartImage(pw: PngWriter, w: u16, h: u16) returns (idatLenPos: nat, idatTagPos: nat)
    requires pw.Valid() && pw.err == 0 && pw.log == []
    modifies pw, pw.buf
    ensures pw.Valid() && pw.buf[pw.cap..] == old(pw.buf[pw.cap..])
    ensures pw.err == 0 ==>
      var head := SIGNATURE + ChunkBytes(IHDR, Header(w, h));
      && pw.log == head + Be32(0) + IDAT + [0x78, 0x01]
      && idatLenPos == |head| && idatTagPos == idatLenPos + 4
    ensures pw.err != 0 ==> pw.cap < 43
  {
    hide ChunkBytes, Crc32, Be32, Header;
    ghost var head := SIGNATURE + ChunkBytes(IHDR, Header(w, h));
    pw.PutBytes(SIGNATURE);
    assert [] + SIGNATURE == SIGNATURE;
    pw.PutChunk(IHDR, Header(w, h));
    idatLenPos := pw.len;
    pw.PutBe32(0);
    idatTagPos := pw.len;
    pw.PutBytes(IDAT);
    pw.PutBytes([0x78, 0x01]);
  }

  lemma DataSoFar(head: seq<byte>, raw: seq<byte>)
    ensures head + Be32(0) + IDAT + [0x78, 0x01] + Blocks(raw) + Be32(Adler32(raw))
            == head + Be32(0) + IDAT + ZlibStream(raw)
  {
  }

  /** Encode `gray` into the first `outSize` bytes of `out`.  The call succeeds exactly when the
      whole stream fits, and nothing past `outSize` is written in any case. */
  method Encode(gray: seq<byte>, w: u16, h: u16, out: array<byte>, outSize: nat) returns (ret: int)
    requires Encodable(w, h) && |gray| == w as int * h as int
    requires outSize <= out.Length && outSize <= INT_MAX
    modifies out
    ensures out[outSize..] == old(out[outSize..])
    ensures ret == if PngSize(w, h) <= outSize then PngSize(w, h) else -ENOMEM
    ensures ret > 0 ==> |ZlibStream(Scanlines(w, h, gray))| <= INT_MAX && out[..ret] == Png(w, h, gray)
  {
    ghost var raw := Scanlines(w, h, gray);
    ghost var head := SIGNATURE + ChunkBytes(IHDR, Header(w, h));
    SizeOfParts(w, h, gray, head);
    DataSoFar(head, raw);
    hide Scanlines, Blocks, ChunkBytes, Crc32, Be32, Header, PngSize, Adler32, Png, ZlibStream;
    var pw := new PngWriter(out, outSize);
    var idatLenPos, idatTagPos := StartImage(pw, w, h);
    var adler := StreamBlocks(pw, gray, w, h);
    pw.PutBe32(adler);
    if pw.err != 0 {
      return pw.err;
    }
    FinishImage(pw, idatLenPos, idatTagPos, head, ZlibStream(raw));
    return if pw.err == 0 then pw.len else pw.err;
  }
}
